# Snake game state machine in Dafny

This project models the game logic of two snake games. Each game keeps a panel
with the same state: a snake, which is a list of points with the head first;
one food cell; a heading written as one of the characters `U`, `D`, `L`, `R`;
and a `running` flag. The shrinking variant also keeps a `won` flag. The board
is 600 x 600 units, split into cells of 20 units.

- `SnakeGame` models `GamePanel` (SnakeGame.java). A tick moves the snake, then
  checks collisions, then checks the food. Eating appends a copy of the current
  last cell, so the snake grows.
- `ReverseSnakeGame` models `ReverseGamePanel` (ReverseSnakeGame.java). A tick
  moves the snake, then checks the food, then checks collisions. Eating removes
  one more tail cell. When the snake is a single cell, eating wins the game
  instead.
- `Grid` holds what the two files repeat line for line:
  - the constants and the `Point` value;
  - the head step of `move`;
  - the border and self-hit test;
  - the cell that `spawnFood` builds;
  - the reversal guard of `keyPressed`.

  Its rows below cite SnakeGame.java. The same code appears in
  ReverseSnakeGame.java at lines 79-91, 105-118, 71-77 and 146-154.

Each panel is a class. The Java `LinkedList<Point>` is modelled as a
`seq<Point>` field. Every method reassigns that field in the same steps as the
Java code (`addFirst`, `removeLast`, `addLast`). Beside each class, its module
describes the panel's state as a value, `Game`, and gives three pure functions
over it:

- `TickState` is one pass of the game loop;
- `PlayTurn` is the key presses of a turn followed by one tick;
- `Play` is the loop over a list of turns, which stops at the first state that
  is not running.

`Model()` reads a panel's fields as a `Game`. `Tick` ensures that the new
`Model()` equals `TickState` of the old one. `StartGame` ensures that the final
`Model()` equals `Play` of the old one. It also ensures that the loop stopped
exactly at the first state that was not running, or at the end of the turns.
The other methods state each changed field in terms of the old fields, and
their `modifies` clauses leave every other field unchanged.

`Invariant` is the property each panel keeps between ticks, and the class's
`Valid()` applies it to the panel's fields:

- the snake is never empty;
- the heading is one of the four characters;
- the food is on the grid;
- a won game is over;
- every body cell is on the board;
- the head is on the board while the game runs, and at most one unit off it
  after the game ends.

The last two points bound every coordinate, so Java's 32-bit `int` can never
wrap. For that reason, coordinates are modelled as unbounded integers.

External inputs are parameters:

- `java.util.Random` is replaced by two numbers `column` and `row` in
  `[0, 30)`. These are the two results of `nextInt(WIDTH / UNIT_SIZE)` and
  `nextInt(HEIGHT / UNIT_SIZE)`. In a `Turn`, their types `ColumnDraw` and
  `RowDraw` carry that range.
- Key events are `Key` values. The arrow keys are separate constructors, and
  every key code that is not an arrow is `OtherKey`.
- The `while (running)` loop of `startGame` becomes `StartGame`. It takes a
  list of turns. Each turn holds the key presses that arrive before one tick,
  plus that tick's two random draws.

Two behaviours of the code are easy to misread:

- When the growing snake eats, SnakeGame.java:93 appends a copy of its last
  cell after `move` has already dropped the tail. So `[(100,100)]` heading
  right onto food at `(120,100)` becomes `[(120,100),(120,100)]`, not
  `[(120,100),(100,100)]`. `GrowthScenario` shows this. `GrowThenAdvance`
  shows that the next move gives the same snake as keeping the old tail would
  have.
- The growing variant checks collisions before the food
  (SnakeGame.java:56-58). The shrinking variant checks the food first
  (ReverseSnakeGame.java:59-61).

## Model

| member | source | states |
|---|---|---|
| `Grid.Opposite` | SnakeGame.java:157-168 | The opposite of a heading is a different heading. |
| `Grid.OppositeIsInvolution` | SnakeGame.java:157-168 | Taking the opposite twice gives back the heading. |
| `Grid.Step` | SnakeGame.java:79-85 | The new head is exactly 20 units from the old head, on the axis of the heading, with the other coordinate unchanged. `U` lowers y, `D` raises y, `L` lowers x, `R` raises x. Any other character leaves the point unchanged. A step from inside the board stays within one unit of it. |
| `Grid.StepThenOppositeReturns` | SnakeGame.java:79-85 | A step followed by a step in the opposite heading returns to the starting point. |
| `Grid.StepKeepsAlignment` | SnakeGame.java:79-85 | A step keeps a grid-aligned point aligned. |
| `Grid.Advance` | SnakeGame.java:77-89 | After a move the snake has the same length. Its head is one step from the old head, and cells 1..n-1 are the old cells 0..n-2. |
| `Grid.Collides` | SnakeGame.java:102-112 | The border and self-hit test. A one-cell snake collides exactly when its head is off the board. A snake whose head is on the board collides exactly when the head appears again among cells 1 and later. |
| `Grid.LeavingTheCornerCollides` | SnakeGame.java:101-104 | `[(0,0)]` heading left moves to `[(-20,0)]`, and that position ends the game. |
| `Grid.FoodCell` | SnakeGame.java:70-75 | Food built from two draws in `[0,30)` is a multiple of 20 in `[0,600)` on both axes. |
| `Grid.OnGridIsFoodCell` | SnakeGame.java:70-75 | Every aligned cell on the board comes from some pair of draws, so spawning can reach the whole grid and nothing else. |
| `Grid.KeyHeading` | SnakeGame.java:156-168 | Each arrow key stands for one of the four headings. |
| `Grid.Accepted` | SnakeGame.java:158-167 | Only an arrow press can be obeyed. A press of the current heading is always obeyed. For a heading, a press is obeyed exactly when its heading is not the opposite of the current one. |
| `Grid.Steer` | SnakeGame.java:151-170 | An arrow press sets the heading to the key's heading, unless the current heading is its opposite. In that case, and for every other key, the heading stays. A press never produces the opposite of the current heading, and the heading stays one of the four. |
| `Grid.SteerAll` | SnakeGame.java:151-170 | The heading after a series of `keyPressed` calls. From a heading, any series of presses leaves one of `U`, `D`, `L`, `R`. |
| `Grid.SteerAllAppend` | SnakeGame.java:151-170 | In a series of presses, each press acts on the heading that the earlier presses left. |
| `Grid.IgnoredPressesKeepHeading` | SnakeGame.java:151-170 | Presses that are not obeyed when they are made leave the heading unchanged. |
| `Grid.LastAcceptedPressWins` | SnakeGame.java:151-170 | After a series of presses, the heading is that of the last press that was obeyed. |
| `Grid.NoAcceptedPressKeepsHeading` | SnakeGame.java:151-170 | If no press in a series is obeyed, the heading is the initial one. |
| `Grid.TwoPressesCanReverse` | SnakeGame.java:151-170 | Right, then up, then left turns the snake around between two ticks. The guard prevents only a single-press reversal. |
| `SnakeGame.Grow` | SnakeGame.java:91-96 | Eating adds exactly one cell. The old cells are kept in order, and the new last cell equals the previous last cell. |
| `SnakeGame.GrowThenAdvance` | SnakeGame.java:93 | After the next move, a grown snake is the new head followed by every cell of the snake before growth. |
| `SnakeGame.TickState` | SnakeGame.java:55-58 | One tick from a running state keeps the invariant and the heading. The new head is one step from the old head, and cells 1..n-1 are the old cells 0..n-2. The game goes on exactly when the moved snake does not collide. When the new head is on the old food, the snake is one cell longer, its last two cells are equal, and the food is the drawn cell. Otherwise the length and the food are unchanged. |
| `SnakeGame.PlayTurn` | SnakeGame.java:55-58 | Key presses followed by one tick keep the invariant, never shorten the snake, and put the head one step from the old head in the heading the presses left. |
| `SnakeGame.Play` | SnakeGame.java:55-58 | The loop over any list of turns keeps the invariant and never shortens the snake. A game that is not running is left as it is. |
| `SnakeGame.PlayPrefixStep` | SnakeGame.java:55-58 | One more turn of the list is one `PlayTurn` when the game still runs after the earlier turns, and changes nothing otherwise. |
| `SnakeGame.PlayOneMore` | SnakeGame.java:55-58 | One turn after a running state reached by the first n turns gives the state of the first n + 1 turns, and every state before it was running. |
| `SnakeGame.PlayFinished` | SnakeGame.java:55 | Once the game has stopped, the remaining turns change nothing. |
| `SnakeGame.GamePanel.constructor` | SnakeGame.java:33-51 | A new panel holds the one-cell snake `[(100,100)]`, food from the draws, heading `R` and `running` true, and satisfies the invariant. |
| `SnakeGame.GamePanel.InitGame` | SnakeGame.java:46-51 | Sets the one-cell snake at `(100,100)`, spawns food and sets `running` true. |
| `SnakeGame.GamePanel.SpawnFood` | SnakeGame.java:70-75 | Only the food changes, and it becomes the grid cell for the two draws. |
| `SnakeGame.GamePanel.Move` | SnakeGame.java:77-89 | Only the snake changes, and it becomes `Advance` of the old snake in the current heading. |
| `SnakeGame.GamePanel.CheckFood` | SnakeGame.java:91-96 | When the head is on the food, the snake grows by a copy of its last cell and the food is respawned. Otherwise neither changes. |
| `SnakeGame.GamePanel.CheckCollisions` | SnakeGame.java:98-117 | Afterwards `running` is true exactly when it was true before, the head is on the board, and no cell at index 1 or later equals the head. It never sets `running`. |
| `SnakeGame.GamePanel.KeyPressed` | SnakeGame.java:151-170 | Only the heading changes, to `Steer` of the old heading and the key. The invariant is kept. |
| `SnakeGame.GamePanel.KeysPressed` | SnakeGame.java:151-170 | Presses that arrive one after another set the heading to `SteerAll` of them. |
| `SnakeGame.GamePanel.Tick` | SnakeGame.java:55-58 | Move, then `checkCollisions`, then `checkFood`. The panel afterwards equals `TickState` of the panel before, and the invariant is kept. |
| `SnakeGame.GamePanel.StartGame` | SnakeGame.java:53-68 | The panel afterwards equals `Play` of the panel before over the turns played, and over the whole list. Every state before the last tick played was running. The loop stops before the end of the list only when `running` is false. |
| `SnakeGame.GrowthScenario` | SnakeGame.java:91-96 | `[(100,100)]` heading right onto food at `(120,100)` becomes `[(120,100),(120,100)]` and keeps running. |
| `ReverseSnakeGame.Shrink` | ReverseSnakeGame.java:95-96 | Shrinking removes exactly the last cell of a snake longer than one cell, and leaves at least one cell. |
| `ReverseSnakeGame.ShrinkAfterAdvance` | ReverseSnakeGame.java:89-96 | Eating right after a move leaves the new head followed by all but the last two cells of the snake before the move. |
| `ReverseSnakeGame.TickState` | ReverseSnakeGame.java:58-61 | One tick from a running state keeps the invariant and the heading. The new head is one step from the old head, and the later cells are old cells shifted by one. On the food, a longer snake loses one cell and gets the drawn food without winning. A one-cell snake wins and keeps its food. Away from the food, the length and the food are unchanged and the game is not won. Afterwards the game runs exactly when it is not won and the snake does not collide. |
| `ReverseSnakeGame.PlayTurn` | ReverseSnakeGame.java:58-61 | Key presses followed by one tick keep the invariant, never lengthen the snake, and put the head one step from the old head in the heading the presses left. |
| `ReverseSnakeGame.Play` | ReverseSnakeGame.java:58-61 | The loop over any list of turns keeps the invariant, never lengthens the snake, and never clears `won`. A game that is not running is left as it is. |
| `ReverseSnakeGame.PlayPrefixStep` | ReverseSnakeGame.java:58-61 | One more turn of the list is one `PlayTurn` when the game still runs after the earlier turns, and changes nothing otherwise. |
| `ReverseSnakeGame.PlayOneMore` | ReverseSnakeGame.java:58-61 | One turn after a running state reached by the first n turns gives the state of the first n + 1 turns, and every state before it was running. |
| `ReverseSnakeGame.PlayFinished` | ReverseSnakeGame.java:58 | Once the game has stopped, the remaining turns change nothing. |
| `ReverseSnakeGame.ReverseGamePanel.constructor` | ReverseSnakeGame.java:34-54 | A new panel holds the three cells `(200,200)`, `(180,200)`, `(160,200)`, food from the draws, heading `R`, `running` true and `won` false, and satisfies the invariant. |
| `ReverseSnakeGame.ReverseGamePanel.InitGame` | ReverseSnakeGame.java:48-54 | Builds the three-cell snake and spawns food, without touching the flags. |
| `ReverseSnakeGame.ReverseGamePanel.SpawnFood` | ReverseSnakeGame.java:71-77 | Only the food changes, and it becomes the grid cell for the two draws. |
| `ReverseSnakeGame.ReverseGamePanel.Move` | ReverseSnakeGame.java:79-91 | Only the snake changes, and it becomes `Advance` of the old snake in the current heading. |
| `ReverseSnakeGame.ReverseGamePanel.CheckFood` | ReverseSnakeGame.java:93-103 | When the head is on the food and the snake is longer than one cell, one tail cell is dropped and the food is respawned. When the snake is a single cell, `won` becomes true and `running` false, and the snake and food are kept. Otherwise nothing changes. |
| `ReverseSnakeGame.ReverseGamePanel.CheckCollision` | ReverseSnakeGame.java:105-118 | Afterwards `running` is true exactly when it was true before, the head is on the board, and no later cell equals the head. `won` is outside its frame. |
| `ReverseSnakeGame.ReverseGamePanel.KeyPressed` | ReverseSnakeGame.java:146-154 | Only the heading changes, to `Steer` of the old heading and the key. The invariant is kept. |
| `ReverseSnakeGame.ReverseGamePanel.KeysPressed` | ReverseSnakeGame.java:146-154 | Presses that arrive one after another set the heading to `SteerAll` of them. |
| `ReverseSnakeGame.ReverseGamePanel.Tick` | ReverseSnakeGame.java:58-61 | Move, then `checkFood`, then `checkCollision`. The panel afterwards equals `TickState` of the panel before, and the invariant is kept. |
| `ReverseSnakeGame.ReverseGamePanel.StartGame` | ReverseSnakeGame.java:56-69 | The panel afterwards equals `Play` of the panel before over the turns played, and over the whole list. Every state before the last tick played was running. The loop stops before the end of the list only when `running` is false. |
| `ReverseSnakeGame.WinScenario` | ReverseSnakeGame.java:93-103 | From the start position, with food drawn at `(220,200)`, `(240,200)` and `(260,200)`, three ticks to the right end with the one-cell snake `[(260,200)]`, `won` true and `running` false. |

## Left out

- `main`, the `JFrame` setup, `paintComponent`, `showGameOver` and `showEndScreen`: these only draw the state and never change it.
- The game thread, `Thread.sleep`, the `InterruptedException` handlers and `gameThread.interrupt()` in `checkCollisions`: these are timing and thread plumbing. A tick is a plain method call, and the loop is `StartGame`.
- The unsynchronised race between `keyPressed` on the event thread and the tick thread: key presses are modelled as calls between ticks. No "no reversal within a tick" property is claimed, because two presses between ticks can reverse the snake (`TwoPressesCanReverse`).
- `java.util.Random`: its draws are parameters limited to `[0, 30)`. Like the code, the model lets food appear on the snake's body.
- The unused `GAME_UNITS` constant, `DELAY`, `KeyEvent` internals and the unused `getKeyChar` result in SnakeGame.java.
- `keyReleased` and `keyTyped`: both are empty.
