/** The shrinking snake: a panel whose snake loses one cell every time its head
    reaches the food, and which is won when a one-cell snake eats. A tick
    moves the snake, then checks the food, then checks collisions. */
module ReverseSnakeGame {
  import opened Grid

  /** The snake after it eats while longer than one cell: its last cell is
      removed, and nothing else changes. */
  function Shrink(snake: seq<Point>): (r: seq<Point>)
    requires |snake| > 1
    ensures |r| >= 1
    ensures r + [snake[|snake| - 1]] == snake
  {
    snake[..|snake| - 1]
  }

  /** Eating right after a move costs the snake the last two cells it had
      before the move. */
  lemma ShrinkAfterAdvance(snake: seq<Point>, heading: char)
    requires |snake| > 1
    ensures Shrink(Advance(snake, heading)) == [Step(snake[0], heading)] + snake[..|snake| - 2]
  {
    var moved := Advance(snake, heading);
    var r := Shrink(moved);
    assert forall i :: 1 <= i < |r| ==> r[i] == moved[i] == snake[i - 1];
  }

  /** The panel's state as a value: the snake head first, the food, the
      heading and the two flags. */
  datatype Game = Game(snake: seq<Point>, food: Point, direction: char, running: bool, won: bool)

  /** The state between ticks: the snake is never empty, the heading is one
      of the four, the food is on the grid, a won game is over, every body
      cell is on the board, and the head is on the board while the game runs
      and at most one unit off it afterwards. */
  predicate Invariant(g: Game) {
    |g.snake| >= 1 && IsHeading(g.direction) && OnGrid(g.food) && (g.won ==> !g.running) &&
    (forall i :: 1 <= i < |g.snake| ==> InBounds(g.snake[i])) &&
    NearBoard(g.snake[0]) && (g.running ==> InBounds(g.snake[0]))
  }

  /** One pass of the game loop: move, check food, check collisions. On the
      food a longer snake loses its last cell and the food is respawned, while
      a one-cell snake wins; then the game goes on exactly when it is not won
      and the resulting snake does not collide. */
  function TickState(g: Game, column: int, row: int): (r: Game)
    requires Invariant(g) && g.running
    requires 0 <= column < COLUMNS && 0 <= row < ROWS
    ensures Invariant(r) && r.direction == g.direction
    ensures r.snake[0] == Step(g.snake[0], g.direction) && |r.snake| <= |g.snake|
    ensures forall i :: 1 <= i < |r.snake| ==> r.snake[i] == g.snake[i - 1]
    ensures var ate := r.snake[0] == g.food;
            (ate && |g.snake| > 1 ==> |r.snake| == |g.snake| - 1 && r.food == FoodCell(column, row) && !r.won) &&
            (ate && |g.snake| == 1 ==> |r.snake| == 1 && r.food == g.food && r.won) &&
            (!ate ==> |r.snake| == |g.snake| && r.food == g.food && !r.won)
    ensures r.running <==> !r.won && !Collides(r.snake)
  {
    var moved := g.(snake := Advance(g.snake, g.direction));
    var fed :=
      if moved.snake[0] != moved.food then moved
      else if |moved.snake| > 1 then moved.(snake := Shrink(moved.snake), food := FoodCell(column, row))
      else moved.(won := true, running := false);
    fed.(running := fed.running && !Collides(fed.snake))
  }

  /** A turn: its key presses arrive one after another, then one tick runs. */
  function PlayTurn(g: Game, turn: Turn): (r: Game)
    requires Invariant(g) && g.running
    ensures Invariant(r) && |r.snake| <= |g.snake|
    ensures r.snake[0] == Step(g.snake[0], SteerAll(g.direction, turn.presses))
  {
    TickState(g.(direction := SteerAll(g.direction, turn.presses)), turn.column, turn.row)
  }

  /** The loop of startGame over a list of turns: each turn is played on the
      state the earlier ones left, if that state still runs; the first state
      that is not running is final. The snake never gets longer, a won game
      stays won, and a finished game is left as it is. */
  function Play(g: Game, turns: seq<Turn>): (r: Game)
    requires Invariant(g)
    ensures Invariant(r) && |r.snake| <= |g.snake|
    ensures !g.running ==> r == g
    ensures g.won ==> r.won
    decreases |turns|
  {
    if turns == [] then g
    else
      var p := Play(g, turns[..|turns| - 1]);
      if p.running then PlayTurn(p, turns[|turns| - 1]) else p
  }

  /** Playing one more turn of the list is one PlayTurn if the game still
      runs after the earlier turns, and nothing otherwise. */
  lemma PlayPrefixStep(g: Game, turns: seq<Turn>, n: nat)
    requires Invariant(g) && n < |turns|
    ensures var p := Play(g, turns[..n]);
            Play(g, turns[..n + 1]) == if p.running then PlayTurn(p, turns[n]) else p
  {
    assert turns[..n + 1][..n] == turns[..n];
  }

  /** Every state reached before the first n turns were all played was
      still running, so the loop went on to play each of them. */
  predicate RanThrough(g: Game, turns: seq<Turn>, n: nat)
    requires Invariant(g) && n <= |turns|
  {
    forall k :: 0 <= k < n ==> Play(g, turns[..k]).running
  }

  /** The state one PlayTurn after the state the first n turns reach, while
      that state runs, is the state the first n + 1 turns reach. */
  lemma PlayOneMore(g: Game, turns: seq<Turn>, n: nat, after: Game)
    requires Invariant(g) && n < |turns| && RanThrough(g, turns, n)
    requires Play(g, turns[..n]).running
    requires after == PlayTurn(Play(g, turns[..n]), turns[n])
    ensures after == Play(g, turns[..n + 1]) && RanThrough(g, turns, n + 1)
  {
    PlayPrefixStep(g, turns, n);
  }

  /** Once the game has stopped, further turns change nothing. */
  lemma {:induction false} PlayFinished(g: Game, turns: seq<Turn>, k: nat)
    requires Invariant(g) && k <= |turns|
    requires !Play(g, turns[..k]).running
    ensures Play(g, turns) == Play(g, turns[..k])
    decreases |turns| - k
  {
    if k == |turns| {
      assert turns[..k] == turns;
    } else {
      assert turns[..k + 1][..k] == turns[..k];
      PlayFinished(g, turns, k + 1);
    }
  }

  class ReverseGamePanel {
    var snake: seq<Point>
    var food: Point
    var direction: char
    var running: bool
    var won: bool

    /** The panel's fields as a Game value. */
    function Model(): (g: Game)
      reads this
      ensures g.snake == snake && g.food == food && g.direction == direction
      ensures g.running == running && g.won == won
    {
      Game(snake, food, direction, running, won)
    }

    ghost predicate Valid()
      reads this
    {
      Invariant(Model())
    }

    /** The panel as built: heading 'R', running, not won, then initGame. The
        two arguments stand for the random draws of the first spawnFood. */
    constructor (column: int, row: int)
      requires 0 <= column < COLUMNS && 0 <= row < ROWS
      ensures Valid()
      ensures snake == [Point(200, 200), Point(180, 200), Point(160, 200)]
      ensures food == FoodCell(column, row)
      ensures direction == 'R' && running && !won
    {
      direction := 'R';
      running := true;
      won := false;
      snake := [];
      food := Point(0, 0);
      new;
      InitGame(column, row);
    }

    method InitGame(column: int, row: int)
      requires 0 <= column < COLUMNS && 0 <= row < ROWS
      modifies this`snake, this`food
      ensures snake == [Point(200, 200), Point(180, 200), Point(160, 200)]
      ensures food == FoodCell(column, row)
    {
      snake := [];
      snake := snake + [Point(200, 200)];
      snake := snake + [Point(180, 200)];
      snake := snake + [Point(160, 200)];
      SpawnFood(column, row);
    }

    /** spawnFood with its two draws from [0, 30) supplied by the caller; the
        cell is not checked against the snake's body. */
    method SpawnFood(column: int, row: int)
      requires 0 <= column < COLUMNS && 0 <= row < ROWS
      modifies this`food
      ensures food == FoodCell(column, row) && OnGrid(food)
    {
      food := FoodCell(column, row);
    }

    method Move()
      requires |snake| >= 1
      modifies this`snake
      ensures snake == Advance(old(snake), direction)
      ensures |snake| == |old(snake)| && snake[0] == Step(old(snake)[0], direction)
      ensures snake[1..] == old(snake)[..|old(snake)| - 1]
    {
      var head := Step(snake[0], direction);
      snake := [head] + snake;
      snake := snake[..|snake| - 1];
    }

    method CheckFood(column: int, row: int)
      requires |snake| >= 1
      requires 0 <= column < COLUMNS && 0 <= row < ROWS
      modifies this`snake, this`food, this`won, this`running
      ensures old(snake[0] == food) && old(|snake|) > 1 ==>
                snake == Shrink(old(snake)) && food == FoodCell(column, row) &&
                won == old(won) && running == old(running)
      ensures old(snake[0] == food) && old(|snake|) == 1 ==>
                snake == old(snake) && food == old(food) && won && !running
      ensures old(snake[0] != food) ==>
                snake == old(snake) && food == old(food) && won == old(won) && running == old(running)
    {
      if snake[0] == food {
        if |snake| > 1 {
          snake := snake[..|snake| - 1];
          SpawnFood(column, row);
        } else {
          won := true;
          running := false;
        }
      }
    }

    /** The border test, then the scan of cells 1.. for the head, which stops
        at the first hit. It only ever clears running and never touches won. */
    method CheckCollision()
      requires |snake| >= 1
      modifies this`running
      ensures running == (old(running) && !Collides(snake))
    {
      var head := snake[0];
      if head.x < 0 || head.x >= WIDTH || head.y < 0 || head.y >= HEIGHT {
        running := false;
      }
      for i := 1 to |snake|
        invariant running == (old(running) && InBounds(head))
        invariant forall j :: 1 <= j < i ==> snake[j] != head
      {
        if head == snake[i] {
          running := false;
          break;
        }
      }
    }

    method KeyPressed(key: Key)
      requires Valid()
      modifies this`direction
      ensures Valid()
      ensures direction == Steer(old(direction), key)
    {
      match key
      case ArrowUp => if direction != 'D' { direction := 'U'; }
      case ArrowDown => if direction != 'U' { direction := 'D'; }
      case ArrowLeft => if direction != 'R' { direction := 'L'; }
      case ArrowRight => if direction != 'L' { direction := 'R'; }
      case OtherKey =>
    }

    /** The presses that arrive between two ticks, in order. */
    method KeysPressed(keys: seq<Key>)
      requires Valid()
      modifies this`direction
      ensures Valid()
      ensures direction == SteerAll(old(direction), keys)
    {
      for i := 0 to |keys|
        invariant Valid()
        invariant direction == SteerAll(old(direction), keys[..i])
      {
        assert keys[..i + 1] == keys[..i] + [keys[i]];
        SteerAllAppend(old(direction), keys[..i], keys[i]);
        KeyPressed(keys[i]);
      }
      assert keys[..|keys|] == keys;
    }

    /** One pass of the game loop: move, check food, check collisions. */
    method Tick(column: int, row: int)
      requires Valid() && running
      requires 0 <= column < COLUMNS && 0 <= row < ROWS
      modifies this
      ensures Valid()
      ensures Model() == TickState(old(Model()), column, row)
    {
      Move();
      CheckFood(column, row);
      CheckCollision();
    }

    /** The loop of startGame: a tick per turn for as long as the game runs;
        the presses of a turn arrive just before its tick. Returns the number
        of ticks played: every state before the last tick was running, and the
        loop stops early only at a state that is not. */
    method StartGame(turns: seq<Turn>) returns (ticks: nat)
      requires Valid()
      modifies this
      ensures Valid() && ticks <= |turns|
      ensures Model() == Play(old(Model()), turns[..ticks]) == Play(old(Model()), turns)
      ensures RanThrough(old(Model()), turns, ticks)
      ensures ticks < |turns| ==> !running
    {
      ghost var start := Model();
      ticks := 0;
      assert turns[..0] == [];
      while running && ticks < |turns|
        invariant Valid() && ticks <= |turns|
        invariant Model() == Play(start, turns[..ticks])
        invariant RanThrough(start, turns, ticks)
      {
        KeysPressed(turns[ticks].presses);
        Tick(turns[ticks].column, turns[ticks].row);
        PlayOneMore(start, turns, ticks, Model());
        ticks := ticks + 1;
      }
      if ticks < |turns| {
        PlayFinished(start, turns, ticks);
      } else {
        assert turns[..ticks] == turns;
      }
    }
  }

  /** From the starting position, with the food drawn at (220, 200), then
      (240, 200), then (260, 200), three ticks to the right eat three times:
      the snake shrinks to one cell and the third meal wins the game. */
  method WinScenario() returns (snake: seq<Point>, won: bool, running: bool)
    ensures snake == [Point(260, 200)] && won && !running
  {
    var panel := new ReverseGamePanel(11, 10);
    panel.Tick(12, 10);
    panel.Tick(13, 10);
    panel.Tick(0, 0);
    snake, won, running := panel.snake, panel.won, panel.running;
  }
}
