/** The growing snake: a panel whose snake gets one cell longer every time its
    head reaches the food. A tick moves the snake, then checks collisions,
    then checks the food. */
module SnakeGame {
  import opened Grid

  /** The snake after it eats: a copy of its current last cell is appended.
      As this happens after the move has already dropped the old tail, the
      new last two cells are the same point. */
  function Grow(snake: seq<Point>): (r: seq<Point>)
    requires |snake| >= 1
    ensures |r| == |snake| + 1
    ensures r[..|snake|] == snake
    ensures r[|snake|] == r[|snake| - 1]
  {
    snake + [snake[|snake| - 1]]
  }

  /** The copied cell takes effect on the next move: moving a grown snake
      keeps every cell of the snake it grew from. */
  lemma GrowThenAdvance(snake: seq<Point>, heading: char)
    requires |snake| >= 1
    ensures Advance(Grow(snake), heading) == [Step(snake[0], heading)] + snake
  {
    var r := Advance(Grow(snake), heading);
    assert forall i :: 1 <= i < |r| ==> r[i] == Grow(snake)[i - 1] == snake[i - 1];
  }

  /** The panel's state as a value: the snake head first, the food, the
      heading and the running flag. */
  datatype Game = Game(snake: seq<Point>, food: Point, direction: char, running: bool)

  /** The state between ticks: the snake is never empty, the heading is one
      of the four, the food is on the grid, every body cell is on the board,
      the head is on the board while the game runs and at most one unit off
      it afterwards (so no coordinate ever comes near the 32-bit limits). */
  predicate Invariant(g: Game) {
    |g.snake| >= 1 && IsHeading(g.direction) && OnGrid(g.food) &&
    (forall i :: 1 <= i < |g.snake| ==> InBounds(g.snake[i])) &&
    NearBoard(g.snake[0]) && (g.running ==> InBounds(g.snake[0]))
  }

  /** One pass of the game loop: move, check collisions, check food. The
      game goes on exactly when the moved snake does not collide; the snake
      grows by a copy of its last cell and the food is respawned exactly when
      the new head is on the food. */
  function TickState(g: Game, column: int, row: int): (r: Game)
    requires Invariant(g) && g.running
    requires 0 <= column < COLUMNS && 0 <= row < ROWS
    ensures Invariant(r) && r.direction == g.direction
    ensures r.snake[0] == Step(g.snake[0], g.direction)
    ensures |r.snake| == |g.snake| + (if r.snake[0] == g.food then 1 else 0)
    ensures forall i :: 1 <= i < |g.snake| ==> r.snake[i] == g.snake[i - 1]
    ensures r.running == !Collides(Advance(g.snake, g.direction))
    ensures r.snake[0] == g.food ==>
              r.snake[|g.snake|] == r.snake[|g.snake| - 1] && r.food == FoodCell(column, row)
    ensures r.snake[0] != g.food ==> r.food == g.food
  {
    var moved := Advance(g.snake, g.direction);
    var checked := g.(snake := moved, running := g.running && !Collides(moved));
    if moved[0] == checked.food then checked.(snake := Grow(moved), food := FoodCell(column, row))
    else checked
  }

  /** A turn: its key presses arrive one after another, then one tick runs. */
  function PlayTurn(g: Game, turn: Turn): (r: Game)
    requires Invariant(g) && g.running
    ensures Invariant(r) && |r.snake| >= |g.snake|
    ensures r.snake[0] == Step(g.snake[0], SteerAll(g.direction, turn.presses))
  {
    TickState(g.(direction := SteerAll(g.direction, turn.presses)), turn.column, turn.row)
  }

  /** The loop of startGame over a list of turns: each turn is played on the
      state the earlier ones left, if that state still runs; the first state
      that is not running is final. The snake never gets shorter, and a
      finished game is left as it is. */
  function Play(g: Game, turns: seq<Turn>): (r: Game)
    requires Invariant(g)
    ensures Invariant(r) && |r.snake| >= |g.snake|
    ensures !g.running ==> r == g
    decreases |turns|
  {
    if turns == [] then g
    else
      var p := Play(g, turns[..|turns| - 1]);
      if p.running then PlayTurn(p, turns[|turns| - 1]) else p
  }

  /** Playing one more turn of the list is one PlayTurn if the game still
      runs after the earlier turns, and nothing otherwise. */
  lemma PlayPrefixStep(g: Game, turns: seq<Turn>, n: nat)
    requires Invariant(g) && n < |turns|
    ensures var p := Play(g, turns[..n]);
            Play(g, turns[..n + 1]) == if p.running then PlayTurn(p, turns[n]) else p
  {
    assert turns[..n + 1][..n] == turns[..n];
  }

  /** Every state reached before the first n turns were all played was
      still running, so the loop went on to play each of them. */
  predicate RanThrough(g: Game, turns: seq<Turn>, n: nat)
    requires Invariant(g) && n <= |turns|
  {
    forall k :: 0 <= k < n ==> Play(g, turns[..k]).running
  }

  /** The state one PlayTurn after the state the first n turns reach, while
      that state runs, is the state the first n + 1 turns reach. */
  lemma PlayOneMore(g: Game, turns: seq<Turn>, n: nat, after: Game)
    requires Invariant(g) && n < |turns| && RanThrough(g, turns, n)
    requires Play(g, turns[..n]).running
    requires after == PlayTurn(Play(g, turns[..n]), turns[n])
    ensures after == Play(g, turns[..n + 1]) && RanThrough(g, turns, n + 1)
  {
    PlayPrefixStep(g, turns, n);
  }

  /** Once the game has stopped, further turns change nothing. */
  lemma {:induction false} PlayFinished(g: Game, turns: seq<Turn>, k: nat)
    requires Invariant(g) && k <= |turns|
    requires !Play(g, turns[..k]).running
    ensures Play(g, turns) == Play(g, turns[..k])
    decreases |turns| - k
  {
    if k == |turns| {
      assert turns[..k] == turns;
    } else {
      assert turns[..k + 1][..k] == turns[..k];
      PlayFinished(g, turns, k + 1);
    }
  }

  class GamePanel {
    var snake: seq<Point>
    var food: Point
    var direction: char
    var running: bool

    /** The panel's fields as a Game value. */
    function Model(): (g: Game)
      reads this
      ensures g.snake == snake && g.food == food && g.direction == direction && g.running == running
    {
      Game(snake, food, direction, running)
    }

    ghost predicate Valid()
      reads this
    {
      Invariant(Model())
    }

    /** The panel as built: heading 'R', not running, then initGame. The two
        arguments stand for the random draws of the first spawnFood. */
    constructor (column: int, row: int)
      requires 0 <= column < COLUMNS && 0 <= row < ROWS
      ensures Valid()
      ensures snake == [Point(100, 100)] && food == FoodCell(column, row)
      ensures direction == 'R' && running
    {
      direction := 'R';
      running := false;
      snake := [];
      food := Point(0, 0);
      new;
      InitGame(column, row);
    }

    method InitGame(column: int, row: int)
      requires 0 <= column < COLUMNS && 0 <= row < ROWS
      modifies this`snake, this`food, this`running
      ensures snake == [Point(100, 100)] && food == FoodCell(column, row) && running
    {
      snake := [Point(100, 100)];
      SpawnFood(column, row);
      running := true;
    }

    /** spawnFood with its two draws from [0, 30) supplied by the caller; the
        cell is not checked against the snake's body. */
    method SpawnFood(column: int, row: int)
      requires 0 <= column < COLUMNS && 0 <= row < ROWS
      modifies this`food
      ensures food == FoodCell(column, row) && OnGrid(food)
    {
      food := FoodCell(column, row);
    }

    method Move()
      requires |snake| >= 1
      modifies this`snake
      ensures snake == Advance(old(snake), direction)
      ensures |snake| == |old(snake)| && snake[0] == Step(old(snake)[0], direction)
      ensures snake[1..] == old(snake)[..|old(snake)| - 1]
    {
      var head := Step(snake[0], direction);
      snake := [head] + snake;
      snake := snake[..|snake| - 1];
    }

    method CheckFood(column: int, row: int)
      requires |snake| >= 1
      requires 0 <= column < COLUMNS && 0 <= row < ROWS
      modifies this`snake, this`food
      ensures old(snake[0] == food) ==> snake == Grow(old(snake)) && food == FoodCell(column, row)
      ensures old(snake[0] != food) ==> snake == old(snake) && food == old(food)
    {
      if snake[0] == food {
        snake := snake + [snake[|snake| - 1]];
        SpawnFood(column, row);
      }
    }

    /** The border test, then the scan of cells 1.. for the head, which stops
        at the first hit. It only ever clears running. */
    method CheckCollisions()
      requires |snake| >= 1
      modifies this`running
      ensures running == (old(running) && !Collides(snake))
    {
      var head := snake[0];
      if head.x < 0 || head.x >= WIDTH || head.y < 0 || head.y >= HEIGHT {
        running := false;
      }
      for i := 1 to |snake|
        invariant running == (old(running) && InBounds(head))
        invariant forall j :: 1 <= j < i ==> snake[j] != head
      {
        if head == snake[i] {
          running := false;
          break;
        }
      }
    }

    method KeyPressed(key: Key)
      requires Valid()
      modifies this`direction
      ensures Valid()
      ensures direction == Steer(old(direction), key)
    {
      match key
      case ArrowLeft => if direction != 'R' { direction := 'L'; }
      case ArrowRight => if direction != 'L' { direction := 'R'; }
      case ArrowUp => if direction != 'D' { direction := 'U'; }
      case ArrowDown => if direction != 'U' { direction := 'D'; }
      case OtherKey =>
    }

    /** The presses that arrive between two ticks, in order. */
    method KeysPressed(keys: seq<Key>)
      requires Valid()
      modifies this`direction
      ensures Valid()
      ensures direction == SteerAll(old(direction), keys)
    {
      for i := 0 to |keys|
        invariant Valid()
        invariant direction == SteerAll(old(direction), keys[..i])
      {
        assert keys[..i + 1] == keys[..i] + [keys[i]];
        SteerAllAppend(old(direction), keys[..i], keys[i]);
        KeyPressed(keys[i]);
      }
      assert keys[..|keys|] == keys;
    }

    /** One pass of the game loop: move, check collisions, check food. */
    method Tick(column: int, row: int)
      requires Valid() && running
      requires 0 <= column < COLUMNS && 0 <= row < ROWS
      modifies this
      ensures Valid()
      ensures Model() == TickState(old(Model()), column, row)
    {
      Move();
      CheckCollisions();
      CheckFood(column, row);
    }

    /** The loop of startGame: a tick per turn for as long as the game runs;
        the presses of a turn arrive just before its tick. Returns the number
        of ticks played: every state before the last tick was running, and the
        loop stops early only at a state that is not. */
    method StartGame(turns: seq<Turn>) returns (ticks: nat)
      requires Valid()
      modifies this
      ensures Valid() && ticks <= |turns|
      ensures Model() == Play(old(Model()), turns[..ticks]) == Play(old(Model()), turns)
      ensures RanThrough(old(Model()), turns, ticks)
      ensures ticks < |turns| ==> !running
    {
      ghost var start := Model();
      ticks := 0;
      assert turns[..0] == [];
      while running && ticks < |turns|
        invariant Valid() && ticks <= |turns|
        invariant Model() == Play(start, turns[..ticks])
        invariant RanThrough(start, turns, ticks)
      {
        KeysPressed(turns[ticks].presses);
        Tick(turns[ticks].column, turns[ticks].row);
        PlayOneMore(start, turns, ticks, Model());
        ticks := ticks + 1;
      }
      if ticks < |turns| {
        PlayFinished(start, turns, ticks);
      } else {
        assert turns[..ticks] == turns;
      }
    }
  }

  /** A one-cell snake heading right onto food at (120, 100) becomes two
      copies of (120, 100) and keeps running. */
  method GrowthScenario() returns (snake: seq<Point>, running: bool)
    ensures snake == [Point(120, 100), Point(120, 100)] && running
  {
    var panel := new GamePanel(6, 5);
    panel.Tick(0, 0);
    snake, running := panel.snake, panel.running;
  }
}
