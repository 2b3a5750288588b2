/** The vocabulary both game variants share: a 600 x 600 board measured in
    cells of 20 units, points, the heading kept as one of the characters
    'U', 'D', 'L', 'R', the arrow keys, and the pure steps of a tick that the
    two panels perform identically (moving the head, the collision test, the
    food spawn and the reversal guard on key presses). */
module Grid {

  const WIDTH: int := 600
  const HEIGHT: int := 600
  const UNIT_SIZE: int := 20

  /** Number of grid columns and rows that spawnFood draws from. */
  const COLUMNS: int := WIDTH / UNIT_SIZE
  const ROWS: int := HEIGHT / UNIT_SIZE

  /** A board position; compared by its coordinates, like java.awt.Point.equals. */
  datatype Point = Point(x: int, y: int)

  /** A key press: the four arrow keys, and OtherKey for every key code that
      is not an arrow. */
  datatype Key = ArrowUp | ArrowDown | ArrowLeft | ArrowRight | OtherKey

  predicate IsHeading(c: char) {
    c == 'U' || c == 'D' || c == 'L' || c == 'R'
  }

  function Opposite(c: char): (r: char)
    requires IsHeading(c)
    ensures IsHeading(r) && r != c
  {
    if c == 'U' then 'D'
    else if c == 'D' then 'U'
    else if c == 'L' then 'R'
    else 'L'
  }

  lemma OppositeIsInvolution(c: char)
    requires IsHeading(c)
    ensures Opposite(Opposite(c)) == c
  {
  }

  function Abs(n: int): (r: nat) {
    if n < 0 then -n else n
  }

  /** Inside the board: the negation of the border test of the collision check. */
  predicate InBounds(p: Point) {
    0 <= p.x < WIDTH && 0 <= p.y < HEIGHT
  }

  /** Within one unit of the board: where a head can be after one step from inside it. */
  predicate NearBoard(p: Point) {
    -UNIT_SIZE <= p.x < WIDTH + UNIT_SIZE && -UNIT_SIZE <= p.y < HEIGHT + UNIT_SIZE
  }

  /** A cell the food can occupy: inside the board and aligned to the unit grid. */
  predicate OnGrid(p: Point) {
    InBounds(p) && p.x % UNIT_SIZE == 0 && p.y % UNIT_SIZE == 0
  }

  /** The new head computed by move: one unit away in the given heading, on
      one axis only. A character that is no heading leaves the point where it
      is, since the switch has no default branch. */
  function Step(p: Point, heading: char): (r: Point)
    ensures (heading == 'U' || heading == 'D') ==> r.x == p.x && Abs(r.y - p.y) == UNIT_SIZE
    ensures (heading == 'L' || heading == 'R') ==> r.y == p.y && Abs(r.x - p.x) == UNIT_SIZE
    ensures heading == 'U' ==> r.y < p.y
    ensures heading == 'D' ==> r.y > p.y
    ensures heading == 'L' ==> r.x < p.x
    ensures heading == 'R' ==> r.x > p.x
    ensures !IsHeading(heading) ==> r == p
    ensures InBounds(p) ==> NearBoard(r)
  {
    if heading == 'U' then p.(y := p.y - UNIT_SIZE)
    else if heading == 'D' then p.(y := p.y + UNIT_SIZE)
    else if heading == 'L' then p.(x := p.x - UNIT_SIZE)
    else if heading == 'R' then p.(x := p.x + UNIT_SIZE)
    else p
  }

  /** Stepping back in the opposite heading undoes a step. */
  lemma StepThenOppositeReturns(p: Point, heading: char)
    requires IsHeading(heading)
    ensures Step(Step(p, heading), Opposite(heading)) == p
  {
  }

  /** A step keeps a grid-aligned point aligned. */
  lemma StepKeepsAlignment(p: Point, heading: char)
    requires p.x % UNIT_SIZE == 0 && p.y % UNIT_SIZE == 0
    ensures Step(p, heading).x % UNIT_SIZE == 0 && Step(p, heading).y % UNIT_SIZE == 0
  {
    AlignedShift(p.x);
    AlignedShift(p.y);
  }

  /** Moving an aligned coordinate by one unit keeps it aligned. */
  lemma AlignedShift(a: int)
    requires a % UNIT_SIZE == 0
    ensures (a - UNIT_SIZE) % UNIT_SIZE == 0 && (a + UNIT_SIZE) % UNIT_SIZE == 0
  {
    var q := a / 20;
    assert a == 20 * q;
    assert a - 20 == 20 * (q - 1) && a + 20 == 20 * (q + 1);
  }

  /** The snake after move: a new head one step from the old head, prepended,
      and the last cell dropped. */
  function Advance(snake: seq<Point>, heading: char): (r: seq<Point>)
    requires |snake| >= 1
    ensures |r| == |snake|
    ensures r[0] == Step(snake[0], heading)
    ensures forall i :: 1 <= i < |r| ==> r[i] == snake[i - 1]
  {
    var grown := [Step(snake[0], heading)] + snake;
    grown[..|grown| - 1]
  }

  /** The condition under which the collision check ends the game: the head is
      off the board, or equals a cell at index 1 or later. */
  function Collides(snake: seq<Point>): (c: bool)
    requires |snake| >= 1
    ensures |snake| == 1 ==> (c <==> !InBounds(snake[0]))
    ensures InBounds(snake[0]) ==> (c <==> snake[0] in snake[1..])
  {
    !InBounds(snake[0]) || exists i :: 1 <= i < |snake| && snake[i] == snake[0]
  }

  /** Moving left from the top-left corner leaves the board. */
  lemma LeavingTheCornerCollides()
    ensures Advance([Point(0, 0)], 'L') == [Point(-UNIT_SIZE, 0)]
    ensures Collides(Advance([Point(0, 0)], 'L'))
  {
  }

  /** The food cell spawnFood builds from its two random draws. */
  function FoodCell(column: int, row: int): (p: Point)
    requires 0 <= column < COLUMNS && 0 <= row < ROWS
    ensures OnGrid(p)
  {
    Point(column * UNIT_SIZE, row * UNIT_SIZE)
  }

  /** Every grid cell can be drawn as food, so FoodCell covers exactly the grid. */
  lemma OnGridIsFoodCell(p: Point)
    requires OnGrid(p)
    ensures 0 <= p.x / UNIT_SIZE < COLUMNS && 0 <= p.y / UNIT_SIZE < ROWS
    ensures FoodCell(p.x / UNIT_SIZE, p.y / UNIT_SIZE) == p
  {
  }

  /** The heading an arrow key asks for. */
  function KeyHeading(key: Key): (r: char)
    requires !key.OtherKey?
    ensures IsHeading(r)
  {
    match key
    case ArrowUp => 'U'
    case ArrowDown => 'D'
    case ArrowLeft => 'L'
    case ArrowRight => 'R'
  }

  /** A press that keyPressed obeys: an arrow key whose heading is not the
      opposite of the current one. */
  function Accepted(current: char, key: Key): (c: bool)
    ensures c ==> !key.OtherKey?
    ensures !key.OtherKey? && KeyHeading(key) == current ==> c
    ensures IsHeading(current) ==> (c <==> !key.OtherKey? && KeyHeading(key) != Opposite(current))
  {
    !key.OtherKey? && current != Opposite(KeyHeading(key))
  }

  /** The heading after keyPressed: the reversal guard compares with the
      current heading and spells out the opposite character per key. */
  function Steer(current: char, key: Key): (r: char)
    ensures Accepted(current, key) ==> r == KeyHeading(key)
    ensures !Accepted(current, key) ==> r == current
    ensures IsHeading(current) ==> IsHeading(r) && r != Opposite(current)
  {
    match key
    case ArrowLeft => if current != 'R' then 'L' else current
    case ArrowRight => if current != 'L' then 'R' else current
    case ArrowUp => if current != 'D' then 'U' else current
    case ArrowDown => if current != 'U' then 'D' else current
    case OtherKey => current
  }

  /** The heading after a series of presses delivered one after another;
      however many keys are pressed, it stays one of the four. */
  function SteerAll(current: char, keys: seq<Key>): (r: char)
    ensures IsHeading(current) ==> IsHeading(r)
    decreases |keys|
  {
    if keys == [] then current else SteerAll(Steer(current, keys[0]), keys[1..])
  }

  /** One more press acts on the heading the earlier ones left behind. */
  lemma {:induction false} SteerAllAppend(current: char, keys: seq<Key>, key: Key)
    ensures SteerAll(current, keys + [key]) == Steer(SteerAll(current, keys), key)
    decreases |keys|
  {
    if keys == [] {
      assert [key][1..] == [];
    } else {
      assert (keys + [key])[1..] == keys[1..] + [key];
      SteerAllAppend(Steer(current, keys[0]), keys[1..], key);
    }
  }

  /** No press from index `from` on is obeyed at the moment it is made. */
  predicate NoneAcceptedFrom(current: char, keys: seq<Key>, from: int) {
    forall j :: 0 <= from <= j < |keys| ==> !Accepted(SteerAll(current, keys[..j]), keys[j])
  }

  /** Presses that are not obeyed leave the heading alone. */
  lemma {:induction false} IgnoredPressesKeepHeading(current: char, keys: seq<Key>, from: nat)
    requires from <= |keys|
    requires NoneAcceptedFrom(current, keys, from)
    ensures SteerAll(current, keys) == SteerAll(current, keys[..from])
    decreases |keys|
  {
    if from < |keys| {
      var last := |keys| - 1;
      var front := keys[..last];
      assert keys == front + [keys[last]];
      SteerAllAppend(current, front, keys[last]);
      assert !Accepted(SteerAll(current, front), keys[last]);
      forall j | from <= j < |front|
        ensures !Accepted(SteerAll(current, front[..j]), front[j])
      {
        assert front[..j] == keys[..j];
        assert front[j] == keys[j];
      }
      IgnoredPressesKeepHeading(current, front, from);
      assert front[..from] == keys[..from];
    } else {
      assert keys[..from] == keys;
    }
  }

  /** The committed heading is that of the last obeyed press, or the initial
      heading when no press was obeyed. */
  lemma LastAcceptedPressWins(current: char, keys: seq<Key>, i: nat)
    requires i < |keys|
    requires Accepted(SteerAll(current, keys[..i]), keys[i])
    requires NoneAcceptedFrom(current, keys, i + 1)
    ensures SteerAll(current, keys) == KeyHeading(keys[i])
  {
    IgnoredPressesKeepHeading(current, keys, i + 1);
    assert keys[..i + 1] == keys[..i] + [keys[i]];
    SteerAllAppend(current, keys[..i], keys[i]);
  }

  lemma NoAcceptedPressKeepsHeading(current: char, keys: seq<Key>)
    requires NoneAcceptedFrom(current, keys, 0)
    ensures SteerAll(current, keys) == current
  {
    IgnoredPressesKeepHeading(current, keys, 0);
    assert keys[..0] == [];
  }

  /** The guard looks only at the current heading, so two presses between
      ticks can turn the snake around: right, then up, then left. */
  lemma TwoPressesCanReverse()
    ensures SteerAll('R', [ArrowUp, ArrowLeft]) == Opposite('R')
  {
  }

  /** A draw of nextInt(WIDTH / UNIT_SIZE), and one of nextInt(HEIGHT / UNIT_SIZE). */
  type ColumnDraw = c: int | 0 <= c < COLUMNS
  type RowDraw = r: int | 0 <= r < ROWS

  /** What happens between two ticks: the key presses that arrive, and the two
      numbers the random generator would give if this tick spawns food. */
  datatype Turn = Turn(presses: seq<Key>, column: ColumnDraw, row: RowDraw)
}
