/** The snake game of 04xSnake/src/main.cpp: a body vector of fixed
 *  capacity whose first `snakeSize` entries are the live snake, a fruit, and
 *  the four steps of a tick. The random fruit offsets are inputs; the timer
 *  that decides when a tick runs is not modelled. */
module Snake {

  const N := 30            // the head's column wraps within 0..N
  const M := 20            // the head's row wraps within 0..M
  const CAPACITY := 101    // entries of the body vector
  const INT_MAX := 0x7fff_ffff

  datatype Point = Point(x: int, y: int)

  datatype Direction = Up | Down | Left | Right

  /** Where a head may be: the range includes column N and row M. */
  predicate OnField(p: Point) {
    0 <= p.x <= N && 0 <= p.y <= M
  }

  /** One cell in the direction of travel; Up decreases the row. */
  function Step(p: Point, d: Direction): (r: Point)
    ensures (d == Up || d == Down) <==> r.x == p.x
    ensures (d == Left || d == Right) <==> r.y == p.y
    ensures -1 <= r.x - p.x <= 1 && -1 <= r.y - p.y <= 1
    ensures d == Up ==> r.y < p.y
    ensures d == Down ==> r.y > p.y
    ensures d == Left ==> r.x < p.x
    ensures d == Right ==> r.x > p.x
  {
    match d
    case Up => p.(y := p.y - 1)
    case Down => p.(y := p.y + 1)
    case Left => p.(x := p.x - 1)
    case Right => p.(x := p.x + 1)
  }

  /** A coordinate below 0 goes to the far edge, one beyond it to 0. */
  function Wrap(p: Point): (r: Point)
    ensures OnField(r)
    ensures OnField(p) ==> r == p
  {
    var x := if p.x < 0 then N else if p.x > N then 0 else p.x;
    var y := if p.y < 0 then M else if p.y > M then 0 else p.y;
    Point(x, y)
  }

  /** The displacement of a direction. */
  function Delta(d: Direction): Point {
    match d
    case Up => Point(0, -1)
    case Down => Point(0, 1)
    case Left => Point(-1, 0)
    case Right => Point(1, 0)
  }

  /** From a cell of the field, a step followed by the wrap is a step on a
   *  torus of (N+1) x (M+1) cells. */
  lemma StepWrapIsTorusStep(p: Point, d: Direction)
    requires OnField(p)
    ensures Wrap(Step(p, d)) == Point((p.x + Delta(d).x) % (N + 1), (p.y + Delta(d).y) % (M + 1))
  {
  }

  /** The body after every live segment moves one place back: entry i takes
   *  entry i-1 for 1 <= i <= size; the others keep their value. */
  function MovedBody(s: seq<Point>, size: int): (r: seq<Point>)
    requires 1 <= size < |s|
    ensures |r| == |s| && r[0] == s[0]
  {
    seq(|s|, i requires 0 <= i < |s| => if 1 <= i <= size then s[i - 1] else s[i])
  }

  /** After the body moves, the segments behind the head are the old snake. */
  lemma MovedBodyTrailsHead(s: seq<Point>, size: int)
    requires 1 <= size < |s|
    ensures MovedBody(s, size)[1..size + 1] == s[..size]
  {
  }

  /** The fruit's new place from two non-negative random draws. */
  function Relocated(r1: int, r2: int): (f: Point)
    requires 0 <= r1 && 0 <= r2
    ensures 0 <= f.x < N && 0 <= f.y < M
  {
    Point(r1 % N, r2 % M)
  }

  /** The length left by the self-bite scan from index `i`: the first index
   *  in i..size-1 whose segment is on the head, or `size` when there is none. */
  function FirstBite(s: seq<Point>, i: int, size: int): (r: int)
    requires 1 <= i <= size <= |s|
    ensures i <= r <= size
    ensures forall j :: i <= j < r ==> s[j] != s[0]
    ensures r < size ==> s[r] == s[0]
    decreases size - i
  {
    if i == size then size
    else if s[i] == s[0] then i
    else FirstBite(s, i + 1, size)
  }

  /** The game state a tick reads and writes. */
  datatype Snapshot = Snapshot(body: seq<Point>, size: int, fruit: Point)

  predicate Inv(s: Snapshot) {
    |s.body| == CAPACITY && 1 <= s.size <= CAPACITY &&
    (forall i :: 0 <= i < CAPACITY ==> OnField(s.body[i])) && OnField(s.fruit)
  }

  /** One tick: move the body, step the head, eat, bite. */
  function TickStep(s: Snapshot, d: Direction, r1: int, r2: int): Snapshot
    requires Inv(s) && s.size < CAPACITY && 0 <= r1 && 0 <= r2
  {
    var moved := MovedBody(s.body, s.size);
    var body := moved[0 := Wrap(Step(moved[0], d))];
    var eaten := body[0] == s.fruit;
    var size := if eaten then s.size + 1 else s.size;
    var fruit := if eaten then Relocated(r1, r2) else s.fruit;
    Snapshot(body, FirstBite(body, 1, size), fruit)
  }

  /** A tick keeps every segment and the fruit on the field and the length
   *  between 1 and one more than before. */
  lemma TickKeepsInv(s: Snapshot, d: Direction, r1: int, r2: int)
    requires Inv(s) && s.size < CAPACITY && 0 <= r1 && 0 <= r2
    ensures Inv(TickStep(s, d, r1, r2))
    ensures 1 <= TickStep(s, d, r1, r2).size <= s.size + 1
  {
  }

  /** After a tick no live segment behind the head lies on the head. */
  lemma TickLeavesNoBite(s: Snapshot, d: Direction, r1: int, r2: int)
    requires Inv(s) && s.size < CAPACITY && 0 <= r1 && 0 <= r2
    ensures var t := TickStep(s, d, r1, r2);
      forall j :: 1 <= j < t.size ==> t.body[j] != t.body[0]
  {
  }

  /** The snake grows only by eating: a tick that does not reach the fruit
   *  never lengthens it, and one that does not bite keeps its length. */
  lemma TickGrowsOnlyByEating(s: Snapshot, d: Direction, r1: int, r2: int)
    requires Inv(s) && s.size < CAPACITY && 0 <= r1 && 0 <= r2
    ensures var t := TickStep(s, d, r1, r2);
      (t.body[0] != s.fruit ==> t.size <= s.size && t.fruit == s.fruit) &&
      (t.body[0] == s.fruit ==> t.fruit == Relocated(r1, r2))
  {
  }

  class SnakeGame {
    const snakes: array<Point>
    var snakeSize: int
    var fruct: Point
    var direction: Direction

    ghost function Snap(): Snapshot
      reads this, snakes
    {
      Snapshot(snakes[..], snakeSize, fruct)
    }

    ghost predicate Valid()
      reads this, snakes
    {
      snakes.Length == CAPACITY && Inv(Snap())
    }

    /** A snake of four segments, all at (0, 0), heading down, the fruit at (10, 10). */
    constructor ()
      ensures Valid() && fresh(snakes)
      ensures snakeSize == 4 && fruct == Point(10, 10) && direction == Down
      ensures forall i :: 0 <= i < CAPACITY ==> snakes[i] == Point(0, 0)
    {
      snakeSize := 4;
      fruct := Point(10, 10);
      direction := Down;
      snakes := new Point[CAPACITY](i => Point(0, 0));
    }

    /** Steps the head in the current direction, then wraps it onto the field. */
    method MoveHead()
      requires Valid()
      modifies snakes
      ensures Valid()
      ensures snakes[0] == Wrap(Step(old(snakes[0]), direction))
      ensures forall i :: 1 <= i < CAPACITY ==> snakes[i] == old(snakes[i])
    {
      match direction {
        case Up => snakes[0] := snakes[0].(y := snakes[0].y - 1);
        case Down => snakes[0] := snakes[0].(y := snakes[0].y + 1);
        case Left => snakes[0] := snakes[0].(x := snakes[0].x - 1);
        case Right => snakes[0] := snakes[0].(x := snakes[0].x + 1);
      }
      if snakes[0].x < 0 {
        snakes[0] := snakes[0].(x := N);
      } else if snakes[0].x > N {
        snakes[0] := snakes[0].(x := 0);
      }
      if snakes[0].y < 0 {
        snakes[0] := snakes[0].(y := M);
      } else if snakes[0].y > M {
        snakes[0] := snakes[0].(y := 0);
      }
    }

    /** When the head is on the fruit: one segment more, and the fruit moves
     *  to the place the two draws give. */
    method EatFruct(r1: int, r2: int)
      requires Valid() && snakeSize < CAPACITY
      requires 0 <= r1 <= INT_MAX && 0 <= r2 <= INT_MAX
      modifies this`snakeSize, this`fruct
      ensures Valid()
      ensures old(snakes[0] == fruct) ==> snakeSize == old(snakeSize) + 1 && fruct == Relocated(r1, r2)
      ensures old(snakes[0] != fruct) ==> snakeSize == old(snakeSize) && fruct == old(fruct)
    {
      if snakes[0].x == fruct.x && snakes[0].y == fruct.y {
        snakeSize := snakeSize + 1;
        fruct := fruct.(x := r1 % N);
        fruct := fruct.(y := r2 % M);
      }
    }

    /** Moves every live segment one place back, from the tail forwards;
     *  entry `snakeSize` must exist. */
    method MoveBody()
      requires Valid() && snakeSize < CAPACITY
      modifies snakes
      ensures Valid()
      ensures snakes[..] == MovedBody(old(snakes[..]), snakeSize)
    {
      var i := snakeSize;
      while i > 0
        invariant 0 <= i <= snakeSize
        invariant forall j :: i < j <= snakeSize ==> snakes[j] == old(snakes[j - 1])
        invariant forall j :: 0 <= j <= i || snakeSize < j < CAPACITY ==> snakes[j] == old(snakes[j])
      {
        snakes[i] := snakes[i].(x := snakes[i - 1].x);
        snakes[i] := snakes[i].(y := snakes[i - 1].y);
        i := i - 1;
      }
    }

    /** Cuts the snake at the first segment behind the head that lies on the
     *  head, if any. */
    method SelfBite()
      requires Valid()
      modifies this`snakeSize
      ensures Valid()
      ensures snakeSize == FirstBite(snakes[..], 1, old(snakeSize))
    {
      var i := 1;
      while i < snakeSize
        invariant 1 <= i <= snakeSize == old(snakeSize)
        invariant FirstBite(snakes[..], i, snakeSize) == FirstBite(snakes[..], 1, snakeSize)
      {
        var p := snakes[i];
        if snakes[0].x == p.x && snakes[0].y == p.y {
          snakeSize := i;
          break;
        }
        i := i + 1;
      }
    }

    /** One tick of the game. */
    method Tick(r1: int, r2: int)
      requires Valid() && snakeSize < CAPACITY
      requires 0 <= r1 <= INT_MAX && 0 <= r2 <= INT_MAX
      modifies snakes, this`snakeSize, this`fruct
      ensures Valid()
      ensures Snap() == TickStep(old(Snap()), direction, r1, r2)
    {
      MoveBody();
      MoveHead();
      EatFruct(r1, r2);
      SelfBite();
      assert snakes[..] == MovedBody(old(snakes[..]), old(snakeSize))[0 := snakes[0]];
    }
  }
}
