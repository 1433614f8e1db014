/** Value-level rules of the falling-block game (01xTetirs/src/main.cpp):
 *  the board, the shape table, the piece transformations, the lock and the
 *  single-pass row compaction, as pure functions, and one frame as their
 *  composition over a snapshot of the game state. */
module TetrisRules {

  const M := 20             // board rows; row 0 is the top
  const N := 10             // board columns
  const POINTS := 4         // cells of a piece
  const CENTER_INDEX := 1   // the cell a rotation turns about
  const COLOR_NUM := 7      // colours are 1..COLOR_NUM
  const TYPE_NUM := 7       // entries of the shape table

  datatype Point = Point(x: int, y: int)

  /** The board by rows: `g[row][column]`, 0 for an empty cell, else a colour. */
  type Board = seq<seq<int>>

  predicate WellShaped(g: Board) {
    |g| == M && forall r :: 0 <= r < M ==> |g[r]| == N
  }

  predicate CellsInRange(g: Board)
    requires WellShaped(g)
  {
    forall r, c :: 0 <= r < M && 0 <= c < N ==> 0 <= g[r][c] <= COLOR_NUM
  }

  /** The shape table I, Z, S, T, L, J, O: each entry is four indices into a
   *  two-column template, cell `k` standing for column `k % 2`, row `k / 2`. */
  const FIGURES: seq<seq<int>> := [
    [1, 3, 5, 7],
    [2, 4, 5, 7],
    [3, 5, 4, 6],
    [3, 5, 4, 7],
    [2, 3, 5, 7],
    [3, 5, 7, 6],
    [2, 3, 4, 5]
  ]

  /** The cells of a freshly spawned piece of type `n`: the decoded shape-table
   *  entry, used as board coordinates without any offset. */
  function Spawn(n: int): (r: seq<Point>)
    requires 0 <= n < TYPE_NUM
    ensures |r| == POINTS
    ensures forall i :: 0 <= i < POINTS ==> 0 <= r[i].x <= 1 && 0 <= r[i].y <= 3
  {
    var code := FIGURES[n];
    assert |code| == POINTS && forall i :: 0 <= i < POINTS ==> 0 <= code[i] < 8;
    seq(POINTS, i requires 0 <= i < POINTS => Point(code[i] % 2, code[i] / 2))
  }

  /** Two decoded entries: the I piece stands in column 1, not column 0, and
   *  the O piece fills columns 0..1 of rows 1..2. */
  lemma SpawnExamples()
    ensures Spawn(0) == [Point(1, 0), Point(1, 1), Point(1, 2), Point(1, 3)]
    ensures Spawn(6) == [Point(0, 1), Point(1, 1), Point(0, 2), Point(1, 2)]
  {
  }

  /** A cell the live piece may occupy: inside the side walls, above the floor
   *  and not on a settled cell. A point above the top row (y < 0) is never
   *  tested against the board, so it counts as free. */
  predicate Free(g: Board, p: Point)
    requires WellShaped(g)
  {
    0 <= p.x < N && p.y < M && (p.y < 0 || g[p.y][p.x] == 0)
  }

  /** The validity test of a piece position. */
  predicate Fits(g: Board, cells: seq<Point>)
    requires WellShaped(g)
  {
    forall i :: 0 <= i < |cells| ==> Free(g, cells[i])
  }

  /** The bounds every live piece keeps: inside the walls, above the floor. */
  predicate WithinWalls(cells: seq<Point>) {
    forall i :: 0 <= i < |cells| ==> 0 <= cells[i].x < N && cells[i].y < M
  }

  lemma FitsWithinWalls(g: Board, cells: seq<Point>)
    requires WellShaped(g)
    ensures Fits(g, cells) ==> WithinWalls(cells)
  {
  }

  function Shifted(cells: seq<Point>, dx: int): (r: seq<Point>)
    ensures |r| == |cells|
  {
    seq(|cells|, i requires 0 <= i < |cells| => Point(cells[i].x + dx, cells[i].y))
  }

  function Lowered(cells: seq<Point>): (r: seq<Point>)
    ensures |r| == |cells|
  {
    seq(|cells|, i requires 0 <= i < |cells| => Point(cells[i].x, cells[i].y + 1))
  }

  /** A quarter turn of `p` about `pivot`. */
  function RotatePoint(p: Point, pivot: Point): Point {
    Point(pivot.x - (p.y - pivot.y), pivot.y + (p.x - pivot.x))
  }

  /** A quarter turn of the whole piece about its cell CENTER_INDEX, which
   *  the turn leaves where it is. */
  function Rotated(cells: seq<Point>): (r: seq<Point>)
    requires |cells| == POINTS
    ensures |r| == POINTS && r[CENTER_INDEX] == cells[CENTER_INDEX]
  {
    seq(POINTS, i requires 0 <= i < POINTS => RotatePoint(cells[i], cells[CENTER_INDEX]))
  }

  /** Four quarter turns bring every cell back where it was. */
  lemma {:induction false} RotatedFourTimes(cells: seq<Point>)
    requires |cells| == POINTS
    ensures Rotated(Rotated(Rotated(Rotated(cells)))) == cells
  {
    var c := cells[CENTER_INDEX];
    var r1 := Rotated(cells);
    var r2 := Rotated(r1);
    var r3 := Rotated(r2);
    var r4 := Rotated(r3);
    forall i | 0 <= i < POINTS
      ensures r4[i] == cells[i]
    {
      assert r1[i] == RotatePoint(cells[i], c);
      assert r2[i] == RotatePoint(r1[i], c);
      assert r3[i] == RotatePoint(r2[i], c);
    }
  }

  /** A quarter turn moves no cell closer to or further from the pivot. */
  lemma RotationKeepsDistance(p: Point, pivot: Point)
    ensures var q := RotatePoint(p, pivot);
      (q.x - pivot.x) * (q.x - pivot.x) + (q.y - pivot.y) * (q.y - pivot.y)
      == (p.x - pivot.x) * (p.x - pivot.x) + (p.y - pivot.y) * (p.y - pivot.y)
  {
  }

  /** The board with `color` written at `p`. The source writes outside the
   *  board for a point above the top row; this model drops that write. */
  function Paint(g: Board, p: Point, color: int): (r: Board)
    requires WellShaped(g) && 0 <= p.x < N && p.y < M
    ensures WellShaped(r)
  {
    if p.y < 0 then g else g[p.y := g[p.y][p.x := color]]
  }

  /** The board after the cells of a piece are written, in order, with `color`. */
  function Locked(g: Board, cells: seq<Point>, color: int): (r: Board)
    requires WellShaped(g) && WithinWalls(cells)
    ensures WellShaped(r)
    ensures forall row, col :: 0 <= row < M && 0 <= col < N ==>
      r[row][col] == if Point(col, row) in cells then color else g[row][col]
    decreases |cells|
  {
    if cells == [] then g
    else
      var last := cells[|cells| - 1];
      var before := Locked(g, cells[..|cells| - 1], color);
      assert forall p :: p in cells <==> p in cells[..|cells| - 1] || p == last;
      Paint(before, last, color)
  }

  /** A row with no empty cell. */
  predicate Full(row: seq<int>) {
    forall j :: 0 <= j < |row| ==> row[j] != 0
  }

  /** The number of non-empty cells of a row, counted left to right; it
   *  reaches the length of the row exactly when the row is full. */
  function Count(row: seq<int>): (n: nat)
    ensures n <= |row|
    ensures n == |row| <==> Full(row)
  {
    if row == [] then 0
    else
      var init := row[..|row| - 1];
      assert forall j :: 0 <= j < |init| ==> init[j] == row[j];
      Count(init) + (if row[|row| - 1] != 0 then 1 else 0)
  }

  /** The rows among `g[lo..hi]` that are not full, top to bottom. */
  function Kept(g: Board, lo: int, hi: int): (r: seq<seq<int>>)
    requires WellShaped(g) && 0 <= lo <= hi <= M
    ensures |r| <= hi - lo
    ensures forall t :: 0 <= t < |r| ==> !Full(r[t]) && |r[t]| == N
    ensures CellsInRange(g) ==>
      forall t, c :: 0 <= t < |r| && 0 <= c < N ==> 0 <= r[t][c] <= COLOR_NUM
    decreases hi - lo
  {
    if lo == hi then []
    else (if Full(g[lo]) then [] else [g[lo]]) + Kept(g, lo + 1, hi)
  }

  /** The number of full rows among rows 1..M-1: the rows the pass scans. */
  function Cleared(g: Board): (f: int)
    requires WellShaped(g)
    ensures 0 <= f <= M - 1
  {
    M - 1 - |Kept(g, 1, M)|
  }

  /** The board after one compaction pass. With `f` full rows among rows
   *  1..M-1, the rows that are not full come to rest, in order, in rows
   *  f+1..M-1; row f holds the old row 1 when that row was full (the last row
   *  copied onto the cursor) and is otherwise untouched, as are rows 0..f-1. */
  function Compacted(g: Board): (r: Board)
    requires WellShaped(g)
    ensures WellShaped(r)
  {
    seq(M, row requires 0 <= row < M => CompactedRow(g, row))
  }

  /** Row `row` of the compacted board. */
  function CompactedRow(g: Board, row: int): (r: seq<int>)
    requires WellShaped(g) && 0 <= row < M
    ensures |r| == N
  {
    var kept := Kept(g, 1, M);
    var f := Cleared(g);
    if row > f then kept[row - f - 1]
    else if row == f && Full(g[1]) then g[1]
    else g[row]
  }


  /** Where the compaction pass stands before it scans row `i` with the
   *  write cursor at `k`: the rows kept so far fill rows k+1..M-1, row `k`
   *  holds the last full row copied onto it (or its own old contents), and
   *  every row above `k` is untouched. */
  ghost predicate Swept(g: Board, b: Board, i: int, k: int)
    requires WellShaped(g)
  {
    WellShaped(b) && 0 <= i <= k <= M - 1 &&
    k == M - 1 - |Kept(g, i + 1, M)| &&
    (forall row :: k < row < M ==> b[row] == Kept(g, i + 1, M)[row - k - 1]) &&
    (forall row :: 0 <= row < k ==> b[row] == g[row]) &&
    b[k] == (if i + 1 < M && Full(g[i + 1]) then g[i + 1] else g[k])
  }

  lemma SweptStart(g: Board)
    requires WellShaped(g)
    ensures Swept(g, g, M - 1, M - 1)
  {
  }

  /** One step of the pass: row `i` still holds its old contents when it is
   *  read; it is copied onto the cursor, which moves up unless the row was full. */
  lemma SweptStep(g: Board, b: Board, i: int, k: int)
    requires WellShaped(g) && Swept(g, b, i, k) && i > 0
    ensures b[i] == g[i]
    ensures Swept(g, b[k := b[i]], i - 1, if Full(b[i]) then k else k - 1)
  {
    if i + 1 < M && Full(g[i + 1]) {
      KeptDropsFull(g, i + 1, M);
    }
    assert b[i] == g[i];
    if Full(g[i]) {
      SweptSkip(g, b, i, k);
    } else {
      SweptKeep(g, b, i, k);
    }
  }

  /** A full row is copied onto the cursor, which stays where it is. */
  lemma SweptSkip(g: Board, b: Board, i: int, k: int)
    requires WellShaped(g) && Swept(g, b, i, k) && i > 0 && b[i] == g[i] && Full(g[i])
    ensures Swept(g, b[k := g[i]], i - 1, k)
  {
    assert Kept(g, i, M) == Kept(g, i + 1, M);
  }

  /** A row that is not full is copied onto the cursor, which moves up. */
  lemma SweptKeep(g: Board, b: Board, i: int, k: int)
    requires WellShaped(g) && Swept(g, b, i, k) && i > 0 && b[i] == g[i] && !Full(g[i])
    ensures Swept(g, b[k := g[i]], i - 1, k - 1)
  {
    var b' := b[k := g[i]];
    var rest := Kept(g, i + 1, M);
    var kept := Kept(g, i, M);
    assert kept == [g[i]] + rest;
    forall row | k - 1 < row < M
      ensures b'[row] == kept[row - k]
    {
      if row > k {
        assert kept[row - k] == rest[row - k - 1];
      }
    }
  }

  /** When the scan is done the board is the compacted one. */
  lemma SweptEnd(g: Board, b: Board, k: int)
    requires WellShaped(g) && Swept(g, b, 0, k)
    ensures b == Compacted(g)
  {
    var r := Compacted(g);
    assert k == Cleared(g);
    forall row | 0 <= row < M
      ensures b[row] == r[row]
    {
      assert r[row] == CompactedRow(g, row);
    }
  }

  lemma {:induction false} KeptAll(g: Board, lo: int, hi: int)
    requires WellShaped(g) && 0 <= lo <= hi <= M
    requires forall r :: lo <= r < hi ==> !Full(g[r])
    ensures Kept(g, lo, hi) == g[lo..hi]
    decreases hi - lo
  {
    if lo < hi {
      KeptAll(g, lo + 1, hi);
      assert g[lo..hi] == [g[lo]] + g[lo + 1..hi];
    }
  }

  lemma KeptDropsFull(g: Board, lo: int, hi: int)
    requires WellShaped(g) && 0 <= lo < hi <= M && Full(g[lo])
    ensures |Kept(g, lo, hi)| < hi - lo
  {
  }

  /** A pass over a board with no full row among rows 1..M-1 changes nothing. */
  lemma CompactedWithoutFullRows(g: Board)
    requires WellShaped(g)
    requires forall r :: 1 <= r < M ==> !Full(g[r])
    ensures Compacted(g) == g
  {
    KeptAll(g, 1, M);
    var r := Compacted(g);
    forall row | 0 <= row < M
      ensures r[row] == g[row]
    {
    }
  }

  /** The pass never writes row 0. */
  lemma CompactedKeepsTopRow(g: Board)
    requires WellShaped(g)
    ensures Compacted(g)[0] == g[0]
  {
    if Full(g[1]) {
      KeptDropsFull(g, 1, M);
    }
  }

  /** Below the cursor's final position no full row is left. */
  lemma CompactedLeavesNoFullRowBelow(g: Board)
    requires WellShaped(g)
    ensures forall row :: Cleared(g) < row < M ==> !Full(Compacted(g)[row])
  {
  }

  /** Every row of the result is a row of the input, so settled colours stay
   *  in range. */
  lemma CompactedCellsInRange(g: Board)
    requires WellShaped(g) && CellsInRange(g)
    ensures CellsInRange(Compacted(g))
  {
  }

  /** The game state a frame reads and writes: the board, the live piece,
   *  its saved copy and the colour of the live piece. */
  datatype Snapshot = Snapshot(board: Board, curr: seq<Point>, prev: seq<Point>, colorNum: int)

  /** What holds between frames. */
  predicate Inv(s: Snapshot) {
    WellShaped(s.board) && CellsInRange(s.board) &&
    |s.curr| == POINTS && |s.prev| == POINTS &&
    WithinWalls(s.curr) && 1 <= s.colorNum <= COLOR_NUM
  }

  /** Horizontal move: save the piece, shift it, roll back when it does not fit. */
  function ShiftPhase(s: Snapshot, dx: int): Snapshot
    requires WellShaped(s.board)
  {
    var moved := Shifted(s.curr, dx);
    s.(curr := if Fits(s.board, moved) then moved else s.curr, prev := s.curr)
  }

  /** Rotation: turn the piece, and when it does not fit restore the SAVED
   *  copy, which predates this frame's horizontal move. */
  function RotatePhase(s: Snapshot, rotate: bool): Snapshot
    requires WellShaped(s.board) && |s.curr| == POINTS
  {
    if !rotate then s
    else
      var turned := Rotated(s.curr);
      s.(curr := if Fits(s.board, turned) then turned else s.prev)
  }

  /** Gravity: lower the piece by one row; when it does not fit, lock the
   *  saved (unlowered) cells into the board with the current colour and
   *  spawn piece `shape` with colour `color`. */
  function FallPhase(s: Snapshot, gravityDue: bool, color: int, shape: int): Snapshot
    requires WellShaped(s.board) && WithinWalls(s.curr) && 0 <= shape < TYPE_NUM
  {
    if !gravityDue then s
    else
      var lowered := Lowered(s.curr);
      if Fits(s.board, lowered) then s.(curr := lowered, prev := s.curr)
      else Snapshot(Locked(s.board, s.curr, s.colorNum), Spawn(shape), s.curr, color)
  }

  function ClearPhase(s: Snapshot): Snapshot
    requires WellShaped(s.board)
  {
    s.(board := Compacted(s.board))
  }

  /** One frame: move, rotate, gravity (with lock and respawn), compaction. */
  function FrameStep(s: Snapshot, dx: int, rotate: bool, gravityDue: bool, color: int, shape: int): Snapshot
    requires Inv(s) && 0 <= shape < TYPE_NUM
  {
    var s1 := ShiftPhase(s, dx);
    FitsWithinWalls(s.board, Shifted(s.curr, dx));
    var s2 := RotatePhase(s1, rotate);
    FitsWithinWalls(s.board, Rotated(s1.curr));
    ClearPhase(FallPhase(s2, gravityDue, color, shape))
  }

  /** A rejected horizontal move leaves the piece as it was. */
  lemma RejectedShiftKeepsPiece(s: Snapshot, dx: int)
    requires WellShaped(s.board) && !Fits(s.board, Shifted(s.curr, dx))
    ensures ShiftPhase(s, dx).curr == s.curr && ShiftPhase(s, dx).board == s.board
  {
  }

  /** A rejected rotation restores the piece as it was at the start of the
   *  frame, undoing a horizontal move accepted in the same frame. */
  lemma RejectedRotationUndoesShift(s: Snapshot, dx: int)
    requires Inv(s)
    requires !Fits(s.board, Rotated(ShiftPhase(s, dx).curr))
    ensures RotatePhase(ShiftPhase(s, dx), true).curr == s.curr
  {
  }

  /** An accepted gravity step lowers every cell by one row, keeps its column
   *  and leaves the board alone. */
  lemma GravityLowers(s: Snapshot, color: int, shape: int)
    requires Inv(s) && 0 <= shape < TYPE_NUM
    requires Fits(s.board, Lowered(s.curr))
    ensures var t := FallPhase(s, true, color, shape);
      t.board == s.board && |t.curr| == POINTS &&
      forall i :: 0 <= i < POINTS ==> t.curr[i].x == s.curr[i].x && t.curr[i].y == s.curr[i].y + 1
  {
  }

  /** A lock writes the colour into exactly the piece's cells on the board,
   *  overwriting whatever was there, and spawns the new piece at the top. */
  lemma LockWritesPiece(s: Snapshot, color: int, shape: int)
    requires Inv(s) && 0 <= shape < TYPE_NUM
    requires !Fits(s.board, Lowered(s.curr))
    ensures var t := FallPhase(s, true, color, shape);
      t.colorNum == color && t.curr == Spawn(shape) && t.prev == s.curr &&
      WellShaped(t.board) &&
      forall row, col :: 0 <= row < M && 0 <= col < N ==>
        t.board[row][col] == if Point(col, row) in s.curr then s.colorNum else s.board[row][col]
  {
  }

  /** Gravity keeps the invariant: a lowered piece that fits is within the
   *  walls, a lock writes a colour in 1..7 and the spawned piece sits in
   *  columns 0..1. */
  lemma FallKeepsInv(s: Snapshot, gravityDue: bool, color: int, shape: int)
    requires Inv(s) && 1 <= color <= COLOR_NUM && 0 <= shape < TYPE_NUM
    ensures Inv(FallPhase(s, gravityDue, color, shape))
  {
    FitsWithinWalls(s.board, Lowered(s.curr));
  }

  /** A frame keeps the invariant, provided the drawn colour and shape are in range. */
  lemma {:induction false} FrameKeepsInv(s: Snapshot, dx: int, rotate: bool, gravityDue: bool, color: int, shape: int)
    requires Inv(s) && 1 <= color <= COLOR_NUM && 0 <= shape < TYPE_NUM
    ensures Inv(FrameStep(s, dx, rotate, gravityDue, color, shape))
  {
    var s1 := ShiftPhase(s, dx);
    FitsWithinWalls(s.board, Shifted(s.curr, dx));
    var s2 := RotatePhase(s1, rotate);
    FitsWithinWalls(s.board, Rotated(s1.curr));
    var s3 := FallPhase(s2, gravityDue, color, shape);
    FallKeepsInv(s2, gravityDue, color, shape);
    CompactedCellsInRange(s3.board);
  }
}
