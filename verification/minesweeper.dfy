/** The minesweeper game of 05xMinesweeper/src/main.cpp: a 12 x 12 board
 *  whose 10 x 10 interior is played, with a one-cell border that only holds
 *  bombs or empty cells, and a mask of what the player sees. The random bomb
 *  layout is an input of `Setup`. */
module Minesweeper {

  const MATRIX_SIZE := 10
  const SAFE_MATRIX_SIZE := MATRIX_SIZE + 2
  const BLOCK_SIZE := 32    // pixels per cell

  // the values of the block type: 0..8 neighbour counts, then these
  const EMPTY := 0
  const BOMB := 9
  const MASK := 10
  const FLAG := 11

  datatype Point = Point(x: int, y: int)

  /** Where the random draws put a bomb, for all 12 x 12 cells. */
  type Layout = seq<seq<bool>>

  predicate IsLayout(l: Layout) {
    |l| == SAFE_MATRIX_SIZE && forall i :: 0 <= i < SAFE_MATRIX_SIZE ==> |l[i]| == SAFE_MATRIX_SIZE
  }

  predicate OnBoard(i: int, j: int) {
    0 <= i < SAFE_MATRIX_SIZE && 0 <= j < SAFE_MATRIX_SIZE
  }

  predicate Interior(i: int, j: int) {
    1 <= i <= MATRIX_SIZE && 1 <= j <= MATRIX_SIZE
  }

  function Bomb(l: Layout, i: int, j: int): (b: int)
    requires IsLayout(l) && OnBoard(i, j)
  {
    if l[i][j] then 1 else 0
  }

  /** (r, c) is one of the eight cells around (i, j). */
  predicate Adjacent(i: int, j: int, r: int, c: int) {
    i - 1 <= r <= i + 1 && j - 1 <= c <= j + 1 && (r != i || c != j)
  }

  /** The number of bombs among the eight neighbours of an interior cell,
   *  border cells included. It is 0 exactly when no neighbour holds a bomb
   *  and 8 exactly when all of them do, so it is never BOMB. */
  function NeighbourBombs(l: Layout, i: int, j: int): (n: int)
    requires IsLayout(l) && Interior(i, j)
    ensures 0 <= n <= 8
    ensures n == 0 <==> forall r, c :: Adjacent(i, j, r, c) ==> !l[r][c]
    ensures n == 8 <==> forall r, c :: Adjacent(i, j, r, c) ==> l[r][c]
  {
    Bomb(l, i - 1, j - 1) + Bomb(l, i - 1, j) + Bomb(l, i - 1, j + 1) +
    Bomb(l, i, j - 1) + Bomb(l, i, j + 1) +
    Bomb(l, i + 1, j - 1) + Bomb(l, i + 1, j) + Bomb(l, i + 1, j + 1)
  }

  /** What the first pass of `Setup` writes: a bomb or an empty cell. */
  function Drawn(l: Layout, i: int, j: int): int
    requires IsLayout(l) && OnBoard(i, j)
  {
    if l[i][j] then BOMB else EMPTY
  }

  /** The value of a cell after `Setup`: bombs stay bombs, the border is
   *  otherwise empty and every other interior cell holds its count. */
  function Revealed(l: Layout, i: int, j: int): (v: int)
    requires IsLayout(l) && OnBoard(i, j)
    ensures 0 <= v <= BOMB
    ensures v == BOMB <==> l[i][j]
    ensures !Interior(i, j) ==> v == BOMB || v == EMPTY
  {
    if l[i][j] then BOMB
    else if Interior(i, j) then NeighbourBombs(l, i, j)
    else EMPTY
  }

  /** The cell of a pixel coordinate. */
  function CellOf(p: int): (c: int)
    requires 0 <= p < SAFE_MATRIX_SIZE * BLOCK_SIZE
    ensures 0 <= c < SAFE_MATRIX_SIZE && c * BLOCK_SIZE <= p < (c + 1) * BLOCK_SIZE
  {
    p / BLOCK_SIZE
  }

  class Minesweeper {
    const matrix: array2<int>
    const mask: array2<int>
    var point: Point
    /** The bomb layout of the last setup. */
    ghost var layout: Layout

    ghost predicate Shaped()
      reads this, matrix, mask
    {
      matrix.Length0 == SAFE_MATRIX_SIZE && matrix.Length1 == SAFE_MATRIX_SIZE &&
      mask.Length0 == SAFE_MATRIX_SIZE && mask.Length1 == SAFE_MATRIX_SIZE &&
      matrix != mask
    }

    /** The board is the one `Setup` computes from `layout`, and every mask
     *  cell is covered, flagged or shows the true value of its cell. */
    ghost predicate Valid()
      reads this, matrix, mask
    {
      Shaped() && IsLayout(layout) &&
      (forall i, j :: OnBoard(i, j) ==> matrix[i, j] == Revealed(layout, i, j)) &&
      (forall i, j :: OnBoard(i, j) ==> mask[i, j] == MASK || mask[i, j] == FLAG || mask[i, j] == matrix[i, j])
    }

    constructor (l: Layout)
      requires IsLayout(l)
      ensures Valid() && fresh(matrix) && fresh(mask) && layout == l
      ensures point == Point(0, 0)
      ensures forall i, j :: OnBoard(i, j) ==> mask[i, j] == MASK
    {
      point := Point(0, 0);
      matrix := new int[SAFE_MATRIX_SIZE, SAFE_MATRIX_SIZE];
      mask := new int[SAFE_MATRIX_SIZE, SAFE_MATRIX_SIZE];
      new;
      Setup(l);
    }

    /** Draws the bombs, counts the neighbours of every interior cell that is
     *  not a bomb and covers the whole board. */
    method Setup(l: Layout)
      requires Shaped() && IsLayout(l)
      modifies matrix, mask, this`layout
      ensures Valid() && layout == l
      ensures forall i, j :: OnBoard(i, j) ==> mask[i, j] == MASK
    {
      DrawBombs(l);
      CountNeighbours(l);
      CoverAll();
      layout := l;
    }

    /** The first pass of `Setup`: a bomb where the layout has one, else an
     *  empty cell, on all 12 x 12 cells. */
    method DrawBombs(l: Layout)
      requires Shaped() && IsLayout(l)
      modifies matrix
      ensures forall r, c :: OnBoard(r, c) ==> matrix[r, c] == Drawn(l, r, c)
    {
      for i := 0 to SAFE_MATRIX_SIZE
        invariant forall r, c :: OnBoard(r, c) && r < i ==> matrix[r, c] == Drawn(l, r, c)
      {
        for j := 0 to SAFE_MATRIX_SIZE
          invariant forall r, c :: OnBoard(r, c) && (r < i || (r == i && c < j)) ==> matrix[r, c] == Drawn(l, r, c)
        {
          if l[i][j] {
            matrix[i, j] := BOMB;
          } else {
            matrix[i, j] := EMPTY;
          }
        }
      }
    }

    /** The second pass of `Setup`: each interior cell that is not a bomb
     *  gets the number of bombs around it. The counts are written in place
     *  while later cells still read their neighbours; a count is never BOMB,
     *  so every cell still sees the drawn layout. */
    method CountNeighbours(l: Layout)
      requires Shaped() && IsLayout(l)
      requires forall r, c :: OnBoard(r, c) ==> matrix[r, c] == Drawn(l, r, c)
      modifies matrix
      ensures forall r, c :: OnBoard(r, c) ==> matrix[r, c] == Revealed(l, r, c)
    {
      for i := 1 to MATRIX_SIZE + 1
        invariant forall r, c :: OnBoard(r, c) ==>
          matrix[r, c] == if Interior(r, c) && r < i then Revealed(l, r, c) else Drawn(l, r, c)
      {
        for j := 1 to MATRIX_SIZE + 1
          invariant forall r, c :: OnBoard(r, c) ==>
            matrix[r, c] == if Interior(r, c) && (r < i || (r == i && c < j)) then Revealed(l, r, c) else Drawn(l, r, c)
        {
          assert SeesLayout(l);
          if matrix[i, j] == BOMB {
            continue;
          }
          var count := CountAround(l, i, j);
          matrix[i, j] := count;
        }
      }
    }

    /** Every cell holds BOMB exactly where the layout has a bomb. */
    ghost predicate SeesLayout(l: Layout)
      reads this, matrix, mask
      requires Shaped() && IsLayout(l)
    {
      forall r, c :: OnBoard(r, c) ==> (matrix[r, c] == BOMB <==> l[r][c])
    }

    /** The count of BOMB cells around an interior cell. */
    method CountAround(l: Layout, i: int, j: int) returns (count: int)
      requires Shaped() && IsLayout(l) && Interior(i, j) && SeesLayout(l)
      ensures count == NeighbourBombs(l, i, j)
    {
      count := 0;
      if matrix[i - 1, j - 1] == BOMB { count := count + 1; }
      if matrix[i - 1, j] == BOMB { count := count + 1; }
      if matrix[i - 1, j + 1] == BOMB { count := count + 1; }
      if matrix[i, j - 1] == BOMB { count := count + 1; }
      if matrix[i, j + 1] == BOMB { count := count + 1; }
      if matrix[i + 1, j - 1] == BOMB { count := count + 1; }
      if matrix[i + 1, j] == BOMB { count := count + 1; }
      if matrix[i + 1, j + 1] == BOMB { count := count + 1; }
    }

    /** The last pass of `Setup`: every mask cell covered. */
    method CoverAll()
      requires Shaped()
      modifies mask
      ensures forall r, c :: OnBoard(r, c) ==> mask[r, c] == MASK
    {
      for i := 0 to SAFE_MATRIX_SIZE
        invariant forall r, c :: OnBoard(r, c) && r < i ==> mask[r, c] == MASK
      {
        for j := 0 to SAFE_MATRIX_SIZE
          invariant forall r, c :: OnBoard(r, c) && (r < i || (r == i && c < j)) ==> mask[r, c] == MASK
        {
          mask[i, j] := MASK;
        }
      }
    }

    /** A click at pixel (px, py): a flag covers the cell's mask with FLAG; a
     *  reveal on a cell that is not a bomb shows that cell; a reveal on a
     *  bomb shows the whole interior. The board itself never changes. */
    method Click(px: int, py: int, isFlag: bool)
      requires Valid()
      requires 0 <= px < SAFE_MATRIX_SIZE * BLOCK_SIZE && 0 <= py < SAFE_MATRIX_SIZE * BLOCK_SIZE
      modifies mask, this`point
      ensures Valid() && layout == old(layout)
      ensures point == Point(CellOf(px), CellOf(py))
      ensures isFlag ==> forall i, j :: OnBoard(i, j) ==>
        mask[i, j] == if i == point.x && j == point.y then FLAG else old(mask[i, j])
      ensures !isFlag && matrix[point.x, point.y] != BOMB ==> forall i, j :: OnBoard(i, j) ==>
        mask[i, j] == if i == point.x && j == point.y then matrix[i, j] else old(mask[i, j])
      ensures !isFlag && matrix[point.x, point.y] == BOMB ==> forall i, j :: OnBoard(i, j) ==>
        mask[i, j] == if Interior(i, j) then matrix[i, j] else old(mask[i, j])
    {
      var x := px / BLOCK_SIZE;
      var y := py / BLOCK_SIZE;
      point := point.(x := x);
      point := point.(y := y);
      if isFlag {
        mask[x, y] := FLAG;
        return;
      }

      if matrix[x, y] != BOMB {
        mask[x, y] := matrix[x, y];
        return;
      }

      for i := 1 to MATRIX_SIZE + 1
        invariant point == Point(x, y)
        invariant forall r, c :: OnBoard(r, c) ==>
          mask[r, c] == if Interior(r, c) && r < i then matrix[r, c] else old(mask[r, c])
      {
        for j := 1 to MATRIX_SIZE + 1
          invariant point == Point(x, y)
          invariant forall r, c :: OnBoard(r, c) ==>
            mask[r, c] == if Interior(r, c) && (r < i || (r == i && c < j)) then matrix[r, c] else old(mask[r, c])
        {
          mask[i, j] := matrix[i, j];
        }
      }
    }

    /** A new game on a fresh layout. */
    method Reset(l: Layout)
      requires Shaped() && IsLayout(l)
      modifies matrix, mask, this`layout
      ensures Valid() && layout == l
      ensures forall i, j :: OnBoard(i, j) ==> mask[i, j] == MASK
    {
      Setup(l);
    }
  }
}
