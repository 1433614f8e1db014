/** The sliding puzzle of 06xFifteen-Puzzle/src/main.cpp: a 6 x 6 matrix
 *  whose 4 x 4 interior holds the numbers 1..16, 16 standing for the empty
 *  cell, inside a border of zeros. The shuffled numbers are an input of
 *  `Setup`; sprites, animation and the success message are not modelled. */
module FifteenPuzzle {

  const BLOCK_SIZE := 64    // pixels per cell
  const MATRIX_SIZE := 4
  const SIDE := MATRIX_SIZE + 2
  const TILES := MATRIX_SIZE * MATRIX_SIZE
  const EMPTY := 16

  datatype Point = Point(x: int, y: int)

  /** A 6 x 6 matrix as rows of values. */
  type Grid = seq<seq<int>>

  predicate IsGrid(g: Grid) {
    |g| == SIDE && forall i :: 0 <= i < SIDE ==> |g[i]| == SIDE
  }

  predicate Interior(i: int, j: int) {
    1 <= i <= MATRIX_SIZE && 1 <= j <= MATRIX_SIZE
  }

  /** The row-major position of an interior cell. */
  function Index(i: int, j: int): (t: int)
    requires Interior(i, j)
    ensures 0 <= t < TILES
  {
    (i - 1) * MATRIX_SIZE + (j - 1)
  }

  /** The row of position t. */
  function Row(t: int): (i: int)
    requires 0 <= t < TILES
    ensures 1 <= i <= MATRIX_SIZE
  {
    1 + t / MATRIX_SIZE
  }

  /** The column of position t. */
  function Col(t: int): (j: int)
    requires 0 <= t < TILES
    ensures 1 <= j <= MATRIX_SIZE
  {
    1 + t % MATRIX_SIZE
  }

  /** Row and column recover a cell from its position ... */
  lemma IndexRoundTrip(i: int, j: int)
    requires Interior(i, j)
    ensures Row(Index(i, j)) == i && Col(Index(i, j)) == j
  {
  }

  /** ... and a position from its cell. */
  lemma IndexOnto(t: int)
    requires 0 <= t < TILES
    ensures Index(Row(t), Col(t)) == t
  {
  }

  /** The interior in row-major order. */
  function TilesOf(g: Grid): (s: seq<int>)
    requires IsGrid(g)
    ensures |s| == TILES
  {
    seq(TILES, t requires 0 <= t < TILES => g[Row(t)][Col(t)])
  }

  /** Entry `Index(i, j)` of the tiles is cell (i, j). */
  lemma TileAt(g: Grid, i: int, j: int)
    requires IsGrid(g) && Interior(i, j)
    ensures TilesOf(g)[Index(i, j)] == g[i][j]
  {
    IndexRoundTrip(i, j);
  }

  /** The numbers 1..16 in order: the solved puzzle. */
  function Ordered(): (s: seq<int>)
    ensures |s| == TILES && forall t :: 0 <= t < TILES ==> s[t] == t + 1
  {
    seq(TILES, t => t + 1)
  }

  /** Each of 1..16 exactly once. */
  predicate IsPermutation(s: seq<int>) {
    multiset(s) == multiset(Ordered())
  }

  /** Every cell outside the interior holds 0. */
  predicate ZeroBorder(g: Grid)
    requires IsGrid(g)
  {
    forall i, j :: 0 <= i < SIDE && 0 <= j < SIDE && !Interior(i, j) ==> g[i][j] == 0
  }

  /** A playable board: a zero border around a permutation of 1..16. */
  predicate Puzzle(g: Grid) {
    IsGrid(g) && ZeroBorder(g) && IsPermutation(TilesOf(g))
  }

  /** The cell of a pixel coordinate inside the 256 x 256 window. */
  function CellOf(p: int): (c: int)
    requires 0 <= p < MATRIX_SIZE * BLOCK_SIZE
    ensures 1 <= c <= MATRIX_SIZE
    ensures (c - 1) * BLOCK_SIZE <= p < c * BLOCK_SIZE
  {
    p / BLOCK_SIZE + 1
  }

  /** The direction in which tile (x, y) slides: the first empty neighbour
   *  in the order up (y - 1), down (y + 1), left (x - 1), right (x + 1), or
   *  no move when none of the four is empty. */
  function Target(g: Grid, x: int, y: int): (d: Point)
    requires IsGrid(g) && Interior(x, y)
    ensures d == Point(0, 0) || d == Point(0, -1) || d == Point(0, 1) || d == Point(-1, 0) || d == Point(1, 0)
    ensures d != Point(0, 0) ==> g[x + d.x][y + d.y] == EMPTY
    ensures d == Point(0, 0) <==>
      g[x][y - 1] != EMPTY && g[x][y + 1] != EMPTY && g[x - 1][y] != EMPTY && g[x + 1][y] != EMPTY
    ensures d == Point(0, 1) ==> g[x][y - 1] != EMPTY
    ensures d == Point(-1, 0) ==> g[x][y - 1] != EMPTY && g[x][y + 1] != EMPTY
    ensures d == Point(1, 0) ==> g[x][y - 1] != EMPTY && g[x][y + 1] != EMPTY && g[x - 1][y] != EMPTY
  {
    if g[x][y - 1] == EMPTY then Point(0, -1)
    else if g[x][y + 1] == EMPTY then Point(0, 1)
    else if g[x - 1][y] == EMPTY then Point(-1, 0)
    else if g[x + 1][y] == EMPTY then Point(1, 0)
    else Point(0, 0)
  }

  /** The board after a click on (x, y): the clicked cell becomes empty and
   *  its old value is written at the target; with no target both writes hit
   *  the clicked cell and nothing changes. */
  function Slid(g: Grid, x: int, y: int): (r: Grid)
    requires IsGrid(g) && Interior(x, y)
    ensures IsGrid(r)
  {
    var d := Target(g, x, y);
    var block := g[x][y];
    var cleared := g[x := g[x][y := EMPTY]];
    cleared[x + d.x := cleared[x + d.x][y + d.y := block]]
  }

  /** A click exchanges the clicked tile with the empty neighbour it found and
   *  leaves every other cell alone; with no empty neighbour the board is
   *  unchanged. */
  lemma SlidSwaps(g: Grid, x: int, y: int)
    requires IsGrid(g) && Interior(x, y)
    ensures var d := Target(g, x, y); var r := Slid(g, x, y);
      (d == Point(0, 0) ==> r == g) &&
      (d != Point(0, 0) ==>
        r[x][y] == g[x + d.x][y + d.y] && r[x + d.x][y + d.y] == g[x][y] &&
        forall i, j :: 0 <= i < SIDE && 0 <= j < SIDE && (i, j) != (x, y) && (i, j) != (x + d.x, y + d.y) ==>
          r[i][j] == g[i][j])
  {
    var d := Target(g, x, y);
    if d == Point(0, 0) {
      var r := Slid(g, x, y);
      assert forall i :: 0 <= i < SIDE ==> r[i] == g[i];
    }
  }

  /** Exchanging two entries keeps the multiset of a sequence. */
  lemma SwapKeepsMultiset(s: seq<int>, p: int, q: int)
    requires 0 <= p < |s| && 0 <= q < |s|
    ensures multiset(s[p := s[q]][q := s[p]]) == multiset(s)
  {
    if p != q {
      calc {
        multiset(s[p := s[q]][q := s[p]]);
        multiset(s[p := s[q]]) - multiset{s[p := s[q]][q]} + multiset{s[p]};
        multiset(s) - multiset{s[p]} + multiset{s[q]} - multiset{s[q]} + multiset{s[p]};
      }
    }
  }

  /** With a target, the tiles after a click are the tiles before it with
   *  the clicked position and the target position exchanged. */
  lemma SlidTiles(g: Grid, x: int, y: int, tx: int, ty: int)
    requires IsGrid(g) && Interior(x, y) && Interior(tx, ty)
    requires Target(g, x, y) == Point(tx - x, ty - y) && (tx, ty) != (x, y)
    ensures var s := TilesOf(g); var p, q := Index(x, y), Index(tx, ty);
      TilesOf(Slid(g, x, y)) == s[p := s[q]][q := s[p]]
  {
    var s, r := TilesOf(g), Slid(g, x, y);
    var p, q := Index(x, y), Index(tx, ty);
    SlidSwaps(g, x, y);
    IndexRoundTrip(x, y);
    IndexRoundTrip(tx, ty);
    forall t | 0 <= t < TILES
      ensures TilesOf(r)[t] == s[p := s[q]][q := s[p]][t]
    {
      IndexOnto(t);
      var i, j := Row(t), Col(t);
      if t != p && t != q {
        assert (i, j) != (x, y) && (i, j) != (tx, ty);
      }
    }
  }

  /** A click keeps a playable board playable: the border is never empty, so
   *  it is never a target and stays zero, and the interior stays a
   *  permutation of 1..16. */
  lemma SlidKeepsPuzzle(g: Grid, x: int, y: int)
    requires Puzzle(g) && Interior(x, y)
    ensures Puzzle(Slid(g, x, y))
  {
    var d := Target(g, x, y);
    SlidSwaps(g, x, y);
    if d != Point(0, 0) {
      var tx, ty := x + d.x, y + d.y;
      assert Interior(tx, ty);
      SlidTiles(g, x, y, tx, ty);
      SwapKeepsMultiset(TilesOf(g), Index(x, y), Index(tx, ty));
    }
  }

  /** A board whose cell (i, j) holds its row-major position plus one reads
   *  1..16 in order. */
  lemma InOrder(g: Grid)
    requires IsGrid(g)
    requires forall i, j :: Interior(i, j) ==> g[i][j] == Index(i, j) + 1
    ensures TilesOf(g) == Ordered()
  {
    forall t | 0 <= t < TILES
      ensures TilesOf(g)[t] == Ordered()[t]
    {
      IndexOnto(t);
    }
  }

  /** The solved board: 1..16 row-major inside a zero border. */
  function SolvedGrid(): (g: Grid)
    ensures IsGrid(g)
  {
    seq(SIDE, i => seq(SIDE, j => if Interior(i, j) then Index(i, j) + 1 else 0))
  }

  /** The solved board is a playable board whose tiles read 1..16 in order,
   *  so a solved test that never succeeds misses a reachable board. */
  lemma SolvedGridIsPuzzle()
    ensures Puzzle(SolvedGrid()) && TilesOf(SolvedGrid()) == Ordered()
  {
    InOrder(SolvedGrid());
  }

  class FifteenPuzzle {
    const matrix: array2<int>
    /** The contents of `matrix`, row by row. */
    ghost var grid: Grid

    /** `matrix` is 6 x 6 and `grid` mirrors it. */
    ghost predicate Mirror()
      reads this, matrix
    {
      matrix.Length0 == SIDE && matrix.Length1 == SIDE && IsGrid(grid) &&
      forall i, j :: 0 <= i < SIDE && 0 <= j < SIDE ==> matrix[i, j] == grid[i][j]
    }

    ghost predicate Valid()
      reads this, matrix
    {
      Mirror() && Puzzle(grid)
    }

    /** A zeroed 6 x 6 matrix whose interior then receives `numbers`. */
    constructor (numbers: seq<int>)
      requires |numbers| == TILES && IsPermutation(numbers)
      ensures Valid() && fresh(matrix)
      ensures TilesOf(grid) == numbers
    {
      matrix := new int[SIDE, SIDE]((i, j) => 0);
      grid := seq(SIDE, i => seq(SIDE, j => 0));
      new;
      Setup(numbers);
    }

    /** Writes `numbers` row-major into the interior with a running index;
     *  the border keeps its value. */
    method Setup(numbers: seq<int>)
      requires Mirror() && |numbers| == TILES
      modifies matrix, this`grid
      ensures Mirror() && TilesOf(grid) == numbers
      ensures forall i, j :: 0 <= i < SIDE && 0 <= j < SIDE && !Interior(i, j) ==> grid[i][j] == old(grid)[i][j]
    {
      ghost var g := grid;
      var index := 0;
      for i := 1 to MATRIX_SIZE + 1
        invariant Mirror() && index == (i - 1) * MATRIX_SIZE
        invariant forall r, c :: 0 <= r < SIDE && 0 <= c < SIDE ==>
          grid[r][c] == if Interior(r, c) && r < i then numbers[Index(r, c)] else g[r][c]
      {
        for j := 1 to MATRIX_SIZE + 1
          invariant Mirror() && index == (i - 1) * MATRIX_SIZE + (j - 1)
          invariant forall r, c :: 0 <= r < SIDE && 0 <= c < SIDE ==>
            grid[r][c] == if Interior(r, c) && (r < i || (r == i && c < j)) then numbers[Index(r, c)] else g[r][c]
        {
          matrix[i, j] := numbers[index];
          grid := grid[i := grid[i][j := numbers[index]]];
          index := index + 1;
        }
      }
      forall t | 0 <= t < TILES
        ensures TilesOf(grid)[t] == numbers[t]
      {
        IndexOnto(t);
      }
    }

    /** A new shuffle. */
    method Reset(numbers: seq<int>)
      requires Valid() && |numbers| == TILES && IsPermutation(numbers)
      modifies matrix, this`grid
      ensures Valid() && TilesOf(grid) == numbers
    {
      Setup(numbers);
    }

    /** A click at pixel (px, py): the tile there slides into its first empty
     *  neighbour, if any. */
    method Move(px: int, py: int)
      requires Valid()
      requires 0 <= px < MATRIX_SIZE * BLOCK_SIZE && 0 <= py < MATRIX_SIZE * BLOCK_SIZE
      modifies matrix, this`grid
      ensures Valid()
      ensures grid == Slid(old(grid), CellOf(px), CellOf(py))
    {
      ghost var g := grid;
      var x := px / BLOCK_SIZE + 1;
      var y := py / BLOCK_SIZE + 1;

      var dx := 0;
      var dy := 0;
      if matrix[x, y - 1] == EMPTY {
        dx, dy := 0, -1;
      } else if matrix[x, y + 1] == EMPTY {
        dx, dy := 0, 1;
      } else if matrix[x - 1, y] == EMPTY {
        dx, dy := -1, 0;
      } else if matrix[x + 1, y] == EMPTY {
        dx, dy := 1, 0;
      }
      assert Point(dx, dy) == Target(grid, x, y);
      SlidKeepsPuzzle(grid, x, y);

      var block := matrix[x, y];
      matrix[x, y] := EMPTY;
      grid := grid[x := grid[x][y := EMPTY]];
      matrix[x + dx, y + dy] := block;
      grid := grid[x + dx := grid[x + dx][y + dy := block]];
      assert grid == Slid(g, x, y);
      assert Puzzle(grid);
    }

    /** The solved test as written: it walks rows and columns 1..64 in
     *  row-major order and fails at the first cell that does not hold the
     *  running index. Cell (1, 5) is the border, which holds 0 and not 5, so
     *  the walk never gets past it and the test never succeeds. */
    method Check() returns (solved: bool)
      requires Valid()
      ensures !solved
    {
      var index := 0;
      for i := 1 to BLOCK_SIZE + 1
        invariant i == 1 && index == 0
      {
        for j := 1 to BLOCK_SIZE + 1
          invariant i == 1 && j <= MATRIX_SIZE + 1 && index == j - 1
        {
          index := index + 1;
          if matrix[i, j] != index {
            return false;
          }
          assert j != MATRIX_SIZE + 1 by {
            assert !Interior(1, MATRIX_SIZE + 1) && grid[1][MATRIX_SIZE + 1] == 0;
          }
        }
        assert false;
      }
      assert false;
      return true;
    }

    /** The solved test with the interior bounds 1..4: it succeeds exactly
     *  when the tiles read 1..16 in order. */
    method CheckSolved() returns (solved: bool)
      requires Valid()
      ensures solved <==> TilesOf(grid) == Ordered()
    {
      var index := 0;
      for i := 1 to MATRIX_SIZE + 1
        invariant index == (i - 1) * MATRIX_SIZE
        invariant forall r, c :: Interior(r, c) && r < i ==> grid[r][c] == Index(r, c) + 1
      {
        for j := 1 to MATRIX_SIZE + 1
          invariant index == (i - 1) * MATRIX_SIZE + (j - 1)
          invariant forall r, c :: Interior(r, c) && (r < i || (r == i && c < j)) ==> grid[r][c] == Index(r, c) + 1
        {
          index := index + 1;
          if matrix[i, j] != index {
            TileAt(grid, i, j);
            assert TilesOf(grid)[Index(i, j)] != Ordered()[Index(i, j)];
            return false;
          }
        }
      }
      InOrder(grid);
      return true;
    }
  }
}
