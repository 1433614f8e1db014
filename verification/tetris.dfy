/** The falling-block game of 01xTetirs/src/main.cpp as state updated in
 *  place: the board `field`, the live piece `curr`, its saved copy `prev`
 *  and the per-frame `State`. Each step of the main loop is a method proved
 *  against the value-level rules of module TetrisRules. */
module Tetris {
  import opened TetrisRules

  /** The frame-transient input (horizontal delta, rotate request) and the
   *  colour of the live piece. The float timer and delay are not modelled:
   *  whether gravity is due is an input of each frame. */
  class State {
    var dx: int
    var rotate: bool
    var colorNum: int

    constructor ()
      ensures dx == 0 && !rotate && colorNum == 1
    {
      dx := 0;
      rotate := false;
      colorNum := 1;
    }

    /** Back to neutral input; the colour persists across frames. */
    method Reset()
      modifies this
      ensures dx == 0 && !rotate && colorNum == old(colorNum)
    {
      dx := 0;
      rotate := false;
    }
  }

  class Game {
    const field: array2<int>
    const curr: array<Point>
    const prev: array<Point>
    const state: State
    /** The contents of `field`, row by row. */
    ghost var board: Board

    /** `field` has the board's dimensions and `board` mirrors it. */
    ghost predicate Mirror()
      reads this, field
    {
      field.Length0 == M && field.Length1 == N && WellShaped(board) &&
      forall r, c :: 0 <= r < M && 0 <= c < N ==> field[r, c] == board[r][c]
    }

    ghost predicate Shaped()
      reads this, field, curr, prev
    {
      Mirror() && curr.Length == POINTS && prev.Length == POINTS && curr != prev
    }

    ghost function Snap(): Snapshot
      reads this, curr, prev, state
    {
      Snapshot(board, curr[..], prev[..], state.colorNum)
    }

    ghost predicate Valid()
      reads this, field, curr, prev, state
    {
      Shaped() && Inv(Snap())
    }

    /** An empty board, the first piece as four copies of (0, 0) (the arrays
     *  start zeroed), colour 1. */
    constructor ()
      ensures Valid() && fresh(field) && fresh(curr) && fresh(prev) && fresh(state)
      ensures forall r, c :: 0 <= r < M && 0 <= c < N ==> board[r][c] == 0
      ensures curr[..] == [Point(0, 0), Point(0, 0), Point(0, 0), Point(0, 0)]
      ensures prev[..] == curr[..]
      ensures state.dx == 0 && !state.rotate && state.colorNum == 1
    {
      field := new int[M, N]((r, c) => 0);
      curr := new Point[POINTS](i => Point(0, 0));
      prev := new Point[POINTS](i => Point(0, 0));
      state := new State();
      board := seq(M, r => seq(N, c => 0));
    }

    /** The validity test of the live piece against the board. */
    predicate Check()
      reads this, field, curr, prev
      requires Shaped()
      ensures Check() <==> Fits(board, curr[..])
    {
      !exists i :: 0 <= i < POINTS &&
        (curr[i].x < 0 || curr[i].x >= N || curr[i].y >= M ||
         (0 <= curr[i].y && field[curr[i].y, curr[i].x] != 0))
    }

    /** Saves the piece, shifts it by `state.dx` and rolls back when the
     *  shifted piece does not fit. */
    method Shift()
      requires Valid()
      modifies curr, prev
      ensures Valid()
      ensures Snap() == ShiftPhase(old(Snap()), state.dx)
    {
      for i := 0 to POINTS
        invariant forall j :: 0 <= j < i ==>
          prev[j] == old(curr[j]) && curr[j] == Point(old(curr[j]).x + state.dx, old(curr[j]).y)
        invariant forall j :: i <= j < POINTS ==> curr[j] == old(curr[j])
      {
        prev[i] := curr[i];
        curr[i] := curr[i].(x := curr[i].x + state.dx);
      }
      assert curr[..] == Shifted(old(curr[..]), state.dx);
      FitsWithinWalls(board, curr[..]);
      if !Check() {
        ghost var saved := prev[..];
        for i := 0 to POINTS
          invariant prev[..] == saved
          invariant forall j :: 0 <= j < i ==> curr[j] == prev[j]
        {
          curr[i] := prev[i];
        }
      }
    }

    /** When `state.rotate` is set, turns the piece a quarter about
     *  `curr[CENTER_INDEX]` and, when the turned piece does not fit,
     *  restores the saved copy `prev`. */
    method Rotate()
      requires Valid() && WithinWalls(prev[..])
      modifies curr
      ensures Valid()
      ensures Snap() == RotatePhase(old(Snap()), state.rotate)
    {
      if state.rotate {
        for i := 0 to POINTS
          invariant curr[CENTER_INDEX] == old(curr[CENTER_INDEX])
          invariant forall j :: 0 <= j < i ==> curr[j] == RotatePoint(old(curr[j]), old(curr[CENTER_INDEX]))
          invariant forall j :: i <= j < POINTS ==> curr[j] == old(curr[j])
        {
          // the pivot is bound by reference, so it is read afresh at every cell
          var cx, cy := curr[CENTER_INDEX].x, curr[CENTER_INDEX].y;
          var rx := curr[i].y - cy;
          var ry := curr[i].x - cx;
          curr[i] := Point(cx - rx, cy + ry);
        }
        assert curr[..] == Rotated(old(curr[..]));
        FitsWithinWalls(board, curr[..]);
        if !Check() {
          for i := 0 to POINTS
            invariant forall j :: 0 <= j < i ==> curr[j] == prev[j]
          {
            curr[i] := prev[i];
          }
          assert curr[..] == prev[..];
        }
      }
    }

    /** When gravity is due: saves and lowers the piece; when the lowered
     *  piece does not fit, writes the saved cells into the board with the
     *  current colour, takes the drawn colour and spawns the drawn shape. */
    method Fall(gravityDue: bool, color: int, shape: int)
      requires Valid() && 1 <= color <= COLOR_NUM && 0 <= shape < TYPE_NUM
      modifies curr, prev, field, this`board, state`colorNum
      ensures Valid()
      ensures Snap() == FallPhase(old(Snap()), gravityDue, color, shape)
    {
      if gravityDue {
        for i := 0 to POINTS
          invariant forall j :: 0 <= j < i ==>
            prev[j] == old(curr[j]) && curr[j] == Point(old(curr[j]).x, old(curr[j]).y + 1)
          invariant forall j :: i <= j < POINTS ==> curr[j] == old(curr[j])
          invariant Mirror() && board == old(board) && state.colorNum == old(state.colorNum)
        {
          prev[i] := curr[i];
          curr[i] := curr[i].(y := curr[i].y + 1);
        }
        assert curr[..] == Lowered(old(curr[..]));
        assert prev[..] == old(curr[..]);
        FitsWithinWalls(board, curr[..]);
        if !Check() {
          Lock();
          state.colorNum := color;
          Respawn(shape);
        }
      }
      assert Snap() == FallPhase(old(Snap()), gravityDue, color, shape);
      FallKeepsInv(old(Snap()), gravityDue, color, shape);
    }

    /** Writes the colour of the live piece into the board at every saved
     *  cell, overwriting what was there. */
    method Lock()
      requires Shaped() && WithinWalls(prev[..])
      modifies field, this`board
      ensures Mirror()
      ensures board == Locked(old(board), prev[..], state.colorNum)
    {
      for i := 0 to POINTS
        invariant Mirror()
        invariant board == Locked(old(board), prev[..i], state.colorNum)
      {
        var p := prev[i];
        if 0 <= p.y {
          field[p.y, p.x] := state.colorNum;
          board := board[p.y := board[p.y][p.x := state.colorNum]];
        }
        assert prev[..i + 1][..i] == prev[..i];
      }
      assert prev[..POINTS] == prev[..];
    }

    /** Places piece `shape` of the shape table as the live piece. */
    method Respawn(shape: int)
      requires curr.Length == POINTS && 0 <= shape < TYPE_NUM
      modifies curr
      ensures curr[..] == Spawn(shape)
    {
      for i := 0 to POINTS
        invariant forall j :: 0 <= j < i ==> curr[j] == Spawn(shape)[j]
      {
        curr[i] := Point(FIGURES[shape][i] % 2, FIGURES[shape][i] / 2);
      }
    }

    /** The single compaction pass: rows M-1 down to 1 are copied onto the
     *  write cursor `k`, which moves up past every row that is not full. */
    method ClearLines()
      requires Valid()
      modifies field, this`board
      ensures Valid()
      ensures Snap() == ClearPhase(old(Snap()))
    {
      ghost var g := board;
      SweptStart(g);
      var k := M - 1;
      var i := M - 1;
      while i > 0
        invariant 0 <= i
        invariant Mirror() && Swept(g, board, i, k)
      {
        ghost var b := board;
        SweptStep(g, b, i, k);
        var count := CopyRow(i, k);
        assert count < N <==> !Full(b[i]);
        if count < N {
          k := k - 1;
        }
        i := i - 1;
      }
      assert i == 0;
      SweptEnd(g, board, k);
      CompactedCellsInRange(g);
    }

    /** Copies row `i` onto row `k` cell by cell, counting the non-empty
     *  cells of row `i`. */
    method CopyRow(i: int, k: int) returns (count: int)
      requires Mirror() && 0 <= i <= k < M
      modifies field, this`board
      ensures Mirror()
      ensures count == Count(old(board)[i])
      ensures board == old(board)[k := old(board)[i]]
    {
      ghost var h := board;
      count := 0;
      for j := 0 to N
        invariant Mirror()
        invariant count == Count(h[i][..j])
        invariant forall row :: 0 <= row < M && row != k ==> board[row] == h[row]
        invariant forall c :: 0 <= c < j ==> board[k][c] == h[i][c]
        invariant forall c :: j <= c < N ==> board[k][c] == h[k][c]
      {
        assert field[i, j] == h[i][j];
        if field[i, j] != 0 {
          count := count + 1;
        }
        assert h[i][..j + 1][..j] == h[i][..j];
        field[k, j] := field[i, j];
        board := board[k := board[k][j := h[i][j]]];
      }
      assert board[k] == h[i];
      assert h[i][..N] == h[i];
    }

    /** One iteration of the main loop: the input recorded in `state`, the
     *  move, the rotation, gravity with lock and respawn, the compaction
     *  and the reset of the transient input. `color` and `shape` are the
     *  values the random draws would give if the piece locks. */
    method Frame(dx: int, rotate: bool, gravityDue: bool, color: int, shape: int)
      requires Valid()
      requires -1 <= dx <= 1 && 1 <= color <= COLOR_NUM && 0 <= shape < TYPE_NUM
      modifies curr, prev, field, this`board, state
      ensures Valid()
      ensures Snap() == FrameStep(old(Snap()), dx, rotate, gravityDue, color, shape)
      ensures state.dx == 0 && !state.rotate
    {
      state.dx, state.rotate := dx, rotate;
      Shift();
      Rotate();
      Fall(gravityDue, color, shape);
      ClearLines();
      state.Reset();
    }
  }
}
