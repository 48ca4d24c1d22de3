/** `solveBoard(tempBoard, row)` of pages/index.js: row by row, try the
    columns in ascending order, crown a cell where `isValidMove` holds,
    recurse, and undo the crown when the rest fails. */
module HomeSolver {
  import opened Grid
  import opened HomeRules

  /** The board `solveBoard` leaves behind when, in row `row`, it has got
      to column `col`; `None` when it returns false from there. No draw is
      made, so the outcome is a function of the board and the regions. */
  ghost function Solve(b: Board, regions: seq<seq<int>>, n: nat, row: nat, col: nat): (result: Option<Board>)
    requires IsGrid(b, n) && IsGrid(regions, n) && col <= n
    ensures result.Some? ==> IsGrid(result.value, n)
    decreases n - row, n - col
  {
    if row >= n then Some(b)
    else if col == n then None
    else if MoveAllowed(n, regions, b, row, col) && Solve(SetCell(b, row, col, true), regions, n, row + 1, 0).Some? then
      Solve(SetCell(b, row, col, true), regions, n, row + 1, 0)
    else Solve(b, regions, n, row, col + 1)
  }

  /** `solveBoard(tempBoard, row)`, with `temp` the board it writes in
      place: it returns true exactly when `Solve` finds a board, leaves that
      board behind, and otherwise leaves the board as it found it. */
  method SolveBoard(temp: BoardBuffer, n: nat, regions: seq<seq<int>>, row: nat) returns (ok: bool)
    requires IsGrid(temp.cells, n) && IsGrid(regions, n)
    modifies temp
    decreases n - row
    ensures ok <==> Solve(old(temp.cells), regions, n, row, 0).Some?
    ensures ok ==> temp.cells == Solve(old(temp.cells), regions, n, row, 0).value
    ensures !ok ==> temp.cells == old(temp.cells)
  {
    if row >= n {
      return true;
    }
    ghost var b := temp.cells;
    for col := 0 to n
      invariant temp.cells == b
      invariant Solve(b, regions, n, row, 0) == Solve(b, regions, n, row, col)
    {
      if IsValidMove(n, regions, temp.cells, row, col) {
        temp.cells := SetCell(temp.cells, row, col, true);
        ok := SolveBoard(temp, n, regions, row + 1);
        if ok {
          TakeColumn(b, regions, n, row, col);
          return;
        }
        SetCellUndo(b, row, col, true);
        temp.cells := SetCell(temp.cells, row, col, false);
      }
      SkipColumn(b, regions, n, row, col);
    }
    ok := false;
  }

  /** `Solve` keeps the first crown that leads to a solved board. */
  lemma TakeColumn(b: Board, regions: seq<seq<int>>, n: nat, row: nat, col: nat)
    requires IsGrid(b, n) && IsGrid(regions, n) && row < n && col < n
    requires MoveAllowed(n, regions, b, row, col) && Solve(SetCell(b, row, col, true), regions, n, row + 1, 0).Some?
    ensures Solve(b, regions, n, row, col) == Solve(SetCell(b, row, col, true), regions, n, row + 1, 0)
  {
  }

  /** Otherwise `Solve` moves on to the next column. */
  lemma SkipColumn(b: Board, regions: seq<seq<int>>, n: nat, row: nat, col: nat)
    requires IsGrid(b, n) && IsGrid(regions, n) && row < n && col < n
    requires !(MoveAllowed(n, regions, b, row, col) && Solve(SetCell(b, row, col, true), regions, n, row + 1, 0).Some?)
    ensures Solve(b, regions, n, row, col) == Solve(b, regions, n, row, col + 1)
  {
  }

  /** Soundness: from a partial placement, a board `Solve` finds is a
      solution. */
  lemma {:induction false} SolveSound(b: Board, regions: seq<seq<int>>, n: nat, row: nat, col: nat)
    requires Partial(b, regions, n, row) && col <= n
    requires Solve(b, regions, n, row, col).Some?
    ensures IsSolution(Solve(b, regions, n, row, col).value, regions, n)
    decreases n - row, n - col, 1
  {
    if row < n && col < n {
      if MoveAllowed(n, regions, b, row, col) && Solve(SetCell(b, row, col, true), regions, n, row + 1, 0).Some? {
        TakeColumn(b, regions, n, row, col);
        PlaceSound(b, regions, n, row, col);
      } else {
        SkipColumn(b, regions, n, row, col);
        SolveSound(b, regions, n, row, col + 1);
      }
    }
  }

  /** The case of `SolveSound` where the crown at (row, col) stays. */
  lemma {:induction false} PlaceSound(b: Board, regions: seq<seq<int>>, n: nat, row: nat, col: nat)
    requires Partial(b, regions, n, row) && row < n && col < n
    requires MoveAllowed(n, regions, b, row, col)
    requires Solve(SetCell(b, row, col, true), regions, n, row + 1, 0).Some?
    ensures IsSolution(Solve(SetCell(b, row, col, true), regions, n, row + 1, 0).value, regions, n)
    decreases n - row, n - col, 0
  {
    PlaceExtends(b, regions, n, row, col);
    SolveSound(SetCell(b, row, col, true), regions, n, row + 1, 0);
  }

  /** A row with a crown has a crowned cell. */
  lemma {:induction false} CrownInRow(x: seq<bool>)
    requires RowCount(x, true) > 0
    ensures exists c :: 0 <= c < |x| && x[c]
  {
    var last := |x| - 1;
    if !x[last] {
      CrownInRow(x[..last]);
      var c :| 0 <= c < last && x[..last][c];
      assert x[c];
    }
  }

  /** A cell crowned in a solution that extends a partial placement may be
      crowned on the placement: nothing in its row, column or region. */
  lemma {:induction false} ValidInSolution(b: Board, regions: seq<seq<int>>, n: nat, row: nat, s: Board, c0: nat)
    requires Partial(b, regions, n, row) && row < n && c0 < n
    requires IsSolution(s, regions, n) && s[row][c0]
    requires forall r :: 0 <= r < row ==> s[r] == b[r]
    ensures MoveAllowed(n, regions, b, row, c0)
  {
    forall r, c | InBounds(n, r, c) && b[r][c]
      ensures r < row && s[r][c] && Compatible(regions, n, r, c, row, c0)
    {
      assert s[r] == b[r];
    }
  }

  /** `s` agrees with `b` on the rows above `row`. */
  ghost predicate Agrees(s: Board, b: Board, row: nat)
    requires row <= |s| && row <= |b|
  {
    forall r :: 0 <= r < row ==> s[r] == b[r]
  }

  /** Row `row` of `s` has its crown at column `col` or later. */
  ghost predicate CrownFrom(s: Board, n: nat, row: nat, col: nat)
    requires IsGrid(s, n) && row < n
  {
    exists c :: col <= c < n && s[row][c]
  }

  /** Crowning the cell of row `row` that the solution crowns is a move
      `isValidMove` allows, and the new placement still agrees with the
      solution, now on one row more. */
  lemma {:induction false} StepToCrown(b: Board, regions: seq<seq<int>>, n: nat, row: nat, s: Board, c0: nat)
    requires Partial(b, regions, n, row) && row < n && c0 < n
    requires IsSolution(s, regions, n) && s[row][c0] && Agrees(s, b, row)
    ensures MoveAllowed(n, regions, b, row, c0)
    ensures Partial(SetCell(b, row, c0, true), regions, n, row + 1)
    ensures Agrees(s, SetCell(b, row, c0, true), row + 1)
    ensures row + 1 < n ==> CrownFrom(s, n, row + 1, 0)
  {
    ValidInSolution(b, regions, n, row, s, c0);
    PlaceExtends(b, regions, n, row, c0);
    var b' := SetCell(b, row, c0, true);
    assert forall c :: 0 <= c < n ==> s[row][c] == b'[row][c];
    assert s[row] == b'[row];
    if row + 1 < n {
      CrownInRow(s[row + 1]);
    }
  }

  /** Completeness: when some solution agrees with the placement above
      `row` and has its crown of row `row` at column `col` or later, `Solve`
      finds a board. */
  lemma {:induction false} SolveComplete(b: Board, regions: seq<seq<int>>, n: nat, row: nat, col: nat, s: Board)
    requires Partial(b, regions, n, row) && col <= n
    requires IsSolution(s, regions, n) && Agrees(s, b, row)
    requires row < n ==> CrownFrom(s, n, row, col)
    ensures Solve(b, regions, n, row, col).Some?
    decreases n - row, n - col, 1
  {
    if row < n {
      var c0 :| col <= c0 < n && s[row][c0];
      if col == c0 {
        CrownComplete(b, regions, n, row, s, c0);
      } else if MoveAllowed(n, regions, b, row, col) && Solve(SetCell(b, row, col, true), regions, n, row + 1, 0).Some? {
        TakeColumn(b, regions, n, row, col);
      } else {
        SkipColumn(b, regions, n, row, col);
        SolveComplete(b, regions, n, row, col + 1, s);
      }
    }
  }

  /** The case of `SolveComplete` at the column the solution crowns. */
  lemma {:induction false} CrownComplete(b: Board, regions: seq<seq<int>>, n: nat, row: nat, s: Board, c0: nat)
    requires Partial(b, regions, n, row) && row < n && c0 < n
    requires IsSolution(s, regions, n) && s[row][c0] && Agrees(s, b, row)
    ensures Solve(b, regions, n, row, c0).Some?
    decreases n - row, n - c0, 0
  {
    StepToCrown(b, regions, n, row, s, c0);
    SolveComplete(SetCell(b, row, c0, true), regions, n, row + 1, 0, s);
  }

  /** On the empty board `generatePuzzle` passes, `solveBoard` succeeds
      exactly when the region map has a solution, and what it leaves behind
      is one. */
  lemma {:induction false} SolvesEmptyBoard(regions: seq<seq<int>>, n: nat)
    requires IsGrid(regions, n)
    ensures Solve(Fill(n, false), regions, n, 0, 0).Some? <==> exists s :: IsSolution(s, regions, n)
    ensures Solve(Fill(n, false), regions, n, 0, 0).Some? ==> IsSolution(Solve(Fill(n, false), regions, n, 0, 0).value, regions, n)
  {
    var e := Fill(n, false);
    EmptyIsPartial(regions, n);
    if Solve(e, regions, n, 0, 0).Some? {
      SolveSound(e, regions, n, 0, 0);
    }
    if exists s :: IsSolution(s, regions, n) {
      var s :| IsSolution(s, regions, n);
      if 0 < n {
        CrownInRow(s[0]);
      }
      SolveComplete(e, regions, n, 0, 0, s);
    }
  }
}
