/** The read-only checks of script.js: `isValidMove` (column, region and
    8-neighbour exclusion; the row is not checked) and `boardsEqual`. The
    globals `boardSize` and `regionMap` are the parameters `n` and `regions`. */
module ScriptRules {
  import opened Grid

  /** Scan of the cells (row + dr, col - 1 + d) for d < k that lie on the
      board and are not (row, col) itself. */
  function RingRowFree(b: Board, n: nat, row: nat, col: nat, dr: int, k: nat): (free: bool)
    requires IsGrid(b, n) && row < n && col < n && -1 <= dr <= 1 && k <= 3
    ensures free <==> forall r, c ::
                        (InBounds(n, r, c) && r == row + dr && col - 1 <= c < col - 1 + k &&
                         (r != row || c != col)) ==> !b[r][c]
  {
    if k == 0 then true
    else
      var r, c := row + dr, col - 1 + (k - 1);
      RingRowFree(b, n, row, col, dr, k - 1) &&
      ((r == row && c == col) || !InBounds(n, r, c) || !b[r][c])
  }

  /** Scan of the rows row - 1 .. row - 2 + k around (row, col). */
  function RingFree(b: Board, n: nat, row: nat, col: nat, k: nat): (free: bool)
    requires IsGrid(b, n) && row < n && col < n && k <= 3
    ensures free <==> forall r, c ::
                        (InBounds(n, r, c) && row - 1 <= r < row - 1 + k && Touching(row, col, r, c))
                        ==> !b[r][c]
  {
    k == 0 || (RingFree(b, n, row, col, k - 1) && RingRowFree(b, n, row, col, k - 2, 3))
  }

  /** `isValidMove(row, col, boardState)` of script.js. */
  function IsValidMove(n: nat, regions: seq<seq<int>>, b: Board, row: nat, col: nat): (ok: bool)
    requires IsGrid(b, n) && IsGrid(regions, n) && row < n && col < n
    ensures ok <==>
              (forall r :: 0 <= r < n ==> !b[r][col]) &&
              (forall r, c :: InBounds(n, r, c) && regions[r][c] == regions[row][col] ==> !b[r][c]) &&
              (forall r, c :: InBounds(n, r, c) && Touching(row, col, r, c) ==> !b[r][c])
  {
    ColumnFree(b, col, n) && RegionFree(b, regions, regions[row][col], n, n) && RingFree(b, n, row, col, 3)
  }

  /** The move check does not look at the row: beside a crown at (0, 0),
      the cell (0, 2) of a 3-by-3 board with three column regions is
      accepted. */
  lemma RowIsNotChecked()
    ensures var regions := [[1, 2, 3], [1, 2, 3], [1, 2, 3]];
            var b := [[true, false, false], [false, false, false], [false, false, false]];
            IsValidMove(3, regions, b, 0, 2)
  {
    var regions := [[1, 2, 3], [1, 2, 3], [1, 2, 3]];
    var b := [[true, false, false], [false, false, false], [false, false, false]];
    assert forall r, c :: InBounds(3, r, c) && b[r][c] ==> r == 0 && c == 0;
  }

  /** `boardsEqual(b1, b2)`: true exactly when the boards are equal. */
  function BoardsEqual(n: nat, b1: Board, b2: Board): (same: bool)
    requires IsGrid(b1, n) && IsGrid(b2, n)
    ensures same <==> b1 == b2
  {
    CellsEqualIsEquality(b1, b2, n);
    CellsEqual(b1, b2, n, n)
  }

  // ---------------------------------------------------------------------
  // What a solution of the script.js solver is

  /** Two distinct crowned cells that the script.js rules allow together:
      different columns, different regions, not 8-adjacent. */
  predicate Compatible(regions: seq<seq<int>>, n: nat, r1: nat, c1: nat, r2: nat, c2: nat)
    requires IsGrid(regions, n) && InBounds(n, r1, c1) && InBounds(n, r2, c2)
  {
    c1 != c2 && regions[r1][c1] != regions[r2][c2] && !Touching(r1, c1, r2, c2)
  }

  /** Every two crowns of `b` are compatible. */
  ghost predicate PairwiseCompatible(b: Board, regions: seq<seq<int>>, n: nat)
    requires IsGrid(b, n) && IsGrid(regions, n)
  {
    forall r1, c1, r2, c2 ::
      InBounds(n, r1, c1) && InBounds(n, r2, c2) && b[r1][c1] && b[r2][c2] && (r1 != r2 || c1 != c2)
      ==> Compatible(regions, n, r1, c1, r2, c2)
  }

  /** The state of `sol` when `backtrack(row)` is entered: one crown in
      each row above `row`, none from `row` down, all compatible. */
  ghost predicate Partial(b: Board, regions: seq<seq<int>>, n: nat, row: nat)
  {
    IsGrid(b, n) && IsGrid(regions, n) && row <= n &&
    (forall r :: 0 <= r < row ==> RowCount(b[r], true) == 1) &&
    (forall r, c :: row <= r < n && 0 <= c < n ==> !b[r][c]) &&
    PairwiseCompatible(b, regions, n)
  }

  /** A board `generateSolution` may return. */
  ghost predicate IsSolution(b: Board, regions: seq<seq<int>>, n: nat) {
    Partial(b, regions, n, n)
  }

  /** Crowning a cell of the first empty row where `isValidMove` holds
      extends a partial placement by one row. */
  lemma {:induction false} PlaceExtends(b: Board, regions: seq<seq<int>>, n: nat, row: nat, col: nat)
    requires Partial(b, regions, n, row) && row < n && col < n
    requires IsValidMove(n, regions, b, row, col)
    ensures Partial(SetCell(b, row, col, true), regions, n, row + 1)
  {
    var b' := SetCell(b, row, col, true);
    RowCountSingle(b[row], col);
    assert b'[row] == b[row][col := true];
    forall r1, c1, r2, c2 |
      InBounds(n, r1, c1) && InBounds(n, r2, c2) && b'[r1][c1] && b'[r2][c2] && (r1 != r2 || c1 != c2)
      ensures Compatible(regions, n, r1, c1, r2, c2)
    {
      if r1 == row && c1 == col {
        assert b[r2][c2];
      } else if r2 == row && c2 == col {
        assert b[r1][c1];
      } else {
        assert b[r1][c1] && b[r2][c2];
      }
    }
  }

  /** An empty board is a partial placement of zero rows. */
  lemma EmptyIsPartial(regions: seq<seq<int>>, n: nat)
    requires IsGrid(regions, n)
    ensures Partial(Fill(n, false), regions, n, 0)
  {
  }

  /** A solution holds exactly `n` crowns. */
  lemma {:induction false} SolutionCrowns(b: Board, regions: seq<seq<int>>, n: nat)
    requires IsSolution(b, regions, n)
    ensures Count(b, true) == n
  {
    CountOnePerRow(b, true);
  }
}
