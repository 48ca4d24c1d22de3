/** The board rules of pages/index.js: `isValidMove` (row, column and
    region; no adjacency check), `checkWin`, and the board logic of
    `handleCellClick`, which edits a copy of the board. The React state
    `boardSize`, `regions` and `solution` are the parameters `n`, `regions`
    and `solution`. */
module HomeRules {
  import opened Grid

  /** The first loop of `isValidMove`: for i < k, neither (row, i) nor
      (i, col) holds a crown. */
  function LinesFree(b: Board, n: nat, row: nat, col: nat, k: nat): (free: bool)
    requires IsGrid(b, n) && row < n && col < n && k <= n
    ensures free <==> forall i :: 0 <= i < k ==> !b[row][i] && !b[i][col]
  {
    k == 0 || (LinesFree(b, n, row, col, k - 1) && !b[row][k - 1] && !b[k - 1][col])
  }

  /** The pages/index.js rule for crowning (row, col): no crown in the row,
      none in the column, none in the region of (row, col). */
  ghost predicate MoveAllowed(n: nat, regions: seq<seq<int>>, b: Board, row: nat, col: nat)
    requires IsGrid(b, n) && IsGrid(regions, n) && row < n && col < n
  {
    (forall c :: 0 <= c < n ==> !b[row][c]) &&
    (forall r :: 0 <= r < n ==> !b[r][col]) &&
    (forall r, c :: InBounds(n, r, c) && regions[r][c] == regions[row][col] ==> !b[r][c])
  }

  /** `isValidMove(tempBoard, row, col)` of pages/index.js: true exactly
      when the rule allows the crown. */
  function IsValidMove(n: nat, regions: seq<seq<int>>, b: Board, row: nat, col: nat): (ok: bool)
    requires IsGrid(b, n) && IsGrid(regions, n) && row < n && col < n
    ensures ok <==> MoveAllowed(n, regions, b, row, col)
  {
    LinesFree(b, n, row, col, n) && RegionFree(b, regions, regions[row][col], n, n)
  }

  /** The move check ignores adjacency: beside a crown at (0, 0), the
      diagonal neighbour (1, 1) of a 2-by-2 board with two row regions is
      accepted. */
  lemma AdjacencyIsNotChecked()
    ensures var regions := [[0, 0], [1, 1]];
            var b := [[true, false], [false, false]];
            IsValidMove(2, regions, b, 1, 1) && Touching(0, 0, 1, 1)
  {
    var regions := [[0, 0], [1, 1]];
    var b := [[true, false], [false, false]];
    assert forall r, c :: InBounds(2, r, c) && b[r][c] ==> r == 0 && c == 0;
  }

  /** `checkWin(currentBoard)`: true exactly when the board equals the
      solution. */
  function CheckWin(n: nat, b: Board, solution: Board): (won: bool)
    requires IsGrid(b, n) && IsGrid(solution, n)
    ensures won <==> b == solution
  {
    CellsEqualIsEquality(b, solution, n);
    CellsEqual(b, solution, n, n)
  }

  // ---------------------------------------------------------------------
  // What a solution of the pages/index.js solver is

  /** Two distinct crowned cells the pages/index.js rules allow together:
      different rows, different columns, different regions. */
  predicate Compatible(regions: seq<seq<int>>, n: nat, r1: nat, c1: nat, r2: nat, c2: nat)
    requires IsGrid(regions, n) && InBounds(n, r1, c1) && InBounds(n, r2, c2)
  {
    r1 != r2 && c1 != c2 && regions[r1][c1] != regions[r2][c2]
  }

  /** Every two crowns of `b` are compatible. */
  ghost predicate PairwiseCompatible(b: Board, regions: seq<seq<int>>, n: nat)
    requires IsGrid(b, n) && IsGrid(regions, n)
  {
    forall r1, c1, r2, c2 ::
      InBounds(n, r1, c1) && InBounds(n, r2, c2) && b[r1][c1] && b[r2][c2] && (r1 != r2 || c1 != c2)
      ==> Compatible(regions, n, r1, c1, r2, c2)
  }

  /** The board when `solveBoard(tempBoard, row)` is entered: one crown in
      each row above `row`, none from `row` down, all compatible. */
  ghost predicate Partial(b: Board, regions: seq<seq<int>>, n: nat, row: nat) {
    IsGrid(b, n) && IsGrid(regions, n) && row <= n &&
    (forall r :: 0 <= r < row ==> RowCount(b[r], true) == 1) &&
    (forall r, c :: row <= r < n && 0 <= c < n ==> !b[r][c]) &&
    PairwiseCompatible(b, regions, n)
  }

  /** A board on which `solveBoard` returns true. */
  ghost predicate IsSolution(b: Board, regions: seq<seq<int>>, n: nat) {
    Partial(b, regions, n, n)
  }

  /** Crowning a cell of the first empty row where `isValidMove` holds
      extends a partial placement by one row. */
  lemma {:induction false} PlaceExtends(b: Board, regions: seq<seq<int>>, n: nat, row: nat, col: nat)
    requires Partial(b, regions, n, row) && row < n && col < n
    requires MoveAllowed(n, regions, b, row, col)
    ensures Partial(SetCell(b, row, col, true), regions, n, row + 1)
  {
    var b' := SetCell(b, row, col, true);
    RowCountSingle(b[row], col);
    assert b'[row] == b[row][col := true];
    forall r1, c1, r2, c2 |
      InBounds(n, r1, c1) && InBounds(n, r2, c2) && b'[r1][c1] && b'[r2][c2] && (r1 != r2 || c1 != c2)
      ensures Compatible(regions, n, r1, c1, r2, c2)
    {
      if r1 == row && c1 == col {
        assert b[r2][c2];
      } else if r2 == row && c2 == col {
        assert b[r1][c1];
      } else {
        assert b[r1][c1] && b[r2][c2];
      }
    }
  }

  /** An empty board is a partial placement of zero rows. */
  lemma EmptyIsPartial(regions: seq<seq<int>>, n: nat)
    requires IsGrid(regions, n)
    ensures Partial(Fill(n, false), regions, n, 0)
  {
  }

  /** A solution holds exactly `n` crowns. */
  lemma {:induction false} SolutionCrowns(b: Board, regions: seq<seq<int>>, n: nat)
    requires IsSolution(b, regions, n)
    ensures Count(b, true) == n
  {
    CountOnePerRow(b, true);
  }

  // ---------------------------------------------------------------------
  // handleCellClick

  /** What a click produces: the board passed to `setBoard`, and whether
      `checkWin` accepted it. */
  datatype ClickOutcome = ClickOutcome(board: Board, won: bool)

  /** The board logic of `handleCellClick(row, col)`: on a copy of `board`,
      a crown is removed, an empty cell is crowned when `isValidMove` allows
      it and left empty otherwise; the copy is then checked against the
      solution. */
  function HandleCellClick(n: nat, regions: seq<seq<int>>, solution: Board, board: Board, row: nat, col: nat)
    : (out: ClickOutcome)
    requires IsGrid(board, n) && IsGrid(regions, n) && IsGrid(solution, n) && row < n && col < n
    ensures IsGrid(out.board, n)
    ensures board[row][col] ==> !out.board[row][col]
    ensures !board[row][col] ==> (out.board[row][col] <==> IsValidMove(n, regions, board, row, col))
    ensures forall r, c :: InBounds(n, r, c) && (r != row || c != col) ==> out.board[r][c] == board[r][c]
    ensures out.won <==> out.board == solution
  {
    var newBoard :=
      if board[row][col] then SetCell(board, row, col, false)
      else if IsValidMove(n, regions, board, row, col) then SetCell(board, row, col, true)
      else board;
    ClickOutcome(newBoard, CheckWin(n, newBoard, solution))
  }

  /** Clicking an empty cell that may be crowned, then clicking it again,
      gives back the board that was there before. */
  lemma {:induction false} ClickTwiceRestores(n: nat, regions: seq<seq<int>>, solution: Board, board: Board, row: nat, col: nat)
    requires IsGrid(board, n) && IsGrid(regions, n) && IsGrid(solution, n) && row < n && col < n
    requires !board[row][col] && IsValidMove(n, regions, board, row, col)
    ensures var once := HandleCellClick(n, regions, solution, board, row, col).board;
            once[row][col] && HandleCellClick(n, regions, solution, once, row, col).board == board
  {
    var once := HandleCellClick(n, regions, solution, board, row, col).board;
    GridExtensional(HandleCellClick(n, regions, solution, once, row, col).board, board, n);
  }

  /** Clicks keep the player's crowns pairwise compatible, so a board built
      by clicks from an empty one never holds two crowns in one row, one
      column or one region. */
  lemma {:induction false} ClickKeepsCompatible(n: nat, regions: seq<seq<int>>, solution: Board, board: Board, row: nat, col: nat)
    requires IsGrid(board, n) && IsGrid(regions, n) && IsGrid(solution, n) && row < n && col < n
    requires PairwiseCompatible(board, regions, n)
    ensures PairwiseCompatible(HandleCellClick(n, regions, solution, board, row, col).board, regions, n)
  {
    var b' := HandleCellClick(n, regions, solution, board, row, col).board;
    forall r1, c1, r2, c2 |
      InBounds(n, r1, c1) && InBounds(n, r2, c2) && b'[r1][c1] && b'[r2][c2] && (r1 != r2 || c1 != c2)
      ensures Compatible(regions, n, r1, c1, r2, c2)
    {
      if r1 == row && c1 == col {
        assert board[r2][c2];
      } else if r2 == row && c2 == col {
        assert board[r1][c1];
      } else {
        assert board[r1][c1] && board[r2][c2];
      }
    }
  }
}
