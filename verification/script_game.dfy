/** The game state of script.js: the globals `regionMap`, `solutionBoard`
    and `playerBoard` as the fields of a `Game`, the constant `boardSize` as
    `n`, and the board logic of `newGame`, `resetCurrentGame`,
    `handleCellClick` and `isBoardComplete`. Rendering, colours and alerts
    are not modelled, except for the draws the colour shuffle consumes. */
module ScriptGame {
  import opened Grid
  import opened ScriptRules
  import opened ScriptSolver
  import opened ScriptRegions
  import opened Shuffle

  /** The length of `allowedColors`, which `generateRegionColors` shuffles. */
  const AllowedColorCount: nat := 9

  /** The player's board after a click on (row, col): a crown is removed,
      an empty cell is crowned when `isValidMove` allows it, and otherwise
      the board stays as it was. */
  function Toggle(n: nat, regions: seq<seq<int>>, b: Board, row: nat, col: nat): (b': Board)
    requires IsGrid(b, n) && IsGrid(regions, n) && row < n && col < n
    ensures IsGrid(b', n)
    ensures b[row][col] ==> !b'[row][col]
    ensures !b[row][col] ==> (b'[row][col] <==> IsValidMove(n, regions, b, row, col))
    ensures forall r, c :: InBounds(n, r, c) && (r != row || c != col) ==> b'[r][c] == b[r][c]
  {
    if b[row][col] then SetCell(b, row, col, false)
    else if IsValidMove(n, regions, b, row, col) then SetCell(b, row, col, true)
    else b
  }

  /** A click on an empty cell that is refused leaves the board as it was. */
  lemma RefusedClickChangesNothing(n: nat, regions: seq<seq<int>>, b: Board, row: nat, col: nat)
    requires IsGrid(b, n) && IsGrid(regions, n) && row < n && col < n
    requires !b[row][col] && !IsValidMove(n, regions, b, row, col)
    ensures Toggle(n, regions, b, row, col) == b
  {
  }

  /** Placing a crown and clicking the same cell again restores the board. */
  lemma {:induction false} PlaceThenRemove(n: nat, regions: seq<seq<int>>, b: Board, row: nat, col: nat)
    requires IsGrid(b, n) && IsGrid(regions, n) && row < n && col < n
    requires !b[row][col] && IsValidMove(n, regions, b, row, col)
    ensures Toggle(n, regions, b, row, col)[row][col]
    ensures Toggle(n, regions, Toggle(n, regions, b, row, col), row, col) == b
  {
    var b' := Toggle(n, regions, b, row, col);
    GridExtensional(Toggle(n, regions, b', row, col), b, n);
  }

  /** Every click keeps the crowns of the player's board pairwise allowed
      by the rules (column, region, no touching). */
  lemma {:induction false} ToggleKeepsCompatible(n: nat, regions: seq<seq<int>>, b: Board, row: nat, col: nat)
    requires IsGrid(b, n) && IsGrid(regions, n) && row < n && col < n
    requires PairwiseCompatible(b, regions, n)
    ensures PairwiseCompatible(Toggle(n, regions, b, row, col), regions, n)
  {
    var b' := Toggle(n, regions, b, row, col);
    forall r1, c1, r2, c2 |
      InBounds(n, r1, c1) && InBounds(n, r2, c2) && b'[r1][c1] && b'[r2][c2] && (r1 != r2 || c1 != c2)
      ensures Compatible(regions, n, r1, c1, r2, c2)
    {
      if r1 == row && c1 == col {
        assert b[r2][c2];
      } else if r2 == row && c2 == col {
        assert b[r1][c1];
      } else {
        assert b[r1][c1] && b[r2][c2];
      }
    }
  }

  class Game {
    /** `boardSize` */
    const n: nat
    /** The source of `Math.random` and the index of its next draw. */
    const rng: Rng
    var draws: nat
    var regionMap: seq<seq<int>>
    /** `solutionBoard`; `None` is `null`. */
    var solutionBoard: Option<Board>
    var playerBoard: Board

    /** What every state of the page satisfies: a region map of the board's
        size, and a stored solution, when there is one, that solves it.
        After a failed `newGame` the map is new and there is no solution. */
    ghost predicate Valid()
      reads this
    {
      IsGrid(regionMap, n) &&
      (solutionBoard.Some? ==> IsSolution(solutionBoard.value, regionMap, n))
    }

    /** The state after `newGame` has produced a solution: a valid state
        with a solution and a player's board whose crowns the rules allow
        together. */
    ghost predicate Ready()
      reads this
    {
      Valid() && solutionBoard.Some? &&
      IsGrid(playerBoard, n) && PairwiseCompatible(playerBoard, regionMap, n)
    }

    /** The page load: the globals start empty and `newGame` runs. */
    constructor (n: nat, rng: Rng)
      ensures this.n == n && this.rng == rng && Valid()
      ensures solutionBoard.Some? ==> Ready() && playerBoard == Fill(n, false)
      ensures solutionBoard.None? ==> playerBoard == []
    {
      this.n := n;
      this.rng := rng;
      draws := 0;
      regionMap := [];
      solutionBoard := None;
      playerBoard := [];
      new;
      NewGame();
    }

    /** `newGame()`: a fresh region map and solution; the player's board is
        emptied only when a solution was found. */
    method NewGame()
      modifies this
      ensures Valid()
      ensures forall r, c :: InBounds(n, r, c) ==> 1 <= regionMap[r][c] <= n
      ensures solutionBoard.Some? ==> Ready() && playerBoard == Fill(n, false)
      ensures solutionBoard.None? ==> playerBoard == old(playerBoard)
    {
      var k;
      ghost var seeds, pops;
      regionMap, k, seeds, pops := GenerateRegionMap(n, rng, draws);
      // `generateRegionColors` shuffles a copy of `allowedColors`; only its
      // draws matter to the board, since they precede the solver's.
      k := k + ShuffleDraws(AllowedColorCount);
      solutionBoard, k := GenerateSolution(n, regionMap, rng, k);
      draws := k;
      if solutionBoard.None? {
        return;
      }
      playerBoard := Fill(n, false);
    }

    /** `resetCurrentGame()`: the player's board is emptied, whether or not
        the last `newGame` found a solution. */
    method ResetCurrentGame()
      requires Valid()
      modifies this`playerBoard
      ensures Valid() && playerBoard == Fill(n, false)
      ensures solutionBoard.Some? ==> Ready()
    {
      playerBoard := Fill(n, false);
    }

    /** `isBoardComplete(boardState)`: the board equals the solution. */
    function IsBoardComplete(b: Board): (complete: bool)
      reads this
      requires IsGrid(b, n) && solutionBoard.Some? && IsGrid(solutionBoard.value, n)
      ensures complete <==> b == solutionBoard.value
    {
      BoardsEqual(n, b, solutionBoard.value)
    }

    /** `handleCellClick(row, col, cell)` on a drawn board: `rejected` when
        the "Invalid move!" alert is shown (the board is then unchanged and
        the win check is skipped), `won` when the win alert is scheduled,
        and `failed` when the win check runs against a `null` solution,
        left by a failed `newGame`, and throws after the board has been
        toggled. */
    method HandleCellClick(row: nat, col: nat) returns (rejected: bool, won: bool, failed: bool)
      requires Valid() && IsGrid(playerBoard, n) && row < n && col < n
      modifies this`playerBoard
      ensures Valid() && IsGrid(playerBoard, n)
      ensures playerBoard == Toggle(n, regionMap, old(playerBoard), row, col)
      ensures rejected <==> !old(playerBoard)[row][col] && !IsValidMove(n, regionMap, old(playerBoard), row, col)
      ensures failed <==> !rejected && solutionBoard.None?
      ensures won <==> !rejected && solutionBoard.Some? && playerBoard == solutionBoard.value
      ensures old(Ready()) ==> Ready()
    {
      rejected, won, failed := false, false, false;
      if old(Ready()) {
        ToggleKeepsCompatible(n, regionMap, playerBoard, row, col);
      }
      if playerBoard[row][col] {
        playerBoard := SetCell(playerBoard, row, col, false);
      } else {
        if IsValidMove(n, regionMap, playerBoard, row, col) {
          playerBoard := SetCell(playerBoard, row, col, true);
        } else {
          rejected := true;
          return;
        }
      }
      if solutionBoard.None? {
        failed := true;
        return;
      }
      won := IsBoardComplete(playerBoard);
    }
  }
}
