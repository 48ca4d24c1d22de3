/** `generateSolution` of script.js and its inner `backtrack(row)`: row by
    row, try the columns in a shuffled order, crown a cell where
    `isValidMove` holds, recurse, and undo the crown when the rest fails. */
module ScriptSolver {
  import opened Grid
  import opened Shuffle
  import opened ScriptRules

  /** `backtrack(row)`; `sol` is the board the closure writes in place, and
      the returned `k` is the next unused draw of `rng`. */
  method Backtrack(sol: BoardBuffer, n: nat, regions: seq<seq<int>>, row: nat, rng: Rng, k0: nat)
    returns (found: bool, k: nat)
    requires Partial(sol.cells, regions, n, row)
    modifies sol
    decreases n - row
    ensures found ==> IsSolution(sol.cells, regions, n)
    ensures found ==> forall r :: 0 <= r < row ==> sol.cells[r] == old(sol.cells)[r]
    ensures !found ==> sol.cells == old(sol.cells)
  {
    k := k0;
    if row == n {
      return true, k;
    }
    var cols := new nat[n](i => i);
    ghost var initial := cols[..];
    ShuffledPermutes(initial, rng, k);
    k := ShuffleArray(cols, rng, k);
    forall i | 0 <= i < n
      ensures cols[i] < n
    {
      assert cols[i] in multiset(initial);
    }
    for t := 0 to n
      invariant sol.cells == old(sol.cells)
      invariant forall i :: 0 <= i < n ==> cols[i] < n
    {
      var col := cols[t];
      if IsValidMove(n, regions, sol.cells, row, col) {
        PlaceExtends(sol.cells, regions, n, row, col);
        sol.cells := SetCell(sol.cells, row, col, true);
        found, k := Backtrack(sol, n, regions, row + 1, rng, k);
        if found {
          return;
        }
        SetCellUndo(old(sol.cells), row, col, true);
        sol.cells := SetCell(sol.cells, row, col, false);
      }
    }
    found := false;
  }

  /** `generateSolution()`: a solution, or `None` for `null` when the
      region map admits none. */
  method GenerateSolution(n: nat, regions: seq<seq<int>>, rng: Rng, k0: nat)
    returns (solution: Option<Board>, k: nat)
    requires IsGrid(regions, n)
    ensures solution.Some? ==> IsSolution(solution.value, regions, n)
  {
    var sol := new BoardBuffer(Fill(n, false));
    EmptyIsPartial(regions, n);
    var found;
    found, k := Backtrack(sol, n, regions, 0, rng, k0);
    solution := if found then Some(sol.cells) else None;
  }
}
