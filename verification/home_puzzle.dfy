/** `generatePuzzle` of pages/index.js: solve an empty board, then reveal
    `Math.floor(boardSize * 1.5)` crowns of the solution by drawing random
    cells until that many distinct crowned cells have been drawn. The
    solver crowns at most one cell per row, so for boards of two rows or
    more the loop asks for more crowns than exist and never ends; the model
    bounds it by a number of iterations, and `GeneratePuzzleClamped` is the
    corrected version. */
module HomePuzzle {
  import opened Grid
  import opened Shuffle
  import opened HomeRules
  import opened HomeSolver

  /** The puzzle shown to the player and the solution kept for `checkWin`. */
  datatype Puzzle = Puzzle(puzzle: Board, sol: Board)

  /** `Math.floor(boardSize * 1.5)`: more crowns than rows from two rows
      on. */
  function ClueTarget(n: nat): (t: nat)
    ensures n <= t
    ensures n >= 2 ==> n < t
  {
    (3 * n) / 2
  }

  /** Every crown of `p` is a crown of `s`. */
  ghost predicate Within(p: Board, s: Board, n: nat)
    requires IsGrid(p, n) && IsGrid(s, n)
  {
    forall r, c :: InBounds(n, r, c) && p[r][c] ==> s[r][c]
  }

  /** The first two lines of `generatePuzzle`: `sol` after `solveBoard`
      on an empty board, whose result is ignored. It holds at most `n`
      crowns: `n` when the region map has a solution, none otherwise. */
  method SolveEmpty(n: nat, regions: seq<seq<int>>) returns (sol: Board)
    requires IsGrid(regions, n)
    ensures IsGrid(sol, n)
    ensures (exists s :: IsSolution(s, regions, n)) ==> IsSolution(sol, regions, n) && Count(sol, true) == n
    ensures !(exists s :: IsSolution(s, regions, n)) ==> sol == Fill(n, false) && Count(sol, true) == 0
  {
    var temp := new BoardBuffer(Fill(n, false));
    var solved := SolveBoard(temp, n, regions, 0);
    sol := temp.cells;
    SolvesEmptyBoard(regions, n);
    if solved {
      SolutionCrowns(sol, regions, n);
    } else {
      CountFill(n, false, true);
    }
  }

  /** The `while (clues > 0)` loop of `generatePuzzle`, cut off after
      `budget` iterations: each iteration draws a row and a column and
      either reveals one new crown of `sol` or changes nothing, so revealed
      crowns plus the remaining `clues` stay at the target. */
  method SampleClues(n: nat, sol: Board, rng: Rng, k0: nat, budget: nat)
    returns (puzzle: Board, clues: nat, k: nat)
    requires IsGrid(sol, n)
    ensures IsGrid(puzzle, n) && Within(puzzle, sol, n)
    ensures Count(puzzle, true) + clues == ClueTarget(n)
  {
    puzzle := Fill(n, false);
    CountFill(n, false, true);
    clues := ClueTarget(n);
    var steps := 0;
    k := k0;
    while clues > 0 && steps < budget
      invariant IsGrid(puzzle, n) && Within(puzzle, sol, n)
      invariant Count(puzzle, true) + clues == ClueTarget(n)
      invariant steps <= budget
      decreases budget - steps
    {
      var row := Draw(rng, k, n);
      var col := Draw(rng, k + 1, n);
      k := k + 2;
      if sol[row][col] && !puzzle[row][col] {
        CountUpdate(puzzle, row, col, true, true);
        puzzle := SetCell(puzzle, row, col, true);
        clues := clues - 1;
      }
      steps := steps + 1;
    }
  }

  /** `generatePuzzle()` as written, with its loop cut off after `budget`
      iterations (`None` when it is still running then). From two rows on
      no budget is enough: the loop never ends. */
  method GeneratePuzzle(n: nat, regions: seq<seq<int>>, rng: Rng, k0: nat, budget: nat)
    returns (result: Option<Puzzle>, k: nat)
    requires IsGrid(regions, n)
    ensures result.Some? ==> IsGrid(result.value.puzzle, n) && IsGrid(result.value.sol, n)
    ensures result.Some? ==> Within(result.value.puzzle, result.value.sol, n)
    ensures result.Some? ==> Count(result.value.puzzle, true) == ClueTarget(n)
    ensures n >= 2 ==> result.None?
  {
    var sol := SolveEmpty(n, regions);
    var puzzle, clues;
    puzzle, clues, k := SampleClues(n, sol, rng, k0, budget);
    if clues > 0 {
      return None, k;
    }
    CountSubset(puzzle, sol);
    result := Some(Puzzle(puzzle, sol));
  }

  /** From two rows on, no board within a solution holds `ClueTarget(n)`
      crowns, so the sampling loop of `generatePuzzle` cannot reach
      `clues == 0`. */
  lemma {:induction false} TooManyClues(n: nat, regions: seq<seq<int>>, sol: Board, puzzle: Board)
    requires n >= 2 && IsSolution(sol, regions, n)
    requires IsGrid(puzzle, n) && Within(puzzle, sol, n)
    ensures Count(puzzle, true) < ClueTarget(n)
  {
    SolutionCrowns(sol, regions, n);
    CountSubset(puzzle, sol);
  }

  /** The crowned cells of `b`, row by row. */
  method CrownCells(b: Board, n: nat) returns (cells: seq<Pos>)
    requires IsGrid(b, n)
    ensures Distinct(cells) && |cells| == Count(b, true)
    ensures forall p :: p in cells <==> InBounds(n, p.r, p.c) && b[p.r][p.c]
  {
    cells := [];
    for row := 0 to n
      invariant |cells| == Count(b[..row], true) && Distinct(cells)
      invariant forall p :: p in cells <==> InBounds(n, p.r, p.c) && p.r < row && b[p.r][p.c]
    {
      for col := 0 to n
        invariant |cells| == Count(b[..row], true) + RowCount(b[row][..col], true) && Distinct(cells)
        invariant forall p :: p in cells <==>
                    InBounds(n, p.r, p.c) && (p.r < row || (p.r == row && p.c < col)) && b[p.r][p.c]
      {
        assert b[row][..col + 1][..col] == b[row][..col];
        if b[row][col] {
          AppendFresh(cells, Pos(row, col));
          cells := cells + [Pos(row, col)];
        }
      }
      assert b[row][..n] == b[row];
      assert b[..row + 1][..row] == b[..row];
    }
    assert b[..n] == b;
  }

  /** The crowned cells of `sol` in the order `shuffleArray` leaves them. */
  method ShuffledCrowns(sol: Board, n: nat, rng: Rng, k0: nat) returns (order: seq<Pos>, k: nat)
    requires IsGrid(sol, n)
    ensures Distinct(order) && |order| == Count(sol, true)
    ensures forall p :: p in order <==> InBounds(n, p.r, p.c) && sol[p.r][p.c]
  {
    var crowns := CrownCells(sol, n);
    var a := new Pos[|crowns|](i requires 0 <= i < |crowns| => crowns[i]);
    assert a[..] == crowns;
    ShuffledPermutes(crowns, rng, k0);
    ShuffledDistinct(crowns, rng, k0);
    k := ShuffleArray(a, rng, k0);
    order := a[..];
    forall x
      ensures x in order <==> x in crowns
    {
      assert (x in order) == (x in multiset(order));
      assert (x in crowns) == (x in multiset(crowns));
    }
  }

  /** The puzzle after the first `i` cells of `order` have been revealed:
      exactly those cells are crowned, `i` crowns in all. */
  ghost predicate Revealed(puzzle: Board, order: seq<Pos>, i: nat, n: nat) {
    IsGrid(puzzle, n) && i <= |order| &&
    (forall r, c :: InBounds(n, r, c) ==> (puzzle[r][c] <==> Pos(r, c) in order[..i])) &&
    Count(puzzle, true) == i
  }

  /** Revealing the next cell of a duplicate-free list of cells adds one
      crown. */
  lemma {:induction false} RevealStep(puzzle: Board, order: seq<Pos>, i: nat, n: nat)
    requires Revealed(puzzle, order, i, n) && i < |order| && Distinct(order)
    requires forall p :: p in order ==> InBounds(n, p.r, p.c)
    ensures InBounds(n, order[i].r, order[i].c)
    ensures Revealed(SetCell(puzzle, order[i].r, order[i].c, true), order, i + 1, n)
  {
    var p := order[i];
    assert p in order && p !in order[..i];
    assert order[..i + 1] == order[..i] + [p];
    CountUpdate(puzzle, p.r, p.c, true, true);
  }

  /** The corrected `generatePuzzle`: the crowns of `sol` are shuffled and
      the first `min(ClueTarget(n), crowns)` of them revealed, so the loop
      always ends, with exactly that many distinct crowns of `sol`. */
  method GeneratePuzzleClamped(n: nat, regions: seq<seq<int>>, rng: Rng, k0: nat)
    returns (result: Puzzle, k: nat)
    requires IsGrid(regions, n)
    ensures IsGrid(result.puzzle, n) && IsGrid(result.sol, n)
    ensures (exists s :: IsSolution(s, regions, n)) ==> IsSolution(result.sol, regions, n)
    ensures !(exists s :: IsSolution(s, regions, n)) ==> result.sol == Fill(n, false)
    ensures Within(result.puzzle, result.sol, n)
    ensures Count(result.puzzle, true) == if ClueTarget(n) < Count(result.sol, true) then ClueTarget(n) else Count(result.sol, true)
  {
    var sol := SolveEmpty(n, regions);
    var order;
    order, k := ShuffledCrowns(sol, n, rng, k0);
    var clues := if ClueTarget(n) < |order| then ClueTarget(n) else |order|;
    var puzzle := Fill(n, false);
    CountFill(n, false, true);
    for i := 0 to clues
      invariant Revealed(puzzle, order, i, n)
    {
      RevealStep(puzzle, order, i, n);
      puzzle := SetCell(puzzle, order[i].r, order[i].c, true);
    }
    assert forall r, c :: InBounds(n, r, c) && puzzle[r][c] ==> Pos(r, c) in order;
    result := Puzzle(puzzle, sol);
  }
}
