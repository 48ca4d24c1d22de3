/** `generateRegions` of pages/index.js: every cell starts unassigned, the
    list `availableCells` holds all cells row by row, and for each region id
    in turn `boardSize` cells are drawn from the list without replacement
    and given that id. */
module HomeRegions {
  import opened Grid
  import opened Shuffle

  /** The `null` of a cell no region has claimed yet; ids are 0 .. n-1. */
  const Unassigned: int := -1

  /** `availableCells` as the two nested loops build it: every cell of the
      board once, row by row. */
  method ListCells(n: nat) returns (cells: seq<Pos>)
    ensures |cells| == n * n && Distinct(cells)
    ensures forall p :: p in cells <==> InBounds(n, p.r, p.c)
  {
    cells := [];
    for row := 0 to n
      invariant |cells| == row * n && Distinct(cells)
      invariant forall p :: p in cells <==> InBounds(n, p.r, p.c) && p.r < row
    {
      for col := 0 to n
        invariant |cells| == row * n + col && Distinct(cells)
        invariant forall p :: p in cells <==> InBounds(n, p.r, p.c) && (p.r < row || (p.r == row && p.c < col))
      {
        AppendFresh(cells, Pos(row, col));
        cells := cells + [Pos(row, col)];
      }
    }
  }

  /** `s.splice(j, 1)`: the list without its element at index `j`. */
  function Splice<T>(s: seq<T>, j: nat): (t: seq<T>)
    requires j < |s|
    ensures |t| == |s| - 1
    ensures forall i :: 0 <= i < |t| ==> t[i] == if i < j then s[i] else s[i + 1]
  {
    s[..j] + s[j + 1..]
  }

  /** Splicing an element out of a duplicate-free list removes exactly that
      element and keeps the list duplicate-free. */
  lemma {:induction false} SpliceRemoves<T>(s: seq<T>, j: nat)
    requires j < |s| && Distinct(s)
    ensures Distinct(Splice(s, j))
    ensures forall x :: x in Splice(s, j) <==> x in s && x != s[j]
  {
    var t := Splice(s, j);
    forall x
      ensures x in t <==> x in s && x != s[j]
    {
      if x in t {
        var i :| 0 <= i < |t| && t[i] == x;
        if i < j {
          assert s[i] == x;
        } else {
          assert s[i + 1] == x;
        }
      }
      if x in s && x != s[j] {
        var i :| 0 <= i < |s| && s[i] == x;
        if i < j {
          assert t[i] == x;
        } else {
          assert t[i - 1] == x;
        }
      }
    }
  }

  /** The state of the dealing loops after `i` cells of region `region`
      have been dealt: the unassigned cells are exactly the ones still
      available, every earlier region has `n` cells, the current one `i`,
      the later ones none, and the list has shrunk by one per deal. */
  ghost predicate Dealing(n: nat, regions: seq<seq<int>>, available: seq<Pos>, region: nat, i: nat) {
    IsGrid(regions, n) && Distinct(available) &&
    (forall p :: p in available <==> InBounds(n, p.r, p.c) && regions[p.r][p.c] == Unassigned) &&
    (forall r, c :: InBounds(n, r, c) ==> Unassigned <= regions[r][c] < n) &&
    (forall id :: 0 <= id < n ==> Count(regions, id) == if id < region then n else if id == region then i else 0) &&
    |available| + region * n + i == n * n
  }

  /** Before the first deal: no cell assigned, every cell available. */
  lemma {:induction false} DealingStarts(n: nat, available: seq<Pos>)
    requires |available| == n * n && Distinct(available)
    requires forall p :: p in available <==> InBounds(n, p.r, p.c)
    ensures Dealing(n, Fill(n, Unassigned), available, 0, 0)
  {
    forall id | 0 <= id < n
      ensures Count(Fill(n, Unassigned), id) == 0
    {
      CountFill(n, Unassigned, id);
    }
  }

  /** While deals remain in the two loops, the list is not empty, so the
      `break` never fires. */
  lemma {:induction false} DealingLeft(n: nat, regions: seq<seq<int>>, available: seq<Pos>, region: nat, i: nat)
    requires Dealing(n, regions, available, region, i) && region < n && i < n
    ensures |available| > 0
  {
    var d := n - 1 - region;
    assert d * n >= 0;
    assert n * n == region * n + d * n + n;
  }

  /** One deal: the drawn cell is unassigned and on the board, and giving
      it the current id moves the loop state on by one cell. */
  lemma {:induction false} DealStep(n: nat, regions: seq<seq<int>>, available: seq<Pos>, region: nat, i: nat, j: nat)
    requires Dealing(n, regions, available, region, i) && region < n && i < n && j < |available|
    ensures InBounds(n, available[j].r, available[j].c)
    ensures regions[available[j].r][available[j].c] == Unassigned
    ensures Dealing(n, SetCell(regions, available[j].r, available[j].c, region), Splice(available, j), region, i + 1)
  {
    var p := available[j];
    assert p in available;
    var regions' := SetCell(regions, p.r, p.c, region);
    CountUpdateAll(regions, p.r, p.c, region);
    SpliceRemoves(available, j);
    var rest := Splice(available, j);
    forall q
      ensures q in rest <==> InBounds(n, q.r, q.c) && regions'[q.r][q.c] == Unassigned
    {
      if q != p && InBounds(n, q.r, q.c) {
        assert regions'[q.r][q.c] == regions[q.r][q.c];
      }
    }
  }

  /** A region with its `n` cells dealt is the start of the next one. */
  lemma NextRegion(n: nat, regions: seq<seq<int>>, available: seq<Pos>, region: nat)
    requires Dealing(n, regions, available, region, n)
    ensures Dealing(n, regions, available, region + 1, 0)
  {
    assert region * n + n == (region + 1) * n;
  }

  /** After all `n` regions: no cell is unassigned, and every id has `n`
      cells. */
  lemma {:induction false} DealtAll(n: nat, regions: seq<seq<int>>, available: seq<Pos>)
    requires Dealing(n, regions, available, n, 0)
    ensures forall r, c :: InBounds(n, r, c) ==> 0 <= regions[r][c] < n
    ensures forall id :: 0 <= id < n ==> Count(regions, id) == n
  {
    assert |available| == 0;
    forall r, c | InBounds(n, r, c)
      ensures 0 <= regions[r][c] < n
    {
      assert Pos(r, c) !in available;
    }
  }

  /** `generateRegions()`: a region map in which every cell has an id in
      0 .. n-1 and each id covers exactly `n` cells; `k` is the next unused
      draw of `rng`, one draw per cell. */
  method GenerateRegions(n: nat, rng: Rng, k0: nat) returns (regions: seq<seq<int>>, k: nat)
    ensures IsGrid(regions, n)
    ensures forall r, c :: InBounds(n, r, c) ==> 0 <= regions[r][c] < n
    ensures forall id :: 0 <= id < n ==> Count(regions, id) == n
    ensures k == k0 + n * n
  {
    regions := Fill(n, Unassigned);
    var available := ListCells(n);
    DealingStarts(n, available);
    k := k0;
    for region := 0 to n
      invariant Dealing(n, regions, available, region, 0)
      invariant k == k0 + region * n
    {
      for i := 0 to n
        invariant Dealing(n, regions, available, region, i)
        invariant k == k0 + region * n + i
      {
        DealingLeft(n, regions, available, region, i);
        if |available| == 0 {
          break;
        }
        var j := Draw(rng, k, |available|);
        k := k + 1;
        DealStep(n, regions, available, region, i, j);
        var cell := available[j];
        available := Splice(available, j);
        regions := SetCell(regions, cell.r, cell.c, region);
      }
      NextRegion(n, regions, available, region);
      assert k == k0 + (region + 1) * n;
    }
    DealtAll(n, regions, available);
  }
}
