/** `generateRegionMap(size)` of script.js: `size` distinct random seed
    cells get the region ids 1..size, then a FIFO queue grows the regions
    by 4-neighbour flood fill, each popped cell claiming its still-`null`
    neighbours (in shuffled order) for its own region. `null` is 0 here;
    the ids are never 0. */
module ScriptRegions {
  import opened Grid
  import opened Shuffle

  /** A queue entry `{ r, c, region }`. */
  datatype Cell = Cell(r: int, c: int, region: int)

  function At(cell: Cell): Pos {
    Pos(cell.r, cell.c)
  }

  // ---------------------------------------------------------------------
  // Coverage

  /** Every on-board 4-neighbour of (r, c) has a region. */
  predicate NeighboursClaimed(m: seq<seq<int>>, size: nat, r: int, c: int)
    requires IsGrid(m, size) && InBounds(size, r, c)
  {
    (r > 0 ==> m[r - 1][c] != 0) && (r < size - 1 ==> m[r + 1][c] != 0) &&
    (c > 0 ==> m[r][c - 1] != 0) && (c < size - 1 ==> m[r][c + 1] != 0)
  }

  /** The claimed cells are closed under 4-adjacency. */
  ghost predicate Closed(m: seq<seq<int>>, size: nat)
    requires IsGrid(m, size)
  {
    forall r, c :: InBounds(size, r, c) && m[r][c] != 0 ==> NeighboursClaimed(m, size, r, c)
  }

  lemma {:induction false} ClosedAlongRow(m: seq<seq<int>>, size: nat, r: nat, c: nat, c2: nat)
    requires IsGrid(m, size) && Closed(m, size) && InBounds(size, r, c) && InBounds(size, r, c2)
    requires m[r][c] != 0
    ensures m[r][c2] != 0
    decreases if c <= c2 then c2 - c else c - c2
  {
    if c2 > c {
      ClosedAlongRow(m, size, r, c, c2 - 1);
      assert NeighboursClaimed(m, size, r, c2 - 1);
    } else if c2 < c {
      ClosedAlongRow(m, size, r, c, c2 + 1);
      assert NeighboursClaimed(m, size, r, c2 + 1);
    }
  }

  lemma {:induction false} ClosedAlongColumn(m: seq<seq<int>>, size: nat, r: nat, c: nat, r2: nat)
    requires IsGrid(m, size) && Closed(m, size) && InBounds(size, r, c) && InBounds(size, r2, c)
    requires m[r][c] != 0
    ensures m[r2][c] != 0
    decreases if r <= r2 then r2 - r else r - r2
  {
    if r2 > r {
      ClosedAlongColumn(m, size, r, c, r2 - 1);
      assert NeighboursClaimed(m, size, r2 - 1, c);
    } else if r2 < r {
      ClosedAlongColumn(m, size, r, c, r2 + 1);
      assert NeighboursClaimed(m, size, r2 + 1, c);
    }
  }

  /** The grid is 4-connected: a closed set of cells holding one cell holds
      them all. */
  lemma ClosedIsFull(m: seq<seq<int>>, size: nat, r0: nat, c0: nat)
    requires IsGrid(m, size) && Closed(m, size) && InBounds(size, r0, c0)
    requires m[r0][c0] != 0
    ensures forall r, c :: InBounds(size, r, c) ==> m[r][c] != 0
  {
    forall r, c | InBounds(size, r, c)
      ensures m[r][c] != 0
    {
      ClosedAlongRow(m, size, r0, c0, c);
      ClosedAlongColumn(m, size, r0, c, r);
    }
  }

  // ---------------------------------------------------------------------
  // Connectivity

  /** `path` walks through side-sharing cells, all of region `id`. */
  ghost predicate IsRegionPath(m: seq<seq<int>>, size: nat, path: seq<Pos>, id: int)
    requires IsGrid(m, size)
  {
    |path| > 0 &&
    (forall j :: 0 <= j < |path| ==> InBounds(size, path[j].r, path[j].c) && m[path[j].r][path[j].c] == id) &&
    (forall j :: 0 < j < |path| ==> Adjacent4(path[j - 1], path[j]))
  }

  /** Every claimed cell is joined to the seed of its region by a path
      inside that region. */
  ghost predicate RegionsConnected(m: seq<seq<int>>, size: nat, seeds: seq<Cell>)
    requires IsGrid(m, size)
  {
    forall r, c :: InBounds(size, r, c) && m[r][c] != 0 ==>
      1 <= m[r][c] <= |seeds| &&
      exists path :: IsRegionPath(m, size, path, m[r][c]) &&
                     path[0] == At(seeds[m[r][c] - 1]) && path[|path| - 1] == Pos(r, c)
  }

  /** Every enqueued cell is on the board and holds the region it was
      enqueued with. */
  ghost predicate Enqueued(size: nat, m: seq<seq<int>>, order: seq<Cell>)
    requires IsGrid(m, size)
  {
    forall i :: 0 <= i < |order| ==>
      InBounds(size, order[i].r, order[i].c) && 1 <= order[i].region <= size &&
      m[order[i].r][order[i].c] == order[i].region
  }

  /** Every claimed cell has its place `rank` in `order`. */
  ghost predicate Ranked(size: nat, m: seq<seq<int>>, order: seq<Cell>, rank: map<Pos, nat>)
    requires IsGrid(m, size)
  {
    forall r, c :: InBounds(size, r, c) && m[r][c] != 0 ==>
      Pos(r, c) in rank && rank[Pos(r, c)] < |order| && At(order[rank[Pos(r, c)]]) == Pos(r, c)
  }

  /** The first `size` entries are the seeds, with ids 1..size; every later
      entry is a 4-neighbour of an earlier one, in the same region. */
  ghost predicate Parented(size: nat, order: seq<Cell>, par: seq<nat>) {
    size <= |order| && |par| == |order| &&
    (forall i :: 0 <= i < size ==> order[i].region == i + 1) &&
    (forall i {:trigger par[i]} :: size <= i < |order| ==>
       par[i] < i && Adjacent4(At(order[par[i]]), At(order[i])) && order[par[i]].region == order[i].region)
  }

  /** The bookkeeping of the flood fill. `order` lists every cell ever
      enqueued (the seeds first, seed i with id i + 1), `rank` gives each
      claimed cell its place in `order`, and `par[i]` is the index of the
      popped cell whose neighbour `order[i]` is. Every cell is enqueued at
      most once, so the enqueued and the `null` cells make up the board. */
  ghost predicate Grown(size: nat, m: seq<seq<int>>, order: seq<Cell>, par: seq<nat>, rank: map<Pos, nat>)
  {
    IsGrid(m, size) && Parented(size, order, par) && Enqueued(size, m, order) && Ranked(size, m, order, rank) &&
    |order| + Count(m, 0) == size * size
  }

  lemma {:induction false} PathToSeed(m: seq<seq<int>>, size: nat, order: seq<Cell>, par: seq<nat>,
                                      rank: map<Pos, nat>, i: nat)
    returns (path: seq<Pos>)
    requires Grown(size, m, order, par, rank) && i < |order|
    ensures IsRegionPath(m, size, path, order[i].region)
    ensures path[0] == At(order[order[i].region - 1]) && path[|path| - 1] == At(order[i])
    decreases i
  {
    if i < size {
      path := [At(order[i])];
    } else {
      var p := PathToSeed(m, size, order, par, rank, par[i]);
      path := p + [At(order[i])];
    }
  }

  /** Growing by parents keeps every region connected to its seed. */
  lemma ConnectedFromGrowth(m: seq<seq<int>>, size: nat, order: seq<Cell>, par: seq<nat>, rank: map<Pos, nat>)
    requires Grown(size, m, order, par, rank)
    ensures RegionsConnected(m, size, order[..size])
  {
    forall r, c | InBounds(size, r, c) && m[r][c] != 0
      ensures 1 <= m[r][c] <= size
      ensures exists path :: IsRegionPath(m, size, path, m[r][c]) &&
                             path[0] == At(order[..size][m[r][c] - 1]) && path[|path| - 1] == Pos(r, c)
    {
      var i := rank[Pos(r, c)];
      assert At(order[i]) == Pos(r, c) && order[i].region == m[r][c];
      var path := PathToSeed(m, size, order, par, rank, i);
      assert order[..size][m[r][c] - 1] == order[m[r][c] - 1];
      assert IsRegionPath(m, size, path, m[r][c]);
    }
  }

  // ---------------------------------------------------------------------
  // One claim

  lemma EnqueuedKeeps(size: nat, m: seq<seq<int>>, order: seq<Cell>, p: Pos, region: int)
    requires IsGrid(m, size) && Enqueued(size, m, order)
    requires InBounds(size, p.r, p.c) && m[p.r][p.c] == 0 && 1 <= region <= size
    ensures Enqueued(size, SetCell(m, p.r, p.c, region), order + [Cell(p.r, p.c, region)])
  {
    var m', order' := SetCell(m, p.r, p.c, region), order + [Cell(p.r, p.c, region)];
    forall i | 0 <= i < |order'|
      ensures InBounds(size, order'[i].r, order'[i].c) && 1 <= order'[i].region <= size &&
              m'[order'[i].r][order'[i].c] == order'[i].region
    {
      if i < |order| {
        assert order'[i] == order[i];
        assert m[order[i].r][order[i].c] != 0;
      }
    }
  }

  lemma RankedKeeps(size: nat, m: seq<seq<int>>, order: seq<Cell>, rank: map<Pos, nat>, p: Pos, region: int)
    requires IsGrid(m, size) && Ranked(size, m, order, rank) && InBounds(size, p.r, p.c)
    ensures Ranked(size, SetCell(m, p.r, p.c, region), order + [Cell(p.r, p.c, region)], rank[p := |order|])
  {
    var m', order', rank' := SetCell(m, p.r, p.c, region), order + [Cell(p.r, p.c, region)], rank[p := |order|];
    forall r, c | InBounds(size, r, c) && m'[r][c] != 0
      ensures Pos(r, c) in rank' && rank'[Pos(r, c)] < |order'| && At(order'[rank'[Pos(r, c)]]) == Pos(r, c)
    {
      if Pos(r, c) != p {
        assert m[r][c] != 0;
        assert order'[rank[Pos(r, c)]] == order[rank[Pos(r, c)]];
      }
    }
  }

  lemma ParentedKeeps(size: nat, order: seq<Cell>, par: seq<nat>, parent: nat, p: Pos)
    requires Parented(size, order, par) && parent < |order| && Adjacent4(At(order[parent]), p)
    ensures Parented(size, order + [Cell(p.r, p.c, order[parent].region)], par + [parent])
  {
    var order' := order + [Cell(p.r, p.c, order[parent].region)];
    assert forall i :: 0 <= i < |order| ==> order'[i] == order[i];
  }

  /** Claiming the `null` neighbour `p` of the popped cell `order[parent]`
      keeps the growth bookkeeping. */
  lemma ClaimKeepsGrown(size: nat, m: seq<seq<int>>, order: seq<Cell>, par: seq<nat>,
                        rank: map<Pos, nat>, parent: nat, p: Pos)
    requires Grown(size, m, order, par, rank) && parent < |order|
    requires InBounds(size, p.r, p.c) && m[p.r][p.c] == 0 && Adjacent4(At(order[parent]), p)
    ensures var region := order[parent].region;
            Grown(size, SetCell(m, p.r, p.c, region), order + [Cell(p.r, p.c, region)],
                  par + [parent], rank[p := |order|])
  {
    var region := order[parent].region;
    CountUpdate(m, p.r, p.c, region, 0);
    EnqueuedKeeps(size, m, order, p, region);
    RankedKeeps(size, m, order, rank, p, region);
    ParentedKeeps(size, order, par, parent, p);
  }

  lemma DivModInjective(a: nat, b: nat, size: nat)
    requires size > 0 && a / size == b / size && a % size == b % size
    ensures a == b
  {
    assert a == size * (a / size) + a % size;
    assert b == size * (b / size) + b % size;
  }

  lemma SquareBound(size: nat)
    ensures size <= size * size
  {
  }

  lemma DivBound(a: nat, size: nat)
    requires a < size * size
    ensures size > 0 && 0 <= a / size < size && 0 <= a % size < size
  {
  }

  /** The state of the seed loop after `i` rounds. */
  ghost predicate SeedsPlaced(size: nat, indices: seq<nat>, i: nat, m: seq<seq<int>>, seeds: seq<Cell>,
                              rank: map<Pos, nat>)
  {
    i <= size && |indices| == size * size && |seeds| == i && IsGrid(m, size) &&
    (forall j :: 0 <= j < i ==> seeds[j] == Cell(indices[j] / size, indices[j] % size, j + 1)) &&
    (forall j :: 0 <= j < i ==> InBounds(size, seeds[j].r, seeds[j].c) && m[seeds[j].r][seeds[j].c] == j + 1) &&
    (forall r, c :: InBounds(size, r, c) && m[r][c] != 0 ==>
       Pos(r, c) in rank && rank[Pos(r, c)] < i && At(seeds[rank[Pos(r, c)]]) == Pos(r, c)) &&
    i + Count(m, 0) == size * size
  }

  /** The cell of `indices[i]` is on the board and still `null` in round `i`. */
  lemma SeedCellFree(size: nat, indices: seq<nat>, i: nat, m: seq<seq<int>>, seeds: seq<Cell>, rank: map<Pos, nat>)
    requires SeedsPlaced(size, indices, i, m, seeds, rank) && i < size && Distinct(indices)
    requires forall j :: 0 <= j < |indices| ==> indices[j] < size * size
    ensures i < |indices|
    ensures var r, c := indices[i] / size, indices[i] % size;
            InBounds(size, r, c) && m[r][c] == 0
  {
    SquareBound(size);
    var idx := indices[i];
    DivBound(idx, size);
    var r, c := idx / size, idx % size;
    if m[r][c] != 0 {
      var j := rank[Pos(r, c)];
      assert seeds[j] == Cell(indices[j] / size, indices[j] % size, j + 1);
      DivModInjective(indices[j], idx, size);
      assert false;
    }
  }

  /** Round `i` appends the seed of `indices[i]`. */
  lemma SeedStepSeeds(size: nat, indices: seq<nat>, i: nat, m: seq<seq<int>>, seeds: seq<Cell>, rank: map<Pos, nat>,
                      r: nat, c: nat)
    requires SeedsPlaced(size, indices, i, m, seeds, rank) && i < size && i < |indices|
    requires r == indices[i] / size && c == indices[i] % size
    ensures forall j :: 0 <= j < i + 1 ==>
              (seeds + [Cell(r, c, i + 1)])[j] == Cell(indices[j] / size, indices[j] % size, j + 1)
  {
    forall j | 0 <= j < i + 1
      ensures (seeds + [Cell(r, c, i + 1)])[j] == Cell(indices[j] / size, indices[j] % size, j + 1)
    {
      if j < i {
        assert (seeds + [Cell(r, c, i + 1)])[j] == seeds[j];
      }
    }
  }

  /** After round `i` every seed so far, `seeds'`, holds its id in `m'`. */
  lemma SeedStepIds(size: nat, indices: seq<nat>, i: nat, m: seq<seq<int>>, seeds: seq<Cell>, rank: map<Pos, nat>,
                    r: nat, c: nat, m': seq<seq<int>>, seeds': seq<Cell>)
    requires SeedsPlaced(size, indices, i, m, seeds, rank) && i < size
    requires InBounds(size, r, c) && m[r][c] == 0
    requires m' == SetCell(m, r, c, i + 1) && seeds' == seeds + [Cell(r, c, i + 1)]
    ensures forall j :: 0 <= j < i + 1 ==> InBounds(size, seeds'[j].r, seeds'[j].c) && m'[seeds'[j].r][seeds'[j].c] == j + 1
  {
    forall j | 0 <= j < i + 1
      ensures InBounds(size, seeds'[j].r, seeds'[j].c) && m'[seeds'[j].r][seeds'[j].c] == j + 1
    {
      if j < i {
        assert seeds'[j] == seeds[j];
        assert m[seeds[j].r][seeds[j].c] == j + 1;
      }
    }
  }

  /** After round `i` every claimed cell has its rank among the seeds. */
  lemma SeedStepRank(size: nat, indices: seq<nat>, i: nat, m: seq<seq<int>>, seeds: seq<Cell>, rank: map<Pos, nat>,
                     r: nat, c: nat)
    requires SeedsPlaced(size, indices, i, m, seeds, rank) && i < size
    requires InBounds(size, r, c) && m[r][c] == 0
    ensures forall r2, c2 :: InBounds(size, r2, c2) && SetCell(m, r, c, i + 1)[r2][c2] != 0 ==>
              Pos(r2, c2) in rank[Pos(r, c) := i] && rank[Pos(r, c) := i][Pos(r2, c2)] < i + 1 &&
              At((seeds + [Cell(r, c, i + 1)])[rank[Pos(r, c) := i][Pos(r2, c2)]]) == Pos(r2, c2)
  {
    var m', seeds', rank' := SetCell(m, r, c, i + 1), seeds + [Cell(r, c, i + 1)], rank[Pos(r, c) := i];
    forall r2, c2 | InBounds(size, r2, c2) && m'[r2][c2] != 0
      ensures Pos(r2, c2) in rank' && rank'[Pos(r2, c2)] < i + 1 && At(seeds'[rank'[Pos(r2, c2)]]) == Pos(r2, c2)
    {
      if Pos(r2, c2) != Pos(r, c) {
        assert m[r2][c2] != 0;
      }
    }
  }

  /** Giving the `null` cell of `indices[i]` the id i + 1 keeps the state
      of the seed loop. */
  lemma SeedStep(size: nat, indices: seq<nat>, i: nat, m: seq<seq<int>>, seeds: seq<Cell>, rank: map<Pos, nat>,
                 r: nat, c: nat)
    requires SeedsPlaced(size, indices, i, m, seeds, rank) && i < size && i < |indices|
    requires r == indices[i] / size && c == indices[i] % size && InBounds(size, r, c) && m[r][c] == 0
    ensures SeedsPlaced(size, indices, i + 1, SetCell(m, r, c, i + 1), seeds + [Cell(r, c, i + 1)], rank[Pos(r, c) := i])
  {
    CountUpdate(m, r, c, i + 1, 0);
    SeedStepSeeds(size, indices, i, m, seeds, rank, r, c);
    SeedStepIds(size, indices, i, m, seeds, rank, r, c, SetCell(m, r, c, i + 1), seeds + [Cell(r, c, i + 1)]);
    SeedStepRank(size, indices, i, m, seeds, rank, r, c);
  }

  /** After `size` rounds the seeds start the growth bookkeeping. */
  lemma SeedsGrown(size: nat, indices: seq<nat>, m: seq<seq<int>>, seeds: seq<Cell>, rank: map<Pos, nat>)
    requires SeedsPlaced(size, indices, size, m, seeds, rank)
    ensures Grown(size, m, seeds, seq(size, _ => 0), rank)
  {
    forall i | 0 <= i < |seeds|
      ensures 1 <= seeds[i].region <= size
    {
      assert seeds[i] == Cell(indices[i] / size, indices[i] % size, i + 1);
    }
  }

  /** The seed loop of `generateRegionMap`: cell `indices[i]` (row
      `indices[i] / size`, column `indices[i] % size`) gets id i + 1. */
  method PlaceSeeds(size: nat, indices: seq<nat>)
    returns (m: seq<seq<int>>, seeds: seq<Cell>, ghost rank: map<Pos, nat>)
    requires |indices| == size * size && Distinct(indices)
    requires forall i :: 0 <= i < |indices| ==> indices[i] < size * size
    ensures Grown(size, m, seeds, seq(size, _ => 0), rank) && |seeds| == size
    ensures forall i :: 0 <= i < size ==> seeds[i] == Cell(indices[i] / size, indices[i] % size, i + 1)
  {
    m := Fill(size, 0);
    CountFill(size, 0, 0);
    seeds := [];
    rank := map[];
    for i := 0 to size
      invariant SeedsPlaced(size, indices, i, m, seeds, rank)
    {
      SeedCellFree(size, indices, i, m, seeds, rank);
      var r, c := indices[i] / size, indices[i] % size;
      SeedStep(size, indices, i, m, seeds, rank, r, c);
      m := SetCell(m, r, c, i + 1);
      seeds := seeds + [Cell(r, c, i + 1)];
      rank := rank[Pos(r, c) := i];
    }
    SeedsGrown(size, indices, m, seeds, rank);
  }

  /** The state of the loop over the neighbours of the popped cell
      `order0[pops]` after `t` of them. */
  ghost predicate Claiming(size: nat, m: seq<seq<int>>, queue: seq<Cell>, order: seq<Cell>, par: seq<nat>,
                           rank: map<Pos, nat>, order0: seq<Cell>, pops: nat, neighbours: seq<Pos>, t: nat)
  {
    Grown(size, m, order, par, rank) &&
    pops < |order0| <= |order| && order[..|order0|] == order0 && queue == order[pops + 1..] &&
    (forall i {:trigger NeighboursClaimed(m, size, order[i].r, order[i].c)} :: 0 <= i < pops ==> NeighboursClaimed(m, size, order[i].r, order[i].c)) &&
    t <= |neighbours| &&
    (forall j :: 0 <= j < |neighbours| ==>
       InBounds(size, neighbours[j].r, neighbours[j].c) && Adjacent4(At(order0[pops]), neighbours[j])) &&
    (forall j :: 0 <= j < t ==> m[neighbours[j].r][neighbours[j].c] != 0)
  }

  /** A neighbour that already has a region is skipped. */
  lemma SkipStep(size: nat, m: seq<seq<int>>, queue: seq<Cell>, order: seq<Cell>, par: seq<nat>,
                 rank: map<Pos, nat>, order0: seq<Cell>, pops: nat, neighbours: seq<Pos>, t: nat)
    requires Claiming(size, m, queue, order, par, rank, order0, pops, neighbours, t) && t < |neighbours|
    requires m[neighbours[t].r][neighbours[t].c] != 0
    ensures Claiming(size, m, queue, order, par, rank, order0, pops, neighbours, t + 1)
  {
  }

  /** A `null` neighbour takes the region of the popped cell and is
      enqueued; the loop's state is kept. */
  lemma ClaimStep(size: nat, m: seq<seq<int>>, queue: seq<Cell>, order: seq<Cell>, par: seq<nat>,
                  rank: map<Pos, nat>, order0: seq<Cell>, pops: nat, neighbours: seq<Pos>, t: nat)
    requires Claiming(size, m, queue, order, par, rank, order0, pops, neighbours, t) && t < |neighbours|
    requires m[neighbours[t].r][neighbours[t].c] == 0
    ensures var p, region := neighbours[t], order0[pops].region;
            Claiming(size, SetCell(m, p.r, p.c, region), queue + [Cell(p.r, p.c, region)],
                     order + [Cell(p.r, p.c, region)], par + [pops], rank[p := |order|],
                     order0, pops, neighbours, t + 1)
  {
    var p, region := neighbours[t], order0[pops].region;
    var x := Cell(p.r, p.c, region);
    assert order[pops] == order0[pops];
    ClaimKeepsGrown(size, m, order, par, rank, pops, p);
    AppendKeepsPrefix(order, order0, queue, pops, x);
    PoppedStayClaimed(m, size, order, pops, p, region);
    assert forall i :: 0 <= i < |order| ==> (order + [x])[i] == order[i];
    ListedStayClaimed(m, size, neighbours, t, p, region);
  }

  /** What the loop over the neighbours has changed after `t` of them: each
      new entry of `order` is one of the first `t` neighbours, was `null` in
      `m0` and was enqueued by the popped cell `pops` with its region; the
      only cells that changed are such neighbours, now holding that region. */
  ghost predicate ClaimedFrom(size: nat, m0: seq<seq<int>>, m: seq<seq<int>>, order0: seq<Cell>, order: seq<Cell>,
                              par: seq<nat>, pops: nat, region: int, neighbours: seq<Pos>, t: nat)
  {
    IsGrid(m0, size) && IsGrid(m, size) && |order0| <= |order| && |par| == |order| && t <= |neighbours| &&
    (forall i :: |order0| <= i < |order| ==>
       par[i] == pops && order[i].region == region && At(order[i]) in neighbours[..t] &&
       InBounds(size, order[i].r, order[i].c) && m0[order[i].r][order[i].c] == 0) &&
    (forall r, c :: InBounds(size, r, c) && m[r][c] != m0[r][c] ==>
       m0[r][c] == 0 && m[r][c] == region && Pos(r, c) in neighbours[..t])
  }

  /** A skipped neighbour changes nothing. */
  lemma ClaimedFromSkip(size: nat, m0: seq<seq<int>>, m: seq<seq<int>>, order0: seq<Cell>, order: seq<Cell>,
                        par: seq<nat>, pops: nat, region: int, neighbours: seq<Pos>, t: nat)
    requires ClaimedFrom(size, m0, m, order0, order, par, pops, region, neighbours, t) && t < |neighbours|
    ensures ClaimedFrom(size, m0, m, order0, order, par, pops, region, neighbours, t + 1)
  {
    assert neighbours[..t + 1] == neighbours[..t] + [neighbours[t]];
  }

  /** A claimed neighbour was `null` in `m0` and is the one new entry. */
  lemma ClaimedFromClaim(size: nat, m0: seq<seq<int>>, m: seq<seq<int>>, order0: seq<Cell>, order: seq<Cell>,
                         par: seq<nat>, pops: nat, region: int, neighbours: seq<Pos>, t: nat)
    requires ClaimedFrom(size, m0, m, order0, order, par, pops, region, neighbours, t) && t < |neighbours|
    requires InBounds(size, neighbours[t].r, neighbours[t].c) && m[neighbours[t].r][neighbours[t].c] == 0
    requires region != 0
    ensures var p := neighbours[t];
            ClaimedFrom(size, m0, SetCell(m, p.r, p.c, region), order0, order + [Cell(p.r, p.c, region)],
                        par + [pops], pops, region, neighbours, t + 1)
  {
    var p := neighbours[t];
    var x := Cell(p.r, p.c, region);
    assert neighbours[..t + 1] == neighbours[..t] + [p];
    assert m0[p.r][p.c] == 0;
    forall i | |order0| <= i < |order| + 1
      ensures (par + [pops])[i] == pops && (order + [x])[i].region == region &&
              At((order + [x])[i]) in neighbours[..t + 1] &&
              InBounds(size, (order + [x])[i].r, (order + [x])[i].c) && m0[(order + [x])[i].r][(order + [x])[i].c] == 0
    {
      if i < |order| {
        assert (order + [x])[i] == order[i];
      }
    }
  }

  /** The whole state of the loop over the neighbours after `t` of them. */
  ghost predicate ClaimLoop(size: nat, m0: seq<seq<int>>, m: seq<seq<int>>, queue: seq<Cell>, order0: seq<Cell>,
                            order: seq<Cell>, par: seq<nat>, rank: map<Pos, nat>, pops: nat, neighbours: seq<Pos>, t: nat)
  {
    Claiming(size, m, queue, order, par, rank, order0, pops, neighbours, t) &&
    ClaimedFrom(size, m0, m, order0, order, par, pops, order0[pops].region, neighbours, t)
  }

  /** Skipping a claimed neighbour keeps the loop state. */
  lemma ClaimLoopSkip(size: nat, m0: seq<seq<int>>, m: seq<seq<int>>, queue: seq<Cell>, order0: seq<Cell>,
                      order: seq<Cell>, par: seq<nat>, rank: map<Pos, nat>, pops: nat, neighbours: seq<Pos>, t: nat)
    requires ClaimLoop(size, m0, m, queue, order0, order, par, rank, pops, neighbours, t) && t < |neighbours|
    requires m[neighbours[t].r][neighbours[t].c] != 0
    ensures ClaimLoop(size, m0, m, queue, order0, order, par, rank, pops, neighbours, t + 1)
  {
    SkipStep(size, m, queue, order, par, rank, order0, pops, neighbours, t);
    ClaimedFromSkip(size, m0, m, order0, order, par, pops, order0[pops].region, neighbours, t);
  }

  /** Claiming a `null` neighbour keeps the loop state. */
  lemma ClaimLoopClaim(size: nat, m0: seq<seq<int>>, m: seq<seq<int>>, queue: seq<Cell>, order0: seq<Cell>,
                       order: seq<Cell>, par: seq<nat>, rank: map<Pos, nat>, pops: nat, neighbours: seq<Pos>, t: nat)
    requires ClaimLoop(size, m0, m, queue, order0, order, par, rank, pops, neighbours, t) && t < |neighbours|
    requires m[neighbours[t].r][neighbours[t].c] == 0
    ensures var p, region := neighbours[t], order0[pops].region;
            ClaimLoop(size, m0, SetCell(m, p.r, p.c, region), queue + [Cell(p.r, p.c, region)], order0,
                      order + [Cell(p.r, p.c, region)], par + [pops], rank[p := |order|], pops, neighbours, t + 1)
  {
    var region := order0[pops].region;
    assert order[pops] == order0[pops];
    assert region != 0;
    ClaimedFromClaim(size, m0, m, order0, order, par, pops, region, neighbours, t);
    ClaimStep(size, m, queue, order, par, rank, order0, pops, neighbours, t);
  }

  /** Before the first neighbour: nothing has changed. */
  lemma ClaimLoopStarts(size: nat, m0: seq<seq<int>>, queue0: seq<Cell>, order0: seq<Cell>, par0: seq<nat>,
                        rank0: map<Pos, nat>, pops: nat, neighbours: seq<Pos>)
    requires Grown(size, m0, order0, par0, rank0)
    requires pops < |order0| && queue0 == order0[pops + 1..]
    requires forall i {:trigger NeighboursClaimed(m0, size, order0[i].r, order0[i].c)} :: 0 <= i < pops ==> NeighboursClaimed(m0, size, order0[i].r, order0[i].c)
    requires forall j :: 0 <= j < |neighbours| ==>
               InBounds(size, neighbours[j].r, neighbours[j].c) && Adjacent4(At(order0[pops]), neighbours[j])
    ensures ClaimLoop(size, m0, m0, queue0, order0, order0, par0, rank0, pops, neighbours, 0)
  {
    assert order0[..|order0|] == order0;
  }

  /** After the last neighbour: the contract of `ClaimNeighbours`. */
  lemma ClaimLoopDone(size: nat, m0: seq<seq<int>>, m: seq<seq<int>>, queue: seq<Cell>, order0: seq<Cell>,
                      order: seq<Cell>, par: seq<nat>, rank: map<Pos, nat>, pops: nat, neighbours: seq<Pos>)
    requires ClaimLoop(size, m0, m, queue, order0, order, par, rank, pops, neighbours, |neighbours|)
    ensures Grown(size, m, order, par, rank)
    ensures |order0| <= |order| && order[..|order0|] == order0 && queue == order[pops + 1..]
    ensures forall i {:trigger NeighboursClaimed(m, size, order[i].r, order[i].c)} :: 0 <= i < pops ==> NeighboursClaimed(m, size, order[i].r, order[i].c)
    ensures forall j :: 0 <= j < |neighbours| ==> m[neighbours[j].r][neighbours[j].c] != 0
    ensures ClaimedFrom(size, m0, m, order0, order, par, pops, order0[pops].region, neighbours, |neighbours|)
  {
  }

  lemma AppendKeepsPrefix(order: seq<Cell>, order0: seq<Cell>, queue: seq<Cell>, pops: nat, x: Cell)
    requires pops < |order0| <= |order| && order[..|order0|] == order0 && queue == order[pops + 1..]
    ensures (order + [x])[..|order0|] == order0 && queue + [x] == (order + [x])[pops + 1..]
  {
    assert (order + [x])[..|order|] == order;
  }

  /** Claiming a cell keeps the neighbours of the popped cells claimed. */
  lemma PoppedStayClaimed(m: seq<seq<int>>, size: nat, order: seq<Cell>, pops: nat, p: Pos, region: int)
    requires IsGrid(m, size) && InBounds(size, p.r, p.c) && region != 0 && pops <= |order|
    requires forall i :: 0 <= i < |order| ==> InBounds(size, order[i].r, order[i].c)
    requires forall i {:trigger NeighboursClaimed(m, size, order[i].r, order[i].c)} ::
               0 <= i < pops ==> NeighboursClaimed(m, size, order[i].r, order[i].c)
    ensures forall i {:trigger NeighboursClaimed(SetCell(m, p.r, p.c, region), size, order[i].r, order[i].c)} ::
              0 <= i < pops ==> NeighboursClaimed(SetCell(m, p.r, p.c, region), size, order[i].r, order[i].c)
  {
    forall i | 0 <= i < pops
      ensures NeighboursClaimed(SetCell(m, p.r, p.c, region), size, order[i].r, order[i].c)
    {
      assert NeighboursClaimed(m, size, order[i].r, order[i].c);
    }
  }

  /** Claiming neighbour `t` adds it to the claimed prefix of the list. */
  lemma ListedStayClaimed(m: seq<seq<int>>, size: nat, neighbours: seq<Pos>, t: nat, p: Pos, region: int)
    requires IsGrid(m, size) && t < |neighbours| && p == neighbours[t] && InBounds(size, p.r, p.c) && region != 0
    requires forall j :: 0 <= j < |neighbours| ==>
               InBounds(size, neighbours[j].r, neighbours[j].c) && (j < t ==> m[neighbours[j].r][neighbours[j].c] != 0)
    ensures forall j :: 0 <= j < |neighbours| ==>
              InBounds(size, neighbours[j].r, neighbours[j].c) &&
              (j < t + 1 ==> SetCell(m, p.r, p.c, region)[neighbours[j].r][neighbours[j].c] != 0)
  {
  }

  /** The loop `for (let n of neighbors)` for the popped cell `order[pops]`:
      each still-`null` neighbour gets the cell's region and is enqueued. */
  method ClaimNeighbours(size: nat, m0: seq<seq<int>>, queue0: seq<Cell>, cell: Cell, neighbours: seq<Pos>,
                         ghost order0: seq<Cell>, ghost par0: seq<nat>, ghost rank0: map<Pos, nat>,
                         ghost pops: nat)
    returns (m: seq<seq<int>>, queue: seq<Cell>,
             ghost order: seq<Cell>, ghost par: seq<nat>, ghost rank: map<Pos, nat>)
    requires Grown(size, m0, order0, par0, rank0)
    requires pops < |order0| && order0[pops] == cell && queue0 == order0[pops + 1..]
    requires forall i {:trigger NeighboursClaimed(m0, size, order0[i].r, order0[i].c)} :: 0 <= i < pops ==> NeighboursClaimed(m0, size, order0[i].r, order0[i].c)
    requires forall j :: 0 <= j < |neighbours| ==>
               InBounds(size, neighbours[j].r, neighbours[j].c) && Adjacent4(At(cell), neighbours[j])
    ensures Grown(size, m, order, par, rank)
    ensures |order0| <= |order| && order[..|order0|] == order0 && queue == order[pops + 1..]
    ensures forall i {:trigger NeighboursClaimed(m, size, order[i].r, order[i].c)} :: 0 <= i < pops ==> NeighboursClaimed(m, size, order[i].r, order[i].c)
    ensures forall j :: 0 <= j < |neighbours| ==> m[neighbours[j].r][neighbours[j].c] != 0
    ensures ClaimedFrom(size, m0, m, order0, order, par, pops, cell.region, neighbours, |neighbours|)
  {
    m, queue, order, par, rank := m0, queue0, order0, par0, rank0;
    var region := cell.region;
    ClaimLoopStarts(size, m0, queue0, order0, par0, rank0, pops, neighbours);
    for t := 0 to |neighbours|
      invariant ClaimLoop(size, m0, m, queue, order0, order, par, rank, pops, neighbours, t)
    {
      var p := neighbours[t];
      if m[p.r][p.c] == 0 {
        ClaimLoopClaim(size, m0, m, queue, order0, order, par, rank, pops, neighbours, t);
        m := SetCell(m, p.r, p.c, region);
        queue := queue + [Cell(p.r, p.c, region)];
        rank := rank[p := |order|];
        order := order + [Cell(p.r, p.c, region)];
        par := par + [pops];
      } else {
        ClaimLoopSkip(size, m0, m, queue, order0, order, par, rank, pops, neighbours, t);
      }
    }
    ClaimLoopDone(size, m0, m, queue, order0, order, par, rank, pops, neighbours);
  }


  /** The state of the queue loop of `generateRegionMap` after `pops`
      shifts: the queue is the unpopped tail of `order`, and every popped
      cell has its neighbours claimed. */
  ghost predicate Flooding(size: nat, m: seq<seq<int>>, queue: seq<Cell>, order: seq<Cell>, par: seq<nat>,
                           rank: map<Pos, nat>, seeds: seq<Cell>, pops: nat)
  {
    Grown(size, m, order, par, rank) && order[..size] == seeds &&
    pops <= |order| && queue == order[pops..] &&
    (forall i {:trigger NeighboursClaimed(m, size, order[i].r, order[i].c)} :: 0 <= i < pops ==> NeighboursClaimed(m, size, order[i].r, order[i].c))
  }

  /** The neighbours list built for a popped cell: up, down, left, right,
      each only when it lies on the board. */
  method CollectNeighbours(size: nat, cell: Cell) returns (neighbours: seq<Pos>)
    requires InBounds(size, cell.r, cell.c)
    ensures forall j :: 0 <= j < |neighbours| ==>
              InBounds(size, neighbours[j].r, neighbours[j].c) && Adjacent4(At(cell), neighbours[j])
    ensures forall q: Pos :: InBounds(size, q.r, q.c) && Adjacent4(At(cell), q) ==> q in neighbours
  {
    neighbours := [];
    if cell.r > 0 { neighbours := neighbours + [Pos(cell.r - 1, cell.c)]; }
    if cell.r < size - 1 { neighbours := neighbours + [Pos(cell.r + 1, cell.c)]; }
    if cell.c > 0 { neighbours := neighbours + [Pos(cell.r, cell.c - 1)]; }
    if cell.c < size - 1 { neighbours := neighbours + [Pos(cell.r, cell.c + 1)]; }
  }

  /** The shuffled neighbours list holds the same cells as the list built. */
  lemma SameNeighbours(size: nat, cell: Cell, neighbours: seq<Pos>, shuffled: seq<Pos>)
    requires multiset(shuffled) == multiset(neighbours)
    requires forall j :: 0 <= j < |neighbours| ==>
               InBounds(size, neighbours[j].r, neighbours[j].c) && Adjacent4(At(cell), neighbours[j])
    requires forall q: Pos :: InBounds(size, q.r, q.c) && Adjacent4(At(cell), q) ==> q in neighbours
    ensures forall j :: 0 <= j < |shuffled| ==>
              InBounds(size, shuffled[j].r, shuffled[j].c) && Adjacent4(At(cell), shuffled[j])
    ensures forall q: Pos :: InBounds(size, q.r, q.c) && Adjacent4(At(cell), q) ==> q in shuffled
  {
    forall j | 0 <= j < |shuffled|
      ensures InBounds(size, shuffled[j].r, shuffled[j].c) && Adjacent4(At(cell), shuffled[j])
    {
      assert shuffled[j] in multiset(neighbours);
    }
    forall q: Pos | InBounds(size, q.r, q.c) && Adjacent4(At(cell), q)
      ensures q in shuffled
    {
      assert q in multiset(shuffled);
    }
  }

  /** A cell whose every on-board 4-neighbour is in a list of claimed
      cells has its neighbours claimed. */
  lemma ListedNeighboursClaimed(m: seq<seq<int>>, size: nat, cell: Cell, listed: seq<Pos>)
    requires IsGrid(m, size) && InBounds(size, cell.r, cell.c)
    requires forall j :: 0 <= j < |listed| ==>
               InBounds(size, listed[j].r, listed[j].c) && m[listed[j].r][listed[j].c] != 0
    requires forall q: Pos :: InBounds(size, q.r, q.c) && Adjacent4(At(cell), q) ==> q in listed
    ensures NeighboursClaimed(m, size, cell.r, cell.c)
  {
    forall q: Pos | InBounds(size, q.r, q.c) && Adjacent4(At(cell), q)
      ensures m[q.r][q.c] != 0
    {
      var j :| 0 <= j < |listed| && listed[j] == q;
    }
    if cell.r > 0 { assert Adjacent4(At(cell), Pos(cell.r - 1, cell.c)); }
    if cell.r < size - 1 { assert Adjacent4(At(cell), Pos(cell.r + 1, cell.c)); }
    if cell.c > 0 { assert Adjacent4(At(cell), Pos(cell.r, cell.c - 1)); }
    if cell.c < size - 1 { assert Adjacent4(At(cell), Pos(cell.r, cell.c + 1)); }
  }

  /** After the popped cell's neighbours are all claimed, the queue loop's
      state holds with one more shift. */
  lemma PopKeepsFlooding(size: nat, order0: seq<Cell>, seeds: seq<Cell>, pops: nat,
                         m: seq<seq<int>>, queue: seq<Cell>, order: seq<Cell>, par: seq<nat>, rank: map<Pos, nat>)
    requires pops < |order0| && size <= |order0| && order0[..size] == seeds
    requires Grown(size, m, order, par, rank)
    requires |order0| <= |order| && order[..|order0|] == order0 && queue == order[pops + 1..]
    requires forall i {:trigger NeighboursClaimed(m, size, order[i].r, order[i].c)} :: 0 <= i < pops ==> NeighboursClaimed(m, size, order[i].r, order[i].c)
    requires NeighboursClaimed(m, size, order0[pops].r, order0[pops].c)
    ensures Flooding(size, m, queue, order, par, rank, seeds, pops + 1)
  {
    PrefixOfPrefix(order, order0, size, pops);
  }

  lemma PrefixOfPrefix<T>(s: seq<T>, s0: seq<T>, k: nat, i: nat)
    requires k <= |s0| <= |s| && i < |s0| && s[..|s0|] == s0
    ensures s[..k] == s0[..k] && s[i] == s0[i]
  {
    assert s[..k] == s[..|s0|][..k];
    assert s[i] == s[..|s0|][i];
  }

  /** The queue loop starts with the seeds enqueued and none popped. */
  lemma FloodingStarts(size: nat, m: seq<seq<int>>, seeds: seq<Cell>, par: seq<nat>, rank: map<Pos, nat>)
    requires Grown(size, m, seeds, par, rank) && |seeds| == size
    ensures Flooding(size, m, seeds, seeds, par, rank, seeds, 0)
  {
    assert seeds[..size] == seeds;
  }

  /** No more cells are popped than the board holds. */
  lemma FloodingBound(size: nat, m: seq<seq<int>>, queue: seq<Cell>, order: seq<Cell>, par: seq<nat>,
                      rank: map<Pos, nat>, seeds: seq<Cell>, pops: nat)
    requires Flooding(size, m, queue, order, par, rank, seeds, pops)
    ensures pops <= size * size
  {
  }

  /** A drained queue leaves the claimed cells closed under adjacency; as
      the seeds are claimed, every cell is. */
  lemma DrainedIsFull(size: nat, m: seq<seq<int>>, order: seq<Cell>, par: seq<nat>, rank: map<Pos, nat>,
                      seeds: seq<Cell>)
    requires Flooding(size, m, [], order, par, rank, seeds, |order|)
    ensures forall r, c :: InBounds(size, r, c) ==> 1 <= m[r][c] <= size
    ensures |order| == size * size
    ensures |seeds| == size
    ensures forall i :: 0 <= i < size ==>
              InBounds(size, seeds[i].r, seeds[i].c) && m[seeds[i].r][seeds[i].c] == i + 1
  {
    forall r, c | InBounds(size, r, c) && m[r][c] != 0
      ensures NeighboursClaimed(m, size, r, c)
    {
      assert order[rank[Pos(r, c)]].r == r && order[rank[Pos(r, c)]].c == c;
    }
    if size > 0 {
      ClosedIsFull(m, size, order[0].r, order[0].c);
    }
    CountNone(m, 0);
    forall r, c | InBounds(size, r, c)
      ensures 1 <= m[r][c] <= size
    {
      assert order[rank[Pos(r, c)]].region == m[r][c];
    }
    forall i | 0 <= i < size
      ensures InBounds(size, seeds[i].r, seeds[i].c) && m[seeds[i].r][seeds[i].c] == i + 1
    {
      assert seeds[i] == order[i];
    }
  }

  /** The cell indices 0 .. size * size - 1, shuffled. */
  method ShuffledIndices(size: nat, rng: Rng, k0: nat) returns (indices: seq<nat>, k: nat)
    ensures |indices| == size * size && Distinct(indices)
    ensures forall i :: 0 <= i < |indices| ==> indices[i] < size * size
  {
    var a := new nat[size * size](i => i);
    ghost var initial := a[..];
    ShuffledPermutes(initial, rng, k0);
    k := ShuffleArray(a, rng, k0);
    ShuffledDistinct(initial, rng, k0);
    indices := a[..];
    forall i | 0 <= i < |indices|
      ensures indices[i] < size * size
    {
      assert indices[i] in multiset(initial);
    }
  }

  /** After a pop, the queue is the old queue without its head, followed by
      the cells enqueued during the round. */
  lemma PopExtendsQueue(order0: seq<Cell>, order: seq<Cell>, pops: nat, queue0: seq<Cell>, queue: seq<Cell>)
    requires pops < |order0| <= |order| && order[..|order0|] == order0
    requires queue0 == order0[pops..] && queue == order[pops + 1..]
    ensures queue == queue0[1..] + order[|order0|..]
  {
    assert order[pops + 1..] == order[pops + 1..|order0|] + order[|order0|..];
    assert order[pops + 1..|order0|] == order[..|order0|][pops + 1..];
  }

  /** The cells a round changes are `null` side neighbours of the popped
      cell, now holding its region. */
  lemma ClaimedAreNeighbours(size: nat, m0: seq<seq<int>>, m: seq<seq<int>>, order0: seq<Cell>, order: seq<Cell>,
                             par: seq<nat>, pops: nat, cell: Cell, neighbours: seq<Pos>)
    requires ClaimedFrom(size, m0, m, order0, order, par, pops, cell.region, neighbours, |neighbours|)
    requires forall j :: 0 <= j < |neighbours| ==> Adjacent4(At(cell), neighbours[j])
    ensures forall r, c :: InBounds(size, r, c) && m[r][c] != m0[r][c] ==>
              m0[r][c] == 0 && m[r][c] == cell.region && Adjacent4(At(cell), Pos(r, c))
  {
    assert neighbours[..|neighbours|] == neighbours;
  }

  /** One round of the queue loop of `generateRegionMap`: shift the first
      cell, list and shuffle its neighbours and claim the `null` ones; the
      popped cell then has all its neighbours claimed. */
  method PopAndClaim(size: nat, rng: Rng, k0: nat, m0: seq<seq<int>>, queue0: seq<Cell>,
                     ghost order0: seq<Cell>, ghost par0: seq<nat>, ghost rank0: map<Pos, nat>,
                     ghost seeds: seq<Cell>, ghost pops: nat)
    returns (m: seq<seq<int>>, queue: seq<Cell>, k: nat,
             ghost order: seq<Cell>, ghost par: seq<nat>, ghost rank: map<Pos, nat>)
    requires Flooding(size, m0, queue0, order0, par0, rank0, seeds, pops) && |queue0| > 0
    ensures Flooding(size, m, queue, order, par, rank, seeds, pops + 1)
    ensures |order0| <= |order| && order[..|order0|] == order0
    ensures queue == queue0[1..] + order[|order0|..]
    ensures forall r, c :: InBounds(size, r, c) && m[r][c] != m0[r][c] ==>
              m0[r][c] == 0 && m[r][c] == queue0[0].region && Adjacent4(At(queue0[0]), Pos(r, c))
  {
    var cell := queue0[0];
    queue := queue0[1..];
    var neighbours := CollectNeighbours(size, cell);
    var arr := new Pos[|neighbours|](i requires 0 <= i < |neighbours| => neighbours[i]);
    assert arr[..] == neighbours;
    ShuffledPermutes(neighbours, rng, k0);
    k := ShuffleArray(arr, rng, k0);
    var shuffled := arr[..];
    SameNeighbours(size, cell, neighbours, shuffled);
    m, queue, order, par, rank := ClaimNeighbours(size, m0, queue, cell, shuffled, order0, par0, rank0, pops);
    ListedNeighboursClaimed(m, size, cell, shuffled);
    PopKeepsFlooding(size, order0, seeds, pops, m, queue, order, par, rank);
    PopExtendsQueue(order0, order, pops, queue0, queue);
    ClaimedAreNeighbours(size, m0, m, order0, order, par, pops, cell, shuffled);
  }

  /** The loop `while (queue.length > 0)` of `generateRegionMap`, from the
      seeds on: it stops once every enqueued cell has been popped. */
  method DrainQueue(size: nat, rng: Rng, k0: nat, m0: seq<seq<int>>, queue0: seq<Cell>,
                    ghost order0: seq<Cell>, ghost par0: seq<nat>, ghost rank0: map<Pos, nat>,
                    ghost seeds: seq<Cell>)
    returns (m: seq<seq<int>>, k: nat, ghost order: seq<Cell>, ghost par: seq<nat>, ghost rank: map<Pos, nat>,
             ghost pops: nat)
    requires Flooding(size, m0, queue0, order0, par0, rank0, seeds, 0)
    ensures Flooding(size, m, [], order, par, rank, seeds, pops) && pops == |order|
  {
    m, k, order, par, rank := m0, k0, order0, par0, rank0;
    var queue := queue0;
    pops := 0;
    while |queue| > 0
      invariant Flooding(size, m, queue, order, par, rank, seeds, pops)
      decreases size * size - pops
    {
      m, queue, k, order, par, rank := PopAndClaim(size, rng, k, m, queue, order, par, rank, seeds, pops);
      FloodingBound(size, m, queue, order, par, rank, seeds, pops + 1);
      pops := pops + 1;
    }
  }

  /** `generateRegionMap(size)`. The seeds are returned as the ghost
      `seeds`; `pops` counts the queue's `shift`s. */
  method GenerateRegionMap(size: nat, rng: Rng, k0: nat)
    returns (m: seq<seq<int>>, k: nat, ghost seeds: seq<Cell>, ghost pops: nat)
    ensures IsGrid(m, size)
    ensures forall r, c :: InBounds(size, r, c) ==> 1 <= m[r][c] <= size
    ensures |seeds| == size
    ensures forall i :: 0 <= i < size ==>
              InBounds(size, seeds[i].r, seeds[i].c) && m[seeds[i].r][seeds[i].c] == i + 1
    ensures RegionsConnected(m, size, seeds)
    ensures pops == size * size
  {
    var indices;
    indices, k := ShuffledIndices(size, rng, k0);
    var seedList;
    ghost var rank;
    m, seedList, rank := PlaceSeeds(size, indices);
    seeds := seedList;

    ghost var order := seedList;
    ghost var par: seq<nat> := seq(size, _ => 0);
    FloodingStarts(size, m, seedList, par, rank);
    m, k, order, par, rank, pops := DrainQueue(size, rng, k, m, seedList, order, par, rank, seeds);
    DrainedIsFull(size, m, order, par, rank, seeds);
    ConnectedFromGrowth(m, size, order, par, rank);
  }
}
