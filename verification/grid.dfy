/** The grid model shared by both variants of the Queens engine: square
    grids of cells, boards of crowns, region maps, counting, and the
    read-only scans that both `isValidMove`s and both win checks perform. */
module Grid {

  /** A cell coordinate: row `r`, column `c`. */
  datatype Pos = Pos(r: int, c: int)

  /** A board: `true` is a crown ("👑"), `false` an empty cell (`null`). */
  type Board = seq<seq<bool>>

  datatype Option<T> = None | Some(value: T)

  /** The source of `Math.random`: `rng(k)` is the k-th draw, and
      `Math.floor(Math.random() * m)` at that draw is `rng(k) % m`. */
  type Rng = nat -> nat

  /** A JavaScript two-dimensional array passed by reference and written
      in place (`sol` in `backtrack`, `tempBoard` in `solveBoard`). */
  class BoardBuffer {
    var cells: Board

    constructor (init: Board)
      ensures cells == init
    {
      cells := init;
    }
  }

  predicate IsGrid<T>(g: seq<seq<T>>, n: nat) {
    |g| == n && forall r :: 0 <= r < n ==> |g[r]| == n
  }

  predicate InBounds(n: nat, r: int, c: int) {
    0 <= r < n && 0 <= c < n
  }

  /** `Array.from({length: n}, () => Array(n).fill(v))` */
  function Fill<T>(n: nat, v: T): (g: seq<seq<T>>)
    ensures IsGrid(g, n)
    ensures forall r, c :: InBounds(n, r, c) ==> g[r][c] == v
  {
    seq(n, _ => seq(n, _ => v))
  }

  /** The grid after the assignment `g[r][c] = v`. */
  function SetCell<T>(g: seq<seq<T>>, r: nat, c: nat, v: T): (h: seq<seq<T>>)
    requires r < |g| && c < |g[r]|
    ensures |h| == |g| && forall i :: 0 <= i < |g| ==> |h[i]| == |g[i]|
    ensures h[r][c] == v
    ensures forall i :: 0 <= i < |g| && i != r ==> h[i] == g[i]
    ensures forall i, j :: 0 <= i < |g| && 0 <= j < |g[i]| && (i != r || j != c) ==> h[i][j] == g[i][j]
  {
    g[r := g[r][c := v]]
  }

  /** Writing a cell and then writing its old value back restores the grid. */
  lemma SetCellUndo<T>(g: seq<seq<T>>, r: nat, c: nat, v: T)
    requires r < |g| && c < |g[r]|
    ensures SetCell(SetCell(g, r, c, v), r, c, g[r][c]) == g
  {
    assert SetCell(SetCell(g, r, c, v), r, c, g[r][c])[r] == g[r];
  }

  /** Two n-by-n grids that agree on every cell are equal. */
  lemma GridExtensional<T>(a: seq<seq<T>>, b: seq<seq<T>>, n: nat)
    requires IsGrid(a, n) && IsGrid(b, n)
    requires forall r, c :: InBounds(n, r, c) ==> a[r][c] == b[r][c]
    ensures a == b
  {
    forall r | 0 <= r < n
      ensures a[r] == b[r]
    {
      assert forall c :: 0 <= c < n ==> a[r][c] == b[r][c];
    }
  }

  // ---------------------------------------------------------------------
  // Counting cells

  /** The number of cells of `row` equal to `v`. */
  function RowCount<T(==)>(row: seq<T>, v: T): (k: nat)
    ensures k <= |row|
  {
    if row == [] then 0
    else RowCount(row[..|row| - 1], v) + (if row[|row| - 1] == v then 1 else 0)
  }

  /** The number of cells of `g` equal to `v`, counted row by row. */
  function Count<T(==)>(g: seq<seq<T>>, v: T): nat {
    if g == [] then 0 else Count(g[..|g| - 1], v) + RowCount(g[|g| - 1], v)
  }

  lemma {:induction false} RowCountUpdate<T>(row: seq<T>, c: nat, x: T, v: T)
    requires c < |row|
    ensures RowCount(row[c := x], v)
         == RowCount(row, v) - (if row[c] == v then 1 else 0) + (if x == v then 1 else 0)
  {
    var last := |row| - 1;
    if c == last {
      assert row[c := x][..last] == row[..last];
    } else {
      assert row[c := x][..last] == row[..last][c := x];
      RowCountUpdate(row[..last], c, x, v);
    }
  }

  /** Writing `x` into one cell moves that cell from the count of its old
      value to the count of `x`, and changes no other count. */
  lemma {:induction false} CountUpdate<T>(g: seq<seq<T>>, r: nat, c: nat, x: T, v: T)
    requires r < |g| && c < |g[r]|
    ensures Count(SetCell(g, r, c, x), v)
         == Count(g, v) - (if g[r][c] == v then 1 else 0) + (if x == v then 1 else 0)
  {
    var h := SetCell(g, r, c, x);
    var last := |g| - 1;
    if r == last {
      assert h[..last] == g[..last];
      RowCountUpdate(g[r], c, x, v);
    } else {
      assert h[..last] == SetCell(g[..last], r, c, x);
      CountUpdate(g[..last], r, c, x, v);
    }
  }

  lemma CountUpdateAll<T>(g: seq<seq<T>>, r: nat, c: nat, x: T)
    requires r < |g| && c < |g[r]|
    ensures forall v ::
              Count(SetCell(g, r, c, x), v)
              == Count(g, v) - (if g[r][c] == v then 1 else 0) + (if x == v then 1 else 0)
  {
    forall v
      ensures Count(SetCell(g, r, c, x), v)
           == Count(g, v) - (if g[r][c] == v then 1 else 0) + (if x == v then 1 else 0)
    {
      CountUpdate(g, r, c, x, v);
    }
  }

  lemma {:induction false} RowCountUniform<T>(row: seq<T>, x: T, v: T)
    requires forall i :: 0 <= i < |row| ==> row[i] == x
    ensures RowCount(row, v) == if x == v then |row| else 0
  {
    if row != [] {
      RowCountUniform(row[..|row| - 1], x, v);
    }
  }

  /** In a grid whose every cell holds `x`, `x` fills every cell and no
      other value occurs. */
  lemma {:induction false} CountUniform<T>(g: seq<seq<T>>, w: nat, x: T, v: T)
    requires forall r :: 0 <= r < |g| ==> |g[r]| == w
    requires forall r, c :: 0 <= r < |g| && 0 <= c < w ==> g[r][c] == x
    ensures Count(g, v) == if x == v then |g| * w else 0
  {
    if g != [] {
      var last := |g| - 1;
      CountUniform(g[..last], w, x, v);
      RowCountUniform(g[last], x, v);
      assert last * w + w == |g| * w;
    }
  }

  lemma CountFill<T>(n: nat, x: T, v: T)
    ensures Count(Fill(n, x), v) == if x == v then n * n else 0
  {
    CountUniform(Fill(n, x), n, x, v);
  }

  lemma {:induction false} RowCountNone<T>(row: seq<T>, v: T)
    requires forall i :: 0 <= i < |row| ==> row[i] != v
    ensures RowCount(row, v) == 0
  {
    if row != [] {
      RowCountNone(row[..|row| - 1], v);
    }
  }

  /** A grid with no cell equal to `v` counts no `v`. */
  lemma {:induction false} CountNone<T>(g: seq<seq<T>>, v: T)
    requires forall r, c :: 0 <= r < |g| && 0 <= c < |g[r]| ==> g[r][c] != v
    ensures Count(g, v) == 0
  {
    if g != [] {
      CountNone(g[..|g| - 1], v);
      RowCountNone(g[|g| - 1], v);
    }
  }

  /** A grid whose every row holds exactly one `v` holds `|g|` of them. */
  lemma {:induction false} CountOnePerRow<T>(g: seq<seq<T>>, v: T)
    requires forall r :: 0 <= r < |g| ==> RowCount(g[r], v) == 1
    ensures Count(g, v) == |g|
  {
    if g != [] {
      CountOnePerRow(g[..|g| - 1], v);
    }
  }

  lemma {:induction false} RowCountSubset(p: seq<bool>, s: seq<bool>)
    requires |p| == |s|
    requires forall i :: 0 <= i < |p| && p[i] ==> s[i]
    ensures RowCount(p, true) <= RowCount(s, true)
  {
    if p != [] {
      RowCountSubset(p[..|p| - 1], s[..|s| - 1]);
    }
  }

  /** A board whose crowns are all crowns of `s` has at most as many. */
  lemma {:induction false} CountSubset(p: Board, s: Board)
    requires |p| == |s| && forall r :: 0 <= r < |p| ==> |p[r]| == |s[r]|
    requires forall r, c :: 0 <= r < |p| && 0 <= c < |p[r]| && p[r][c] ==> s[r][c]
    ensures Count(p, true) <= Count(s, true)
  {
    if p != [] {
      var last := |p| - 1;
      CountSubset(p[..last], s[..last]);
      RowCountSubset(p[last], s[last]);
    }
  }

  lemma {:induction false} RowCountEmpty(row: seq<bool>)
    requires forall i :: 0 <= i < |row| ==> !row[i]
    ensures RowCount(row, true) == 0
  {
    RowCountUniform(row, false, true);
  }

  /** Crowning one cell of an empty row leaves exactly one crown in it. */
  lemma RowCountSingle(row: seq<bool>, c: nat)
    requires c < |row|
    requires forall i :: 0 <= i < |row| ==> !row[i]
    ensures RowCount(row[c := true], true) == 1
  {
    RowCountEmpty(row);
    RowCountUpdate(row, c, true, true);
  }

  // ---------------------------------------------------------------------
  // Adjacency

  /** 4-adjacency: the two cells share a side. */
  predicate Adjacent4(p: Pos, q: Pos) {
    (p.r == q.r && (p.c == q.c + 1 || q.c == p.c + 1)) ||
    (p.c == q.c && (p.r == q.r + 1 || q.r == p.r + 1))
  }

  /** 8-adjacency: (r, c) is one of the eight cells around (row, col). */
  predicate Touching(row: int, col: int, r: int, c: int) {
    row - 1 <= r <= row + 1 && col - 1 <= c <= col + 1 && (r != row || c != col)
  }

  // ---------------------------------------------------------------------
  // Read-only scans shared by the variants

  /** Scan of column `col` over rows 0..k-1 for a crown. */
  function ColumnFree(b: Board, col: nat, k: nat): (free: bool)
    requires k <= |b| && forall r :: 0 <= r < k ==> col < |b[r]|
    ensures free <==> forall r :: 0 <= r < k ==> !b[r][col]
  {
    k == 0 || (ColumnFree(b, col, k - 1) && !b[k - 1][col])
  }

  /** Scan of columns 0..k-1 of row `r` for a crown in region `id`. */
  function RegionRowFree(b: Board, regions: seq<seq<int>>, id: int, n: nat, r: nat, k: nat): (free: bool)
    requires IsGrid(b, n) && IsGrid(regions, n) && r < n && k <= n
    ensures free <==> forall c :: 0 <= c < k ==> !(regions[r][c] == id && b[r][c])
  {
    k == 0 || (RegionRowFree(b, regions, id, n, r, k - 1) && !(regions[r][k - 1] == id && b[r][k - 1]))
  }

  /** Scan of rows 0..k-1 for a crown in region `id`. */
  function RegionFree(b: Board, regions: seq<seq<int>>, id: int, n: nat, k: nat): (free: bool)
    requires IsGrid(b, n) && IsGrid(regions, n) && k <= n
    ensures free <==> forall r, c :: 0 <= r < k && 0 <= c < n ==> !(regions[r][c] == id && b[r][c])
  {
    k == 0 || (RegionFree(b, regions, id, n, k - 1) && RegionRowFree(b, regions, id, n, k - 1, n))
  }

  /** Cell-by-cell comparison over rows 0..k-1, as both win checks do. */
  function CellsEqual<T(==)>(a: seq<seq<T>>, b: seq<seq<T>>, n: nat, k: nat): (same: bool)
    requires IsGrid(a, n) && IsGrid(b, n) && k <= n
    ensures same <==> forall r, c :: 0 <= r < k && 0 <= c < n ==> a[r][c] == b[r][c]
  {
    k == 0 || (CellsEqual(a, b, n, k - 1) && RowEqual(a[k - 1], b[k - 1], n))
  }

  function RowEqual<T(==)>(x: seq<T>, y: seq<T>, k: nat): (same: bool)
    requires k <= |x| && k <= |y|
    ensures same <==> forall c :: 0 <= c < k ==> x[c] == y[c]
  {
    k == 0 || (RowEqual(x, y, k - 1) && x[k - 1] == y[k - 1])
  }

  /** The full scan of two n-by-n grids is exactly grid equality. */
  lemma CellsEqualIsEquality<T>(a: seq<seq<T>>, b: seq<seq<T>>, n: nat)
    requires IsGrid(a, n) && IsGrid(b, n)
    ensures CellsEqual(a, b, n, n) <==> a == b
  {
    if CellsEqual(a, b, n, n) {
      GridExtensional(a, b, n);
    }
  }
}
