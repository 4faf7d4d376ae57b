/**
 * 2024 day 12, "Garden Groups": a garden of plant letters is split into
 * regions, the maximal 4-connected groups of equal letters, by a
 * depth-first flood fill that shares one visited table.  Part 1 prices
 * every region at area times perimeter, part 2 at area times the number
 * of corners of its outline.
 */
module GardenGroups {
  import opened Common

  /** One row of plant letters per whitespace-separated word of the input. */
  type Garden = seq<seq<char>>

  /** A cell, row first. */
  datatype Index = Index(row: int, col: int)

  /** The cells of one region, in the order the flood fill reaches them. */
  type Region = seq<Index>

  /** Result of a flood fill: the cells it added and the visited table after it. */
  datatype Explored = Explored(region: Region, visited: set<Index>)

  /** Linear search of a vector. */
  function Contains<T(==)>(s: seq<T>, v: T): (r: bool)
    ensures r <==> v in s
  {
    if |s| == 0 then false else s[0] == v || Contains(s[1..], v)
  }

  /** Half-open range test. */
  predicate IsValueInRange(value: int, lo: int, hi: int)
  {
    value >= lo && value < hi
  }

  /**
   * The visited table is `|g|` by `|g|`, so the program reads only
   * `g[i][j]` with `i, j < |g|`; on a row shorter than `|g|` that read is
   * undefined behaviour.  A square garden is wide.
   */
  predicate Wide(g: Garden)
  {
    forall i :: 0 <= i < |g| ==> |g[i]| >= |g|
  }

  /** `z` is a cell of the `n` by `n` visited table. */
  predicate InGrid(n: int, z: Index)
  {
    IsValueInRange(z.row, 0, n) && IsValueInRange(z.col, 0, n)
  }

  /** The plant at `z`; cells outside the rows are never read on a wide garden. */
  function Plant(g: Garden, z: Index): char
  {
    if 0 <= z.row < |g| && 0 <= z.col < |g[z.row]| then g[z.row][z.col] else ' '
  }

  /** Every cell of the `n` by `n` table. */
  function Cells(n: nat): (r: set<Index>)
    ensures forall z :: z in r <==> InGrid(n, z)
  {
    var r := set i, j | 0 <= i < n && 0 <= j < n :: Index(i, j);
    assert forall z :: InGrid(n, z) ==> z == Index(z.row, z.col);
    r
  }

  /** The flood fill's offsets: up, left, right, down. */
  function Neighbour(z: Index, m: nat): Index
    requires m < 4
  {
    if m == 0 then Index(z.row - 1, z.col)
    else if m == 1 then Index(z.row, z.col - 1)
    else if m == 2 then Index(z.row, z.col + 1)
    else Index(z.row + 1, z.col)
  }

  /** `a` and `b` share a side. */
  predicate Adjacent(a: Index, b: Index)
  {
    (a.row == b.row && (a.col - b.col == 1 || b.col - a.col == 1)) ||
    (a.col == b.col && (a.row - b.row == 1 || b.row - a.row == 1))
  }

  /** The offsets reach exactly the cells that share a side. */
  lemma NeighbourAdjacent(z: Index, m: nat)
    requires m < 4
    ensures Adjacent(z, Neighbour(z, m))
  {
  }

  /** The offset that leads from `a` to the adjacent cell `b`. */
  function DirTo(a: Index, b: Index): (m: nat)
    requires Adjacent(a, b)
    ensures m < 4 && Neighbour(a, m) == b
  {
    if b.row == a.row - 1 then 0
    else if b.col == a.col - 1 then 1
    else if b.col == a.col + 1 then 2
    else 3
  }

  /** Offset `m` from `z` stays in the garden and finds the same plant. */
  predicate Joins(g: Garden, z: Index, m: nat)
    requires m < 4
  {
    InGrid(|g|, Neighbour(z, m)) && Plant(g, Neighbour(z, m)) == Plant(g, z)
  }

  /** A walk through the garden over side-sharing cells of one plant. */
  ghost predicate Walk(g: Garden, p: seq<Index>)
  {
    |p| > 0 &&
    (forall k :: 0 <= k < |p| ==> InGrid(|g|, p[k]) && Plant(g, p[k]) == Plant(g, p[0])) &&
    (forall k :: 0 <= k < |p| - 1 ==> Adjacent(p[k], p[k + 1]))
  }

  /** `b` is in the region of `a`. */
  ghost predicate Connected(g: Garden, a: Index, b: Index)
  {
    exists p :: Walk(g, p) && p[0] == a && p[|p| - 1] == b
  }

  /** No cell of `s` has a same-plant neighbour outside `s`. */
  predicate Closed(g: Garden, s: set<Index>)
  {
    forall z, m :: z in s && 0 <= m < 4 && Joins(g, z, m) ==> Neighbour(z, m) in s
  }

  /** `r` is a whole region: its cells are exactly those connected to its first. */
  ghost predicate IsComponent(g: Garden, r: Region)
  {
    |r| > 0 && forall z :: z in r <==> InGrid(|g|, z) && Connected(g, r[0], z)
  }

  lemma ConnectedSelf(g: Garden, a: Index)
    requires InGrid(|g|, a)
    ensures Connected(g, a, a)
  {
    assert Walk(g, [a]);
  }

  /** A walk can be extended at its front by a neighbour of the same plant. */
  lemma ConnectedPrepend(g: Garden, a: Index, b: Index, c: Index)
    requires InGrid(|g|, a) && Adjacent(a, b) && Plant(g, a) == Plant(g, b)
    requires Connected(g, b, c)
    ensures Connected(g, a, c)
  {
    var p :| Walk(g, p) && p[0] == b && p[|p| - 1] == c;
    var q := [a] + p;
    assert q[1..] == p;
    assert Walk(g, q);
  }

  /** A walk can be extended at its end by a neighbour of the same plant. */
  lemma ConnectedAppend(g: Garden, a: Index, b: Index, c: Index)
    requires Connected(g, a, b)
    requires InGrid(|g|, c) && Adjacent(b, c) && Plant(g, c) == Plant(g, b)
    ensures Connected(g, a, c)
  {
    var p :| Walk(g, p) && p[0] == a && p[|p| - 1] == b;
    var q := p + [c];
    assert Walk(g, q);
  }

  /** A walk that starts in a closed set stays in it. */
  lemma {:induction false} ClosedForward(g: Garden, s: set<Index>, p: seq<Index>)
    requires Closed(g, s) && Walk(g, p) && p[0] in s
    ensures p[|p| - 1] in s
    decreases |p|
  {
    if |p| > 1 {
      var q := p[..|p| - 1];
      assert Walk(g, q);
      ClosedForward(g, s, q);
      var a, b := p[|p| - 2], p[|p| - 1];
      assert Adjacent(a, b);
      var m := DirTo(a, b);
      assert Joins(g, a, m);
    }
  }

  /** A walk that ends in a closed set lies in it from the start. */
  lemma {:induction false} ClosedBackward(g: Garden, s: set<Index>, p: seq<Index>)
    requires Closed(g, s) && Walk(g, p) && p[|p| - 1] in s
    ensures p[0] in s
    decreases |p|
  {
    if |p| > 1 {
      var q := p[1..];
      assert Walk(g, q);
      ClosedBackward(g, s, q);
      var a, b := p[1], p[0];
      assert Adjacent(b, a);
      var m := DirTo(a, b);
      assert Joins(g, a, m);
    }
  }

  /** Shrinking set differences, for the flood fill's termination. */
  lemma {:induction false} SubsetCard(a: set<Index>, b: set<Index>)
    requires a <= b
    ensures |a| <= |b|
    decreases |a|
  {
    if a != {} {
      var x :| x in a;
      SubsetCard(a - {x}, b - {x});
    }
  }

  lemma Unvisited(c: set<Index>, vis: set<Index>, more: set<Index>)
    requires vis <= more
    ensures |c - more| <= |c - vis|
  {
    SubsetCard(c - more, c - vis);
  }

  lemma UnvisitedMark(c: set<Index>, vis: set<Index>, x: Index)
    requires x in c && x !in vis
    ensures |c - (vis + {x})| < |c - vis|
  {
    assert c - vis == (c - (vis + {x})) + {x};
  }

  lemma {:induction false} DistinctConcat(a: seq<Index>, b: seq<Index>)
    requires Distinct(a) && Distinct(b)
    requires forall z :: z in a ==> z !in b
    ensures Distinct(a + b)
  {
    var s := a + b;
    forall i, j | 0 <= i < j < |s|
      ensures s[i] != s[j]
    {
      if j < |a| {
        assert s[i] == a[i] && s[j] == a[j];
      } else if i >= |a| {
        assert s[i] == b[i - |a|] && s[j] == b[j - |a|];
      } else {
        assert s[i] == a[i] && s[j] == b[j - |a|];
        assert a[i] in a && b[j - |a|] in b;
      }
    }
  }

  /**
   * ExploreRegion from `x`, which is unvisited: the region starts at `x`,
   * marks it and then explores the neighbours.  The region is the set of
   * cells this call marks, each once, all of `x`'s plant and connected to
   * it, and every same-plant neighbour of them is marked afterwards.
   */
  function ExploreRegion(g: Garden, x: Index, vis: set<Index>): (r: Explored)
    requires Wide(g) && InGrid(|g|, x) && x !in vis && vis <= Cells(|g|)
    ensures vis <= r.visited <= Cells(|g|)
    ensures forall z :: z in r.region <==> z in r.visited && z !in vis
    ensures Distinct(r.region) && |r.region| > 0 && r.region[0] == x
    ensures forall z :: z in r.region ==> Plant(g, z) == Plant(g, x) && Connected(g, x, z)
    ensures forall z, m :: z in r.region && 0 <= m < 4 && Joins(g, z, m) ==> Neighbour(z, m) in r.visited
    decreases |Cells(|g|) - vis|, 0
  {
    UnvisitedMark(Cells(|g|), vis, x);
    ConnectedSelf(g, x);
    var rest := ExploreFrom(g, x, 0, vis + {x});
    Explored([x] + rest.region, rest.visited)
  }

  /** The loop over the offsets of ExploreRegion, from offset `m` on. */
  function ExploreFrom(g: Garden, x: Index, m: nat, vis: set<Index>): (r: Explored)
    requires Wide(g) && InGrid(|g|, x) && x in vis && vis <= Cells(|g|) && m <= 4
    ensures vis <= r.visited <= Cells(|g|)
    ensures forall z :: z in r.region <==> z in r.visited && z !in vis
    ensures Distinct(r.region)
    ensures forall z :: z in r.region ==> Plant(g, z) == Plant(g, x) && Connected(g, x, z)
    ensures forall z, d :: z in r.region && 0 <= d < 4 && Joins(g, z, d) ==> Neighbour(z, d) in r.visited
    ensures forall d :: m <= d < 4 && Joins(g, x, d) ==> Neighbour(x, d) in r.visited
    decreases |Cells(|g|) - vis|, 4 - m
  {
    if m == 4 then Explored([], vis)
    else
      var y := Neighbour(x, m);
      if IsValueInRange(y.row, 0, |g|) && IsValueInRange(y.col, 0, |g|) && y !in vis
        && g[x.row][x.col] == g[y.row][y.col]
      then
        var sub := ExploreRegion(g, y, vis);
        Unvisited(Cells(|g|), vis, sub.visited);
        var rest := ExploreFrom(g, x, m + 1, sub.visited);
        JoinSubregion(g, x, m, vis, sub, rest);
        Explored(sub.region + rest.region, rest.visited)
      else
        ExploreFrom(g, x, m + 1, vis)
  }

  /** The facts ExploreFrom needs when it appends a subregion found through offset `m`. */
  lemma JoinSubregion(g: Garden, x: Index, m: nat, vis: set<Index>, sub: Explored, rest: Explored)
    requires InGrid(|g|, x) && m < 4 && Joins(g, x, m)
    requires vis <= sub.visited <= rest.visited <= Cells(|g|)
    requires Neighbour(x, m) in sub.region
    requires forall z :: z in sub.region <==> z in sub.visited && z !in vis
    requires forall z :: z in rest.region <==> z in rest.visited && z !in sub.visited
    requires Distinct(sub.region) && Distinct(rest.region)
    requires forall z :: z in sub.region ==> Plant(g, z) == Plant(g, Neighbour(x, m)) && Connected(g, Neighbour(x, m), z)
    requires forall z :: z in rest.region ==> Plant(g, z) == Plant(g, x) && Connected(g, x, z)
    requires forall z, d :: z in sub.region && 0 <= d < 4 && Joins(g, z, d) ==> Neighbour(z, d) in sub.visited
    requires forall z, d :: z in rest.region && 0 <= d < 4 && Joins(g, z, d) ==> Neighbour(z, d) in rest.visited
    requires forall d :: m + 1 <= d < 4 && Joins(g, x, d) ==> Neighbour(x, d) in rest.visited
    ensures var r := Explored(sub.region + rest.region, rest.visited);
      && (forall z :: z in r.region <==> z in r.visited && z !in vis)
      && Distinct(r.region)
      && (forall z :: z in r.region ==> Plant(g, z) == Plant(g, x) && Connected(g, x, z))
      && (forall z, d :: z in r.region && 0 <= d < 4 && Joins(g, z, d) ==> Neighbour(z, d) in r.visited)
      && (forall d :: m <= d < 4 && Joins(g, x, d) ==> Neighbour(x, d) in r.visited)
  {
    var y := Neighbour(x, m);
    NeighbourAdjacent(x, m);
    DistinctConcat(sub.region, rest.region);
    forall z | z in sub.region
      ensures Connected(g, x, z)
    {
      ConnectedPrepend(g, x, y, z);
    }
  }

  /** After a flood fill from an unvisited cell of a closed table, the table is closed again. */
  lemma ExploredClosed(g: Garden, vis: set<Index>, r: Explored)
    requires Closed(g, vis) && vis <= r.visited
    requires forall z :: z in r.region <==> z in r.visited && z !in vis
    requires forall z, m :: z in r.region && 0 <= m < 4 && Joins(g, z, m) ==> Neighbour(z, m) in r.visited
    ensures Closed(g, r.visited)
  {
  }

  /**
   * A flood fill started outside a closed visited table returns the whole
   * region of its start: the cells connected to the start reach neither
   * back into the table nor out of the new one.
   */
  lemma RegionIsComponent(g: Garden, x: Index, vis: set<Index>, r: Explored)
    requires Closed(g, vis) && x !in vis && vis <= r.visited <= Cells(|g|)
    requires Closed(g, r.visited)
    requires forall z :: z in r.region <==> z in r.visited && z !in vis
    requires |r.region| > 0 && r.region[0] == x
    requires forall z :: z in r.region ==> Connected(g, x, z)
    ensures IsComponent(g, r.region)
  {
    forall z | InGrid(|g|, z) && Connected(g, x, z)
      ensures z in r.region
    {
      var p :| Walk(g, p) && p[0] == x && p[|p| - 1] == z;
      ClosedForward(g, r.visited, p);
      if z in vis {
        ClosedBackward(g, vis, p);
      }
    }
  }

  /** Row-major order of the scan: `z` comes before cell `(i, j)`. */
  predicate Before(z: Index, i: int, j: int)
  {
    z.row < i || (z.row == i && z.col < j)
  }

  /**
   * The two loops of FindRegions from cell `(i, j)` on: every cell still
   * unvisited starts a new region.  The regions found cover the unvisited
   * cells once each, and each is a whole region.
   */
  function Scan(g: Garden, i: int, j: int, vis: set<Index>): (rs: seq<Region>)
    requires Wide(g) && 0 <= i <= |g| && 0 <= j <= |g| && vis <= Cells(|g|) && Closed(g, vis)
    requires forall z :: InGrid(|g|, z) && Before(z, i, j) ==> z in vis
    ensures forall z :: z in Flatten(rs) <==> InGrid(|g|, z) && z !in vis
    ensures Distinct(Flatten(rs))
    ensures forall k :: 0 <= k < |rs| ==> IsComponent(g, rs[k])
    decreases |g| - i, |g| - j
  {
    assert forall z :: InGrid(|g|, z) && Before(z, i, j) ==> z in vis;
    if i == |g| then
      assert forall z :: InGrid(|g|, z) ==> Before(z, i, j);
      []
    else if j == |g| then
      assert forall z :: InGrid(|g|, z) && Before(z, i + 1, 0) ==> Before(z, i, j);
      Scan(g, i + 1, 0, vis)
    else if Index(i, j) in vis then
      assert forall z :: Before(z, i, j + 1) ==> Before(z, i, j) || z == Index(i, j);
      Scan(g, i, j + 1, vis)
    else
      var ex := ExploreRegion(g, Index(i, j), vis);
      assert forall z :: Before(z, i, j + 1) ==> Before(z, i, j) || z == Index(i, j);
      ExploredClosed(g, vis, ex);
      RegionIsComponent(g, Index(i, j), vis, ex);
      var rest := Scan(g, i, j + 1, ex.visited);
      ScanStep(g, vis, ex, rest);
      [ex.region] + rest
  }

  /** The facts Scan needs when it puts a new region before the rest. */
  lemma ScanStep(g: Garden, vis: set<Index>, ex: Explored, rest: seq<Region>)
    requires vis <= ex.visited
    requires forall z :: z in ex.region <==> z in ex.visited && z !in vis
    requires Distinct(ex.region) && Distinct(Flatten(rest))
    requires forall z :: z in Flatten(rest) <==> InGrid(|g|, z) && z !in ex.visited
    ensures Flatten([ex.region] + rest) == ex.region + Flatten(rest)
    ensures Distinct(Flatten([ex.region] + rest))
  {
    assert ([ex.region] + rest)[1..] == rest;
    DistinctConcat(ex.region, Flatten(rest));
  }

  /**
   * FindRegions: on a wide garden the regions partition the `|g|` by `|g|`
   * cells, every cell in exactly one region, and each region is the set of
   * cells connected to its first cell.
   */
  function FindRegions(g: Garden): (rs: seq<Region>)
    requires Wide(g)
    ensures forall z :: z in Flatten(rs) <==> InGrid(|g|, z)
    ensures Distinct(Flatten(rs))
    ensures forall k :: 0 <= k < |rs| ==> IsComponent(g, rs[k])
  {
    Scan(g, 0, 0, {})
  }

  /** The fence sides CalculatePerimeterOfRegion counts at one cell: up, right, down, left. */
  function CellPerimeter(g: Garden, z: Index): (r: nat)
    requires Wide(g) && InGrid(|g|, z)
    ensures r <= 4
  {
    var p := g[z.row][z.col];
    (if 0 == z.row || p != g[z.row - 1][z.col] then 1 else 0) +
    (if |g| - 1 == z.col || p != g[z.row][z.col + 1] then 1 else 0) +
    (if |g| - 1 == z.row || p != g[z.row + 1][z.col] then 1 else 0) +
    (if 0 == z.col || p != g[z.row][z.col - 1] then 1 else 0)
  }

  /** CalculatePerimeterOfRegion over the cells `cells`. */
  function Perimeter(g: Garden, cells: Region): nat
    requires Wide(g) && forall z :: z in cells ==> InGrid(|g|, z)
  {
    if |cells| == 0 then 0 else CellPerimeter(g, cells[0]) + Perimeter(g, cells[1..])
  }

  /** Sides of `z` whose neighbouring cell is not in `r`. */
  function Sides(r: Region, z: Index): nat
  {
    (if Neighbour(z, 0) !in r then 1 else 0) + (if Neighbour(z, 1) !in r then 1 else 0) +
    (if Neighbour(z, 2) !in r then 1 else 0) + (if Neighbour(z, 3) !in r then 1 else 0)
  }

  /** The length of the outline of `r`, side by side: cells of `cells` facing out of `r`. */
  function Fence(r: Region, cells: Region): nat
  {
    if |cells| == 0 then 0 else Sides(r, cells[0]) + Fence(r, cells[1..])
  }

  /** On a whole region a cell's count is the number of its sides that face out of the region. */
  lemma CellPerimeterCountsSides(g: Garden, r: Region, z: Index)
    requires Wide(g) && IsComponent(g, r) && z in r
    ensures CellPerimeter(g, z) == Sides(r, z)
  {
    assert Connected(g, r[0], z);
    var p := g[z.row][z.col];
    assert Plant(g, z) == p;
    forall m | 0 <= m < 4
      ensures Neighbour(z, m) in r <==> Joins(g, z, m)
    {
      var y := Neighbour(z, m);
      NeighbourAdjacent(z, m);
      if Joins(g, z, m) {
        ConnectedAppend(g, r[0], z, y);
      }
      if y in r {
        assert Connected(g, r[0], y);
        var w :| Walk(g, w) && w[0] == r[0] && w[|w| - 1] == y;
        var v :| Walk(g, v) && v[0] == r[0] && v[|v| - 1] == z;
      }
    }
  }

  /** Over a whole region, the count of CalculatePerimeterOfRegion is the length of its outline. */
  lemma {:induction false} PerimeterIsFence(g: Garden, r: Region, cells: Region)
    requires Wide(g) && IsComponent(g, r) && forall z :: z in cells ==> z in r
    ensures Perimeter(g, cells) == Fence(r, cells)
    decreases |cells|
  {
    if |cells| > 0 {
      CellPerimeterCountsSides(g, r, cells[0]);
      PerimeterIsFence(g, r, cells[1..]);
    }
  }

  /** Area times perimeter, summed over `rs`. */
  function Price(g: Garden, rs: seq<Region>): nat
    requires Wide(g) && forall k, z :: 0 <= k < |rs| && z in rs[k] ==> InGrid(|g|, z)
  {
    if |rs| == 0 then 0 else |rs[0]| * Perimeter(g, rs[0]) + Price(g, rs[1..])
  }

  /** Area times outline length, summed over `rs`. */
  function FencePrice(rs: seq<Region>): nat
  {
    if |rs| == 0 then 0 else |rs[0]| * Fence(rs[0], rs[0]) + FencePrice(rs[1..])
  }

  lemma {:induction false} PriceIsFencePrice(g: Garden, rs: seq<Region>)
    requires Wide(g) && forall k :: 0 <= k < |rs| ==> IsComponent(g, rs[k])
    ensures forall k, z :: 0 <= k < |rs| && z in rs[k] ==> InGrid(|g|, z)
    ensures Price(g, rs) == FencePrice(rs)
    decreases |rs|
  {
    if |rs| > 0 {
      assert forall k :: 0 <= k < |rs| - 1 ==> rs[1..][k] == rs[k + 1];
      PriceIsFencePrice(g, rs[1..]);
      PerimeterIsFence(g, rs[0], rs[0]);
    }
  }

  /** Day12Part1: the price of every region is its area times its perimeter. */
  function Day12Part1(g: Garden): (price: nat)
    requires Wide(g)
    ensures price == FencePrice(FindRegions(g))
  {
    var rs := FindRegions(g);
    PriceIsFencePrice(g, rs);
    Price(g, rs)
  }

  /**
   * The corners GetPerimeterPoints counts at cell `z` of `r`: an outer
   * corner where both sides towards a diagonal are missing, an inner one
   * where both are present but the diagonal cell is not.
   */
  function CellCorners(r: Region, z: Index): (n: nat)
    ensures n <= 4
  {
    var x, y := z.row, z.col;
    (if !Contains(r, Index(x - 1, y)) && !Contains(r, Index(x, y - 1)) then 1 else 0) +
    (if !Contains(r, Index(x + 1, y)) && !Contains(r, Index(x, y - 1)) then 1 else 0) +
    (if !Contains(r, Index(x - 1, y)) && !Contains(r, Index(x, y + 1)) then 1 else 0) +
    (if !Contains(r, Index(x + 1, y)) && !Contains(r, Index(x, y + 1)) then 1 else 0) +
    (if Contains(r, Index(x - 1, y)) && Contains(r, Index(x, y - 1)) && !Contains(r, Index(x - 1, y - 1)) then 1 else 0) +
    (if Contains(r, Index(x + 1, y)) && Contains(r, Index(x, y - 1)) && !Contains(r, Index(x + 1, y - 1)) then 1 else 0) +
    (if Contains(r, Index(x - 1, y)) && Contains(r, Index(x, y + 1)) && !Contains(r, Index(x - 1, y + 1)) then 1 else 0) +
    (if Contains(r, Index(x + 1, y)) && Contains(r, Index(x, y + 1)) && !Contains(r, Index(x + 1, y + 1)) then 1 else 0)
  }

  /** GetPerimeterPoints of `r` over the cells `cells`. */
  function Corners(r: Region, cells: Region): (n: nat)
    ensures n <= 4 * |cells|
  {
    if |cells| == 0 then 0 else CellCorners(r, cells[0]) + Corners(r, cells[1..])
  }

  function GetPerimeterPoints(r: Region): (n: nat)
    ensures n <= 4 * |r|
  {
    Corners(r, r)
  }

  /** A lone plot has four corners, one towards each diagonal. */
  lemma SingleCellCorners(z: Index)
    ensures GetPerimeterPoints([z]) == 4
  {
    assert [z][1..] == [];
  }

  /** A straight bar of two plots still has four corners. */
  lemma DominoCorners(x: int, y: int)
    ensures GetPerimeterPoints([Index(x, y), Index(x, y + 1)]) == 4
  {
    var r := [Index(x, y), Index(x, y + 1)];
    assert r[1..] == [r[1]] && r[1..][1..] == [];
    assert CellCorners(r, r[0]) == 2 && CellCorners(r, r[1]) == 2;
    assert Corners(r, r[1..]) == 2;
  }

  /** An L of three plots has six corners, one of them inner. */
  lemma ElbowCorners(x: int, y: int)
    ensures GetPerimeterPoints([Index(x, y), Index(x, y + 1), Index(x + 1, y)]) == 6
  {
    var r := [Index(x, y), Index(x, y + 1), Index(x + 1, y)];
    assert r[1..] == [r[1], r[2]] && r[1..][1..] == [r[2]] && r[1..][1..][1..] == [];
    assert CellCorners(r, r[0]) == 2 && CellCorners(r, r[1]) == 2 && CellCorners(r, r[2]) == 2;
    assert Corners(r, r[1..][1..]) == 2;
    assert Corners(r, r[1..]) == 4;
  }

  /** Area times corner count, summed over `rs`. */
  function BulkPrice(rs: seq<Region>): nat
  {
    if |rs| == 0 then 0 else |rs[0]| * GetPerimeterPoints(rs[0]) + BulkPrice(rs[1..])
  }

  /** The sum of the squared areas of `rs`. */
  function SquaredAreas(rs: seq<Region>): nat
  {
    if |rs| == 0 then 0 else |rs[0]| * |rs[0]| + SquaredAreas(rs[1..])
  }

  /** Each plot adds at most four corners, so no region costs more than four times its area squared. */
  lemma {:induction false} BulkPriceBound(rs: seq<Region>)
    ensures BulkPrice(rs) <= 4 * SquaredAreas(rs)
    decreases |rs|
  {
    if |rs| > 0 {
      BulkPriceBound(rs[1..]);
      var n := |rs[0]|;
      MulMono(n, 4 * n, GetPerimeterPoints(rs[0]));
      assert n * (4 * n) == 4 * (n * n);
    }
  }

  /** Day12Part2: area times corner count over the regions of FindRegions. */
  function Day12Part2(g: Garden): (price: nat)
    requires Wide(g)
    ensures price <= 4 * SquaredAreas(FindRegions(g))
  {
    var rs := FindRegions(g);
    BulkPriceBound(rs);
    BulkPrice(rs)
  }
}
