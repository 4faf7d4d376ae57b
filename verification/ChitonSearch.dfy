/**
 * `MinimumCostPath` of Chiton (2021 day 15): Dijkstra's algorithm over
 * either grid, with a binary heap of (cost so far, row, column) entries
 * and a table `dist` of the best cost found for each cell, started at
 * `LLONG_MAX`.  Entries are never removed when a better one is pushed;
 * a stale entry is popped and expanded like any other.
 *
 * The heap is modelled as a sequence from which an entry of least cost is
 * taken; which one of several equal entries the heap yields is left open.
 */
module ChitonSearch {

  import opened Common
  import opened Decimal
  import opened Chiton

  /** `std::numeric_limits<long long>::max()`, the unvisited distance. */
  const Inf: int := 0x7FFF_FFFF_FFFF_FFFF

  /** `PriorityQueuElement`: the cost of reaching a cell, and the cell. */
  datatype Entry = Entry(cost: int, row: int, col: int)

  /** The state of the search: the distance table and the heap's entries. */
  datatype Search = Search(dist: seq<seq<int>>, queue: seq<Entry>)

  /** The cell an entry is for. */
  function CellOf(e: Entry): (int, int)
  {
    (e.row, e.col)
  }

  // ---------------------------------------------------------------------
  // Tables of one number per cell

  /** The table has one row per row of the field and one column per column. */
  predicate Shaped(f: Field, d: seq<seq<int>>)
  {
    Rect(d, RowCount(f), ColumnCount(f))
  }

  /** The table entry for a cell; 0 off the table. */
  function Get(d: seq<seq<int>>, v: (int, int)): int
  {
    if 0 <= v.0 < |d| && 0 <= v.1 < |d[v.0]| then d[v.0][v.1] else 0
  }

  /** The table with the entry for `v` replaced by `x`. */
  function Put(d: seq<seq<int>>, v: (int, int), x: int): (r: seq<seq<int>>)
    requires 0 <= v.0 < |d| && 0 <= v.1 < |d[v.0]|
    ensures |r| == |d| && forall i :: 0 <= i < |d| ==> |r[i]| == |d[i]|
    ensures forall w: (int, int) :: Get(r, w) == if w == v then x else Get(d, w)
  {
    d[v.0 := d[v.0][v.1 := x]]
  }

  /** `vector<vector<long long>>(rows, vector<long long>(cols, x))`. */
  function Fill(rows: nat, cols: nat, x: int): (r: seq<seq<int>>)
    ensures Rect(r, rows, cols)
    ensures forall w: (int, int) :: 0 <= w.0 < rows && 0 <= w.1 < cols ==> Get(r, w) == x
  {
    seq(rows, _ => seq(cols, _ => x))
  }

  /** The sum of the row sums; it falls each time a distance is lowered. */
  function DistSum(d: seq<seq<int>>): int
  {
    Sum(RowSums(d))
  }

  /** The sum of each row. */
  function RowSums(d: seq<seq<int>>): (r: seq<int>)
    ensures |r| == |d| && forall i :: 0 <= i < |d| ==> r[i] == Sum(d[i])
  {
    seq(|d|, i requires 0 <= i < |d| => Sum(d[i]))
  }

  /** Replacing one entry changes the sum by the difference. */
  lemma DistSumPut(d: seq<seq<int>>, v: (int, int), x: int)
    requires 0 <= v.0 < |d| && 0 <= v.1 < |d[v.0]|
    ensures DistSum(Put(d, v, x)) == DistSum(d) - Get(d, v) + x
  {
    var r := Put(d, v, x);
    SumUpdate(d[v.0], v.1, x);
    SumUpdate(RowSums(d), v.0, Sum(d[v.0][v.1 := x]));
    assert RowSums(r) == RowSums(d)[v.0 := Sum(d[v.0][v.1 := x])];
  }

  /** A table of entries of at least 0 sums to at least 0. */
  lemma DistSumNonNegative(d: seq<seq<int>>)
    requires forall i, j :: 0 <= i < |d| && 0 <= j < |d[i]| ==> d[i][j] >= 0
    ensures DistSum(d) >= 0
  {
    forall i | 0 <= i < |d|
      ensures Sum(d[i]) >= 0
    {
      SumNonNegative(d[i]);
    }
    SumNonNegative(RowSums(d));
  }

  // ---------------------------------------------------------------------
  // One step of the search

  /** `kDirectionsOffsets`: up, left, right, down, in that order. */
  function Offset(m: nat): (int, int)
    requires m < 4
  {
    if m == 0 then (-1, 0) else if m == 1 then (0, -1) else if m == 2 then (0, 1) else (1, 0)
  }

  /** The cell the `m`-th offset leads to from `u`. */
  function Neighbour(u: (int, int), m: nat): (int, int)
    requires m < 4
  {
    (u.0 + Offset(m).0, u.1 + Offset(m).1)
  }

  /** The four offsets lead to exactly the cells next to `u`. */
  lemma NeighbourAdjacent(u: (int, int), v: (int, int))
    ensures Adjacent(u, v) <==> exists m :: 0 <= m < 4 && Neighbour(u, m) == v
  {
    if Adjacent(u, v) {
      if v == Neighbour(u, 0) {
      } else if v == Neighbour(u, 1) {
      } else if v == Neighbour(u, 2) {
      } else {
        assert v == Neighbour(u, 3);
      }
    }
  }

  /**
   * One pass of the loop over `kDirectionsOffsets`, from `u` popped at
   * `cost`: a neighbour inside the grid whose distance the step through
   * `u` lowers gets the lower distance and a heap entry of `cost` plus
   * its risk.  `None` where reading the neighbour throws.
   */
  function Relax(f: Field, s: Search, u: (int, int), cost: int, m: nat): (r: Option<Search>)
    requires m < 4 && Shaped(f, s.dist) && InField(f, u)
    ensures r.None? <==> InField(f, Neighbour(u, m)) && At(f, Neighbour(u, m).0, Neighbour(u, m).1).None?
    ensures r.Some? ==> Shaped(f, r.value.dist)
  {
    var v := Neighbour(u, m);
    if IsValInRange(v.0, 0, RowCount(f)) && IsValInRange(v.1, 0, ColumnCount(f)) then
      match At(f, v.0, v.1)
      case None => None
      case Some(w) =>
        if Get(s.dist, u) + w < Get(s.dist, v) then
          Some(Search(Put(s.dist, v, Get(s.dist, u) + w), s.queue + [Entry(w + cost, v.0, v.1)]))
        else Some(s)
    else Some(s)
  }

  /** The passes of the loop over `kDirectionsOffsets` from the `m`-th on. */
  function ExpandFrom(f: Field, s: Search, u: (int, int), cost: int, m: nat): (r: Option<Search>)
    requires m <= 4 && Shaped(f, s.dist) && InField(f, u)
    decreases 4 - m
  {
    if m == 4 then Some(s)
    else match Relax(f, s, u, cost, m)
      case None => None
      case Some(s1) => ExpandFrom(f, s1, u, cost, m + 1)
  }

  /** The heap with the entry at `k` popped. */
  function RemoveAt(q: seq<Entry>, k: nat): (r: seq<Entry>)
    requires k < |q|
    ensures |r| == |q| - 1
    ensures forall e :: e in q && e != q[k] ==> e in r
    ensures forall e :: e in r ==> e in q
  {
    q[..k] + q[k + 1..]
  }

  /** `q[k]` has the least cost, as `top()` of a min-heap does. */
  predicate Least(q: seq<Entry>, k: nat)
  {
    k < |q| && forall j :: 0 <= j < |q| ==> q[k].cost <= q[j].cost
  }

  /** A non-empty heap has an entry of least cost. */
  lemma {:induction false} LeastExists(q: seq<Entry>)
    requires |q| > 0
    ensures exists k: nat :: Least(q, k)
    decreases |q|
  {
    if |q| > 1 {
      LeastExists(q[..|q| - 1]);
      var k: nat :| Least(q[..|q| - 1], k);
      if q[|q| - 1].cost < q[k].cost {
        assert Least(q, |q| - 1);
      } else {
        assert Least(q, k);
      }
    } else {
      assert Least(q, 0);
    }
  }

  // ---------------------------------------------------------------------
  // What holds between pops.  The ghost table `done` holds, for each cell,
  // -1 until the cell is expanded and then the distance it was expanded at.

  /** Distances lie between 0 and `LLONG_MAX`, and the start is at 0. */
  ghost predicate Bounds(f: Field, d: seq<seq<int>>)
  {
    && Shaped(f, d)
    && (forall v: (int, int) :: InField(f, v) ==> 0 <= Get(d, v) <= Inf)
    && Get(d, (0, 0)) == 0
  }

  /** No distance is above the one its cell was expanded at. */
  ghost predicate DoneAbove(f: Field, d: seq<seq<int>>, done: seq<seq<int>>)
  {
    Shaped(f, done) && forall v: (int, int) :: InField(f, v) && Get(done, v) != -1 ==> Get(d, v) <= Get(done, v)
  }

  /** An entry is for a cell of the field, no cheaper than its distance, and the cost of some walk to it. */
  ghost predicate Sound(f: Field, d: seq<seq<int>>, e: Entry)
  {
    InField(f, CellOf(e)) && Get(d, CellOf(e)) <= e.cost < Inf && Reachable(f, CellOf(e), e.cost)
  }

  /** Every entry of the heap is sound. */
  ghost predicate QueueSound(f: Field, d: seq<seq<int>>, q: seq<Entry>)
  {
    forall k :: 0 <= k < |q| ==> Sound(f, d, q[k])
  }

  /** A cell reached but not expanded at its present distance has an entry of that distance in the heap. */
  ghost predicate Frontier(f: Field, d: seq<seq<int>>, done: seq<seq<int>>, q: seq<Entry>)
  {
    forall v: (int, int) :: InField(f, v) && Get(d, v) < Inf && Get(done, v) != Get(d, v) ==> Entry(Get(d, v), v.0, v.1) in q
  }

  /** The `m`-th neighbour of `u`, if inside the field, can be read and is no dearer than the step through `u`. */
  predicate RelaxedDir(f: Field, d: seq<seq<int>>, u: (int, int), m: nat)
    requires m < 4
  {
    var v := Neighbour(u, m);
    InField(f, v) ==> At(f, v.0, v.1).Some? && Get(d, v) <= Get(d, u) + At(f, v.0, v.1).value
  }

  /** The first `n` neighbours of `u` are relaxed. */
  predicate SettledUpTo(f: Field, d: seq<seq<int>>, u: (int, int), n: nat)
  {
    forall m: nat :: m < n && m < 4 ==> RelaxedDir(f, d, u, m)
  }

  /** All four neighbours of `u` are relaxed. */
  predicate Settled(f: Field, d: seq<seq<int>>, u: (int, int))
  {
    SettledUpTo(f, d, u, 4)
  }

  /** Every cell other than `u` expanded at its present distance is settled. */
  ghost predicate SettledBut(f: Field, d: seq<seq<int>>, done: seq<seq<int>>, u: (int, int))
  {
    forall v: (int, int) :: InField(f, v) && v != u && Get(done, v) == Get(d, v) ==> Settled(f, d, v)
  }

  /** Every cell expanded at its present distance is settled. */
  ghost predicate SettledAll(f: Field, d: seq<seq<int>>, done: seq<seq<int>>)
  {
    forall v: (int, int) :: InField(f, v) && Get(done, v) == Get(d, v) ==> Settled(f, d, v)
  }

  /** What holds throughout, between pops and while a cell is being expanded. */
  ghost predicate Core(f: Field, s: Search, done: seq<seq<int>>)
  {
    && RowCount(f) > 0 && ColumnCount(f) > 0 && NonNegative(f)
    && Bounds(f, s.dist) && DoneAbove(f, s.dist, done)
    && QueueSound(f, s.dist, s.queue) && Frontier(f, s.dist, done, s.queue)
    && Get(done, Target(f)) == -1
  }

  /** The loop invariant of `MinimumCostPath`. */
  ghost predicate Inv(f: Field, s: Search, done: seq<seq<int>>)
  {
    Core(f, s, done) && SettledAll(f, s.dist, done)
  }

  /** The invariant of the loop over the offsets, after `m` of them, expanding `u` popped at `cost`. */
  ghost predicate Expanding(f: Field, s: Search, done: seq<seq<int>>, u: (int, int), cost: int, m: nat)
  {
    && Core(f, s, done) && m <= 4
    && InField(f, u) && u != Target(f) && Get(done, u) == Get(s.dist, u)
    && SettledBut(f, s.dist, done, u) && SettledUpTo(f, s.dist, u, m)
    && (cost == Get(s.dist, u) || Settled(f, s.dist, u))
    && Reachable(f, u, cost)
  }

  /** No entry of `d1` is above the one of `d`. */
  ghost predicate Lower(d: seq<seq<int>>, d1: seq<seq<int>>)
  {
    forall v: (int, int) :: Get(d1, v) <= Get(d, v)
  }

  /** A step leaves the state as it was or lowers the sum of the distances. */
  predicate Progress(s: Search, s1: Search)
  {
    s1 == s || DistSum(s1.dist) < DistSum(s.dist)
  }

  // ---------------------------------------------------------------------
  // The invariant is kept

  /** The state before the loop: `dist` all `LLONG_MAX` but the start at 0, and the start's entry. */
  function Start(f: Field): (s: Search)
    requires RowCount(f) > 0 && ColumnCount(f) > 0
    ensures Shaped(f, s.dist)
  {
    Search(Put(Fill(RowCount(f), ColumnCount(f), Inf), (0, 0), 0), [Entry(0, 0, 0)])
  }

  /** The loop starts with the invariant, nothing expanded. */
  lemma StartInv(f: Field)
    requires RowCount(f) > 0 && ColumnCount(f) > 0 && NonNegative(f)
    ensures Inv(f, Start(f), Fill(RowCount(f), ColumnCount(f), -1))
  {
    var s, done := Start(f), Fill(RowCount(f), ColumnCount(f), -1);
    StartReachable(f);
    assert Sound(f, s.dist, s.queue[0]);
    assert Frontier(f, s.dist, done, s.queue) by {
      forall v: (int, int) | InField(f, v) && Get(s.dist, v) < Inf && Get(done, v) != Get(s.dist, v)
        ensures Entry(Get(s.dist, v), v.0, v.1) in s.queue
      {
        assert v == (0, 0);
        assert s.queue[0] == Entry(0, 0, 0);
      }
    }
  }

  /** The invariant gives a sum of distances of at least 0. */
  lemma InvSum(f: Field, s: Search, done: seq<seq<int>>)
    requires Inv(f, s, done)
    ensures DistSum(s.dist) >= 0
  {
    forall i, j | 0 <= i < |s.dist| && 0 <= j < |s.dist[i]|
      ensures s.dist[i][j] >= 0
    {
      assert InField(f, (i, j)) && Get(s.dist, (i, j)) == s.dist[i][j];
    }
    DistSumNonNegative(s.dist);
  }

  /**
   * Popping the least entry, for a cell other than the bottom right one,
   * starts its expansion.  A stale entry, dearer than its cell's
   * distance, can only be popped once the cell has been expanded at that
   * distance: otherwise the cheaper entry the frontier promises would
   * have been least.
   */
  lemma PopStart(f: Field, s: Search, done: seq<seq<int>>, k: nat)
    requires Inv(f, s, done) && Least(s.queue, k) && CellOf(s.queue[k]) != Target(f)
    ensures InField(f, CellOf(s.queue[k])) && Shaped(f, s.dist) && Shaped(f, done)
    ensures Expanding(f, Search(s.dist, RemoveAt(s.queue, k)), Put(done, CellOf(s.queue[k]), Get(s.dist, CellOf(s.queue[k]))), CellOf(s.queue[k]), s.queue[k].cost, 0)
  {
    var e := s.queue[k];
    var u := CellOf(e);
    assert Sound(f, s.dist, e);
    var done1 := Put(done, u, Get(s.dist, u));
    var s1 := Search(s.dist, RemoveAt(s.queue, k));
    assert e.cost == Get(s.dist, u) || Get(done, u) == Get(s.dist, u);
    assert QueueSound(f, s1.dist, s1.queue) by {
      forall j | 0 <= j < |s1.queue|
        ensures Sound(f, s1.dist, s1.queue[j])
      {
        assert s1.queue[j] in s.queue;
      }
    }
    assert Frontier(f, s1.dist, done1, s1.queue) by {
      forall v: (int, int) | InField(f, v) && Get(s1.dist, v) < Inf && Get(done1, v) != Get(s1.dist, v)
        ensures Entry(Get(s1.dist, v), v.0, v.1) in s1.queue
      {
        assert v != u;
        assert Entry(Get(s.dist, v), v.0, v.1) in s.queue;
      }
    }
  }

  /** A settled cell stays settled while its own distance stays and the others only fall. */
  lemma SettledLower(f: Field, d: seq<seq<int>>, d1: seq<seq<int>>, x: (int, int), n: nat)
    requires SettledUpTo(f, d, x, n) && Lower(d, d1) && Get(d1, x) == Get(d, x)
    ensures SettledUpTo(f, d1, x, n)
  {
    forall m: nat | m < n && m < 4
      ensures RelaxedDir(f, d1, x, m)
    {
      assert RelaxedDir(f, d, x, m);
      assert Get(d1, Neighbour(x, m)) <= Get(d, Neighbour(x, m));
    }
  }

  /** A sound entry stays sound while distances only fall. */
  lemma QueueLower(f: Field, d: seq<seq<int>>, d1: seq<seq<int>>, q: seq<Entry>)
    requires QueueSound(f, d, q) && Lower(d, d1)
    ensures QueueSound(f, d1, q)
  {
    forall k | 0 <= k < |q|
      ensures Sound(f, d1, q[k])
    {
      assert Sound(f, d, q[k]);
      assert Get(d1, CellOf(q[k])) <= Get(d, CellOf(q[k]));
    }
  }

  /** A pass that changes nothing relaxes its direction. */
  lemma RelaxSame(f: Field, s: Search, done: seq<seq<int>>, u: (int, int), cost: int, m: nat)
    requires Expanding(f, s, done, u, cost, m) && m < 4
    requires Relax(f, s, u, cost, m) == Some(s)
    ensures Expanding(f, s, done, u, cost, m + 1)
  {
    assert RelaxedDir(f, s.dist, u, m);
  }

  /** A pass that changes a state lowers the distance of a readable neighbour, at the popped cost, and pushes its entry. */
  lemma RelaxUpdate(f: Field, s: Search, done: seq<seq<int>>, u: (int, int), cost: int, m: nat)
    requires Expanding(f, s, done, u, cost, m) && m < 4
    requires Relax(f, s, u, cost, m).Some? && Relax(f, s, u, cost, m) != Some(s)
    ensures var v := Neighbour(u, m);
      && InField(f, v) && At(f, v.0, v.1).Some? && At(f, v.0, v.1).value >= 0
      && 0 <= cost == Get(s.dist, u) && cost + At(f, v.0, v.1).value < Get(s.dist, v) <= Inf
      && Relax(f, s, u, cost, m).value == Search(Put(s.dist, v, cost + At(f, v.0, v.1).value), s.queue + [Entry(At(f, v.0, v.1).value + cost, v.0, v.1)])
  {
    hide Frontier, QueueSound, SettledBut, DoneAbove, Reachable;
    assert Settled(f, s.dist, u) ==> RelaxedDir(f, s.dist, u, m);
  }

  /** Lowering the distance of `v` to `x` and pushing its entry keeps the distances in bounds and under `done`. */
  lemma PushBounds(f: Field, d: seq<seq<int>>, done: seq<seq<int>>, v: (int, int), x: int)
    requires Bounds(f, d) && DoneAbove(f, d, done) && InField(f, v) && 0 <= x < Get(d, v)
    ensures Bounds(f, Put(d, v, x)) && DoneAbove(f, Put(d, v, x), done) && Lower(d, Put(d, v, x))
    ensures DistSum(Put(d, v, x)) < DistSum(d)
  {
    DistSumPut(d, v, x);
  }

  /** The pushed entry is sound, and so are the old ones. */
  lemma PushSound(f: Field, d: seq<seq<int>>, q: seq<Entry>, v: (int, int), x: int)
    requires Shaped(f, d) && QueueSound(f, d, q) && InField(f, v) && x < Get(d, v) && Get(d, v) <= Inf
    requires Reachable(f, v, x)
    ensures QueueSound(f, Put(d, v, x), q + [Entry(x, v.0, v.1)])
  {
    hide At, Reachable;
    var d1 := Put(d, v, x);
    var q1 := q + [Entry(x, v.0, v.1)];
    assert Lower(d, d1);
    QueueLower(f, d, d1, q);
    forall j | 0 <= j < |q1|
      ensures Sound(f, d1, q1[j])
    {
      if j < |q| {
        assert q1[j] == q[j];
      }
    }
  }

  /** The pushed entry keeps the frontier: it is the one promised for `v`. */
  lemma PushFrontier(f: Field, d: seq<seq<int>>, done: seq<seq<int>>, q: seq<Entry>, v: (int, int), x: int)
    requires Shaped(f, d) && Frontier(f, d, done, q) && InField(f, v)
    ensures Frontier(f, Put(d, v, x), done, q + [Entry(x, v.0, v.1)])
  {
    hide At;
    var d1 := Put(d, v, x);
    var q1 := q + [Entry(x, v.0, v.1)];
    forall y: (int, int) | InField(f, y) && Get(d1, y) < Inf && Get(done, y) != Get(d1, y)
      ensures Entry(Get(d1, y), y.0, y.1) in q1
    {
      if y == v {
        assert q1[|q|] == Entry(Get(d1, y), y.0, y.1);
      } else {
        assert Entry(Get(d, y), y.0, y.1) in q;
      }
    }
  }

  /** Lowering the distance of `v`, the neighbour of `u` in direction `m`, to the step through `u` relaxes that direction and keeps every settled cell settled. */
  lemma PushSettled(f: Field, d: seq<seq<int>>, done: seq<seq<int>>, u: (int, int), m: nat, x: int)
    requires m < 4 && SettledBut(f, d, done, u) && SettledUpTo(f, d, u, m) && DoneAbove(f, d, done)
    requires InField(f, Neighbour(u, m)) && At(f, Neighbour(u, m).0, Neighbour(u, m).1).Some?
    requires x == Get(d, u) + At(f, Neighbour(u, m).0, Neighbour(u, m).1).value
    requires 0 <= x < Get(d, Neighbour(u, m))
    ensures SettledBut(f, Put(d, Neighbour(u, m), x), done, u)
    ensures SettledUpTo(f, Put(d, Neighbour(u, m), x), u, m + 1)
  {
    var v := Neighbour(u, m);
    var d1 := Put(d, v, x);
    assert Lower(d, d1);
    forall y: (int, int) | InField(f, y) && y != u && Get(done, y) == Get(d1, y)
      ensures Settled(f, d1, y)
    {
      assert y != v;
      SettledLower(f, d, d1, y, 4);
    }
    assert u != v;
    SettledLower(f, d, d1, u, m);
    assert RelaxedDir(f, d1, u, m);
  }

  /** A pass that lowers a distance keeps the invariant and lowers the sum. */
  lemma RelaxLowers(f: Field, s: Search, done: seq<seq<int>>, u: (int, int), cost: int, m: nat)
    requires Expanding(f, s, done, u, cost, m) && m < 4
    requires Relax(f, s, u, cost, m).Some? && Relax(f, s, u, cost, m) != Some(s)
    ensures Expanding(f, Relax(f, s, u, cost, m).value, done, u, cost, m + 1)
    ensures DistSum(Relax(f, s, u, cost, m).value.dist) < DistSum(s.dist)
    ensures Lower(s.dist, Relax(f, s, u, cost, m).value.dist)
  {
    hide Frontier, QueueSound, SettledBut, DoneAbove, Bounds, SettledUpTo, Settled, Reachable;
    RelaxUpdate(f, s, done, u, cost, m);
    var v := Neighbour(u, m);
    var w := At(f, v.0, v.1).value;
    var x := cost + w;
    var d1 := Put(s.dist, v, x);
    var s1 := Search(d1, s.queue + [Entry(x, v.0, v.1)]);
    assert Relax(f, s, u, cost, m).value == s1 by {
      assert w + cost == x;
    }
    assert Adjacent(u, v);
    ExtendReach(f, u, cost, v);
    hide Relax, At;
    PushBounds(f, s.dist, done, v, x);
    PushSound(f, s.dist, s.queue, v, x);
    PushFrontier(f, s.dist, done, s.queue, v, x);
    PushSettled(f, s.dist, done, u, m, x);
    assert Get(d1, u) == Get(s.dist, u);
  }

  /** Expanding through the remaining directions keeps the invariant, only lowers distances, and makes progress. */
  lemma {:induction false} ExpandSteps(f: Field, s: Search, done: seq<seq<int>>, u: (int, int), cost: int, m: nat)
    requires Expanding(f, s, done, u, cost, m)
    requires ExpandFrom(f, s, u, cost, m).Some?
    ensures Expanding(f, ExpandFrom(f, s, u, cost, m).value, done, u, cost, 4)
    ensures Progress(s, ExpandFrom(f, s, u, cost, m).value)
    ensures Lower(s.dist, ExpandFrom(f, s, u, cost, m).value.dist)
    decreases 4 - m
  {
    if m < 4 {
      var s1 := Relax(f, s, u, cost, m).value;
      if s1 == s {
        RelaxSame(f, s, done, u, cost, m);
      } else {
        RelaxLowers(f, s, done, u, cost, m);
      }
      assert ExpandFrom(f, s, u, cost, m) == ExpandFrom(f, s1, u, cost, m + 1);
      hide Expanding, Relax, ExpandFrom;
      ExpandSteps(f, s1, done, u, cost, m + 1);
    }
  }

  /** Once all four directions are relaxed the expanded cell is settled and the loop invariant is back. */
  lemma ExpandDone(f: Field, s: Search, done: seq<seq<int>>, u: (int, int), cost: int)
    requires Expanding(f, s, done, u, cost, 4)
    ensures Inv(f, s, done)
  {
  }

  /** The expansion throws only where a neighbour inside the field cannot be read. */
  lemma {:induction false} ExpandFails(f: Field, s: Search, u: (int, int), cost: int, m: nat)
    requires m <= 4 && Shaped(f, s.dist) && InField(f, u)
    requires ExpandFrom(f, s, u, cost, m).None?
    ensures !Complete(f)
    decreases 4 - m
  {
    var v := Neighbour(u, m);
    match Relax(f, s, u, cost, m)
    case None =>
      assert InField(f, v) && At(f, v.0, v.1).None?;
    case Some(s1) =>
      ExpandFails(f, s1, u, cost, m + 1);
  }

  // ---------------------------------------------------------------------
  // What the invariant says about walks

  /** Along a walk whose first `n - 1` cells are settled the distance of the `n`-th is at most the walk's risk so far. */
  lemma {:induction false} DistAlongPath(f: Field, s: Search, done: seq<seq<int>>, p: seq<(int, int)>, n: nat)
    requires Inv(f, s, done) && IsPath(f, p) && 1 <= n <= |p|
    requires forall k :: 0 <= k < n - 1 ==> Get(done, p[k]) == Get(s.dist, p[k])
    ensures Get(s.dist, p[n - 1]) <= PathRisk(f, p[..n])
    decreases n
  {
    hide At, RowCount, ColumnCount, QueueSound, Frontier, DoneAbove;
    if n == 1 {
      assert p[..1] == [p[0]];
    } else {
      DistAlongPath(f, s, done, p, n - 1);
      var a, b := p[n - 2], p[n - 1];
      assert Adjacent(a, b) && InField(f, a) && Get(done, a) == Get(s.dist, a);
      assert Settled(f, s.dist, a);
      NeighbourAdjacent(a, b);
      var m :| 0 <= m < 4 && Neighbour(a, m) == b;
      assert RelaxedDir(f, s.dist, a, m);
      assert p[..n][..n - 1] == p[..n - 1];
    }
  }

  /** A walk to the bottom right cell has a first cell not expanded at its present distance, and all before it are. */
  lemma FirstUnsettled(f: Field, s: Search, done: seq<seq<int>>, p: seq<(int, int)>) returns (i: nat)
    requires Inv(f, s, done) && IsPath(f, p) && p[|p| - 1] == Target(f)
    ensures i < |p| && Get(done, p[i]) != Get(s.dist, p[i])
    ensures forall k :: 0 <= k < i ==> Get(done, p[k]) == Get(s.dist, p[k])
  {
    hide At, RowCount, ColumnCount, PathRisk;
    assert Get(done, Target(f)) == -1;
    assert Get(s.dist, Target(f)) >= 0 by {
      assert InField(f, p[|p| - 1]);
    }
    i := 0;
    while Get(done, p[i]) == Get(s.dist, p[i])
      invariant 0 <= i < |p|
      invariant forall k :: 0 <= k < i ==> Get(done, p[k]) == Get(s.dist, p[k])
      decreases |p| - i
    {
      i := i + 1;
    }
  }

  /** Every walk to the bottom right cell cheaper than `LLONG_MAX` is matched by a heap entry no dearer than it. */
  lemma FrontierReach(f: Field, s: Search, done: seq<seq<int>>, p: seq<(int, int)>)
    requires Inv(f, s, done) && IsPath(f, p) && p[|p| - 1] == Target(f) && PathRisk(f, p) < Inf
    ensures exists j :: 0 <= j < |s.queue| && s.queue[j].cost <= PathRisk(f, p)
  {
    var i := FirstUnsettled(f, s, done, p);
    DistAlongPath(f, s, done, p, i + 1);
    PathRiskPrefix(f, p, i + 1);
    var v := p[i];
    assert InField(f, v) && Get(s.dist, v) < Inf;
    hide At, RowCount, ColumnCount, PathRisk, IsPath, QueueSound, SettledAll, Bounds, DoneAbove;
    assert Entry(Get(s.dist, v), v.0, v.1) in s.queue;
    var j :| 0 <= j < |s.queue| && s.queue[j] == Entry(Get(s.dist, v), v.0, v.1);
  }

  /** Every walk to the bottom right cell costs at least `LLONG_MAX`. */
  ghost predicate Unreachable(f: Field)
  {
    forall p :: IsPath(f, p) && p[|p| - 1] == Target(f) ==> PathRisk(f, p) >= Inf
  }

  /** The least entry, once it is for the bottom right cell, carries the lowest total risk. */
  lemma Found(f: Field, s: Search, done: seq<seq<int>>, k: nat)
    requires Inv(f, s, done) && Least(s.queue, k) && CellOf(s.queue[k]) == Target(f)
    ensures LowestRisk(f, s.queue[k].cost)
  {
    assert Sound(f, s.dist, s.queue[k]);
    forall p | IsPath(f, p) && p[|p| - 1] == Target(f)
      ensures s.queue[k].cost <= PathRisk(f, p)
    {
      if PathRisk(f, p) < Inf {
        FrontierReach(f, s, done, p);
      }
    }
  }

  /** An empty heap leaves no walk to the bottom right cell below `LLONG_MAX`. */
  lemma EmptyQueue(f: Field, s: Search, done: seq<seq<int>>)
    requires Inv(f, s, done) && |s.queue| == 0
    ensures Unreachable(f)
  {
    forall p | IsPath(f, p) && p[|p| - 1] == Target(f)
      ensures PathRisk(f, p) >= Inf
    {
      if PathRisk(f, p) < Inf {
        FrontierReach(f, s, done, p);
      }
    }
  }

  // ---------------------------------------------------------------------
  // The search

  /** What one pass of the loop of `MinimumCostPath` ends in. */
  datatype Outcome = Reached(cost: int) | Threw | Continue(next: Search)

  /**
   * One pass of the loop of `MinimumCostPath`: pop an entry of least cost;
   * stop if it is for the bottom right cell, otherwise expand it.  The
   * invariant is kept, with the popped cell marked expanded, and either
   * the sum of distances falls or it stays and the heap shrinks.
   */
  method Pop(f: Field, s: Search, ghost done: seq<seq<int>>) returns (o: Outcome, ghost done1: seq<seq<int>>)
    requires Inv(f, s, done) && |s.queue| > 0
    ensures o.Reached? ==> LowestRisk(f, o.cost)
    ensures o.Threw? ==> !Complete(f)
    ensures o.Continue? ==> Inv(f, o.next, done1) && 0 <= DistSum(o.next.dist)
    ensures o.Continue? ==> DistSum(o.next.dist) < DistSum(s.dist) || (DistSum(o.next.dist) == DistSum(s.dist) && |o.next.queue| < |s.queue|)
  {
    hide Inv, Expanding, At, RowCount, ColumnCount, LowestRisk, Complete, DistSum;
    done1 := done;
    LeastExists(s.queue);
    var k: nat :| Least(s.queue, k);
    var e := s.queue[k];
    if e.row == RowCount(f) - 1 && e.col == ColumnCount(f) - 1 {
      Found(f, s, done, k);
      return Reached(e.cost), done1;
    }
    var u := CellOf(e);
    PopStart(f, s, done, k);
    done1 := Put(done, u, Get(s.dist, u));
    var popped := Search(s.dist, RemoveAt(s.queue, k));
    var next := ExpandFrom(f, popped, u, e.cost, 0);
    if next.None? {
      ExpandFails(f, popped, u, e.cost, 0);
      return Threw, done1;
    }
    ExpandSteps(f, popped, done1, u, e.cost, 0);
    ExpandDone(f, next.value, done1, u, e.cost);
    InvSum(f, next.value, done1);
    o := Continue(next.value);
  }

  /**
   * `MinimumCostPath`: `None` where the program is undefined (an empty
   * grid, whose `dist[0][0]` does not exist) or throws (a neighbour that
   * cannot be read).  Otherwise the lowest total risk of a walk from the
   * top left to the bottom right cell; or 0 when the heap runs dry, which
   * happens only when no walk costs less than `LLONG_MAX`.
   */
  method MinimumCostPath(f: Field) returns (r: Option<int>)
    requires NonNegative(f)
    ensures RowCount(f) == 0 || ColumnCount(f) == 0 ==> r.None?
    ensures r.None? ==> RowCount(f) == 0 || ColumnCount(f) == 0 || !Complete(f)
    ensures r.Some? ==> LowestRisk(f, r.value) || (r.value == 0 && Unreachable(f))
  {
    if RowCount(f) == 0 || ColumnCount(f) == 0 {
      return None;
    }
    var s := Start(f);
    ghost var done := Fill(RowCount(f), ColumnCount(f), -1);
    StartInv(f);
    InvSum(f, s, done);
    hide Inv, LowestRisk, Unreachable, Complete, NonNegative;
    while |s.queue| > 0
      invariant Inv(f, s, done) && DistSum(s.dist) >= 0
      decreases DistSum(s.dist), |s.queue|
    {
      var o;
      o, done := Pop(f, s, done);
      match o
      case Reached(c) => return Some(c);
      case Threw => return None;
      case Continue(next) => s := next;
    }
    EmptyQueue(f, s, done);
    r := Some(0);
  }

  /** On a complete field whose risks are at most `hi`, small enough that the staircase walk stays below `LLONG_MAX`, the search finds the lowest total risk. */
  method LowestTotalRisk(f: Field, hi: int) returns (r: Option<int>)
    requires NonNegative(f) && Complete(f) && RowCount(f) > 0 && ColumnCount(f) > 0
    requires 0 <= hi && forall i: nat, j: nat :: i < RowCount(f) && j < ColumnCount(f) ==> At(f, i, j).value <= hi
    requires hi * (RowCount(f) + ColumnCount(f)) < Inf
    ensures r.Some? && LowestRisk(f, r.value)
  {
    r := MinimumCostPath(f);
    ghost var p := StaircasePath(f, hi);
    assert !Unreachable(f);
  }

  /** The risk levels of the puzzle input: words of digits, all of one length, not so many that a walk could reach `LLONG_MAX`. */
  predicate Sized(words: seq<string>)
  {
    && |words| > 0 && |words[0]| > 0
    && (forall k :: 0 <= k < |words| ==> AllDigits(words[k]) && |words[k]| == |words[0]|)
    && 45 * (|words| + |words[0]|) < Inf
  }

  /**
   * `main`: part 1 searches the grid as read, part 2 the grid scaled by
   * 5.  An empty file leaves both undefined; a proper input gives both
   * lowest total risks.
   */
  method Solve(words: seq<string>) returns (part1: Option<int>, part2: Option<int>)
    requires forall k :: 0 <= k < |words| ==> AllDigits(words[k])
    ensures |words| == 0 ==> part1.None? && part2.None?
    ensures Sized(words) ==> part1.Some? && LowestRisk(Plain(ReadInput(words)), part1.value)
    ensures Sized(words) ==> part2.Some? && LowestRisk(Scaled(ReadInput(words), 5), part2.value)
  {
    var g := ReadInput(words);
    ReadDigits(words);
    assert LevelsIn(g, 0, 9);
    ScaledNonNegative(g, 5);
    if Sized(words) {
      PlainComplete(g);
      ScaledComplete(g, 5);
      forall i: nat, j: nat | i < RowCount(Scaled(g, 5)) && j < ColumnCount(Scaled(g, 5))
        ensures At(Scaled(g, 5), i, j).value <= 9
      {
        ScaledDigits(g, 5, i, j);
      }
      part1 := LowestTotalRisk(Plain(g), 9);
      part2 := LowestTotalRisk(Scaled(g, 5), 9);
    } else {
      part1 := MinimumCostPath(Plain(g));
      part2 := MinimumCostPath(Scaled(g, 5));
    }
  }
}
