/**
 * RAM Run (2024, day 18): bytes fall onto a grid one position at a time and
 * corrupt it.  Part 1 finds the fewest steps from the top-left to the
 * bottom-right corner, moving up, down, left or right over uncorrupted
 * cells, after the first `n` bytes; part 2 reports the first byte after
 * which the bottom-right corner can no longer be reached.
 */
module RamRun {

  import opened Common
  import opened Decimal

  datatype GridIndex = GridIndex(row: int, col: int)

  type Grid = seq<seq<char>>

  // ---------------------------------------------------------------------
  // Input lines

  /**
   * The line lambda of `ReadInput`: the column before the comma, the row
   * after it.  Without a comma `find` gives `npos`, so the whole line is
   * read for the column and, `npos + 1` wrapping to 0, for the row as well.
   * `None` where `stoi` throws.
   */
  function ParsePosition(line: string): Option<GridIndex>
  {
    var k := IndexOf(line, ',');
    var colText := line[..k];
    var rowText := if k < |line| then line[k + 1..] else line;
    match (Stoi(colText), Stoi(rowText))
    case (Some(c), Some(r)) => Some(GridIndex(r, c))
    case _ => None
  }

  /** `"col,row"`, as part 2 prints a position and as the input writes one. */
  function ShowPosition(p: GridIndex): string
  {
    ShowInt(p.col) + "," + ShowInt(p.row)
  }

  lemma ShowIntNoComma(n: int)
    ensures forall j :: 0 <= j < |ShowInt(n)| ==> ShowInt(n)[j] != ','
  {
    var m := if n < 0 then -n else n;
    assert AllDigits(ShowNat(m));
  }

  /** A printed position reads back as itself. */
  lemma ParseShowPosition(p: GridIndex)
    ensures ParsePosition(ShowPosition(p)) == Some(p)
  {
    var c, r := ShowInt(p.col), ShowInt(p.row);
    var line := ShowPosition(p);
    ShowIntNoComma(p.col);
    IndexOfPrefix(c, r, ',');
    assert line == c + [','] + r;
    assert line[..|c|] == c && line[|c| + 1..] == r;
    StoiShowInt(p.col, "");
    StoiShowInt(p.row, "");
    assert c + "" == c && r + "" == r;
  }

  /** A line without a comma gives the same number for the row and the column. */
  lemma ParseWithoutComma(line: string)
    requires ',' !in line
    ensures ParsePosition(line) == match Stoi(line) { case Some(v) => Some(GridIndex(v, v)) case None => None }
  {
    assert IndexOf(line, ',') == |line|;
    assert line[..|line|] == line;
  }

  // ---------------------------------------------------------------------
  // The memory grid

  /**
   * `CalculateMaxDimensions` over the first `n` positions: one more than the
   * largest row and column, starting from 0.
   */
  function CalculateMaxDimensions(ps: seq<GridIndex>, n: nat): (d: (int, int))
    requires n <= |ps|
    ensures d.0 >= 1 && d.1 >= 1
    ensures forall k :: 0 <= k < n ==> ps[k].row < d.0 && ps[k].col < d.1
    ensures d.0 == 1 || exists k :: 0 <= k < n && ps[k].row == d.0 - 1
    ensures d.1 == 1 || exists k :: 0 <= k < n && ps[k].col == d.1 - 1
  {
    if n == 0 then (1, 1)
    else
      var d := CalculateMaxDimensions(ps, n - 1);
      var p := ps[n - 1];
      (if d.0 < p.row + 1 then p.row + 1 else d.0, if d.1 < p.col + 1 then p.col + 1 else d.1)
  }

  /** `CreateGrid`: `rows` by `cols` cells, all free. */
  function CreateGrid(rows: nat, cols: nat): (g: Grid)
    ensures Rect(g, rows, cols)
    ensures forall i, j :: 0 <= i < rows && 0 <= j < cols ==> g[i][j] == '.'
  {
    seq(rows, i => seq(cols, j => '.'))
  }

  /** One of the first `n` bytes fell on `(i, j)`. */
  predicate Fallen(ps: seq<GridIndex>, n: nat, i: int, j: int)
    requires n <= |ps|
  {
    exists k :: 0 <= k < n && ps[k] == GridIndex(i, j)
  }

  /** The grid after the first `n` bytes: corrupted where one fell, free elsewhere. */
  function Memory(ps: seq<GridIndex>, n: nat, rows: nat, cols: nat): Grid
    requires n <= |ps|
  {
    seq(rows, i => seq(cols, j => if Fallen(ps, n, i, j) then '#' else '.'))
  }

  /** The first `n` positions lie inside a `rows` by `cols` grid. */
  predicate Inside(ps: seq<GridIndex>, n: nat, rows: int, cols: int)
    requires n <= |ps|
  {
    forall k :: 0 <= k < n ==> 0 <= ps[k].row < rows && 0 <= ps[k].col < cols
  }

  /** `MarkPositionsInGrid`: exactly the first `n` positions become `'#'`; nothing else changes. */
  method MarkPositionsInGrid(ps: seq<GridIndex>, n: nat, g: Grid) returns (out: Grid)
    requires n <= |ps| && |g| >= 1 && Rect(g, |g|, |g[0]|) && Inside(ps, n, |g|, |g[0]|)
    ensures Rect(out, |g|, |g[0]|)
    ensures forall i, j :: 0 <= i < |g| && 0 <= j < |g[0]| ==> out[i][j] == if Fallen(ps, n, i, j) then '#' else g[i][j]
  {
    out := g;
    var k := 0;
    while k < n
      invariant 0 <= k <= n && Rect(out, |g|, |g[0]|)
      invariant forall i, j :: 0 <= i < |g| && 0 <= j < |g[0]| ==> out[i][j] == if Fallen(ps, k, i, j) then '#' else g[i][j]
    {
      var p := ps[k];
      out := out[p.row := out[p.row][p.col := '#']];
      forall i, j | 0 <= i < |g| && 0 <= j < |g[0]|
        ensures Fallen(ps, k + 1, i, j) <==> Fallen(ps, k, i, j) || p == GridIndex(i, j)
      {
        if Fallen(ps, k + 1, i, j) && p != GridIndex(i, j) {
          var m :| 0 <= m < k + 1 && ps[m] == GridIndex(i, j);
          assert m < k;
        }
      }
      k := k + 1;
    }
  }

  /** One more byte corrupts its own cell of the memory grid and nothing else. */
  lemma MemoryStep(ps: seq<GridIndex>, n: nat, rows: nat, cols: nat)
    requires n < |ps| && Inside(ps, n + 1, rows, cols)
    ensures Memory(ps, n + 1, rows, cols) == Memory(ps, n, rows, cols)[ps[n].row := Memory(ps, n, rows, cols)[ps[n].row][ps[n].col := '#']]
  {
    var a, p := Memory(ps, n, rows, cols), ps[n];
    var b := a[p.row := a[p.row][p.col := '#']];
    var c := Memory(ps, n + 1, rows, cols);
    forall i, j | 0 <= i < rows && 0 <= j < cols
      ensures c[i][j] == b[i][j]
    {
      if Fallen(ps, n + 1, i, j) && p != GridIndex(i, j) {
        var m :| 0 <= m < n + 1 && ps[m] == GridIndex(i, j);
        assert m < n;
      }
      if Fallen(ps, n, i, j) {
        var m :| 0 <= m < n && ps[m] == GridIndex(i, j);
        assert m < n + 1;
      }
    }
    GridEq(c, b, rows, cols);
  }

  // ---------------------------------------------------------------------
  // Reachability

  /** Move `d` of the search, in its order: up, down, left, right. */
  function Move(p: GridIndex, d: int): GridIndex
    requires 0 <= d < 4
  {
    if d == 0 then GridIndex(p.row - 1, p.col)
    else if d == 1 then GridIndex(p.row + 1, p.col)
    else if d == 2 then GridIndex(p.row, p.col - 1)
    else GridIndex(p.row, p.col + 1)
  }

  /** `IsValueInRange` on both coordinates, columns bounded by the first row. */
  predicate InGrid(g: Grid, p: GridIndex)
  {
    |g| >= 1 && 0 <= p.row < |g| && 0 <= p.col < |g[0]|
  }

  /** A cell the search may step onto: inside the grid and not corrupted. */
  predicate Open(g: Grid, p: GridIndex)
    requires Rect(g, |g|, if |g| == 0 then 0 else |g[0]|)
  {
    InGrid(g, p) && g[p.row][p.col] != '#'
  }

  predicate Shaped(g: Grid)
  {
    |g| >= 1 && Rect(g, |g|, |g[0]|)
  }

  /** `S` and every open cell one move away from it. */
  function Grow(g: Grid, s: set<GridIndex>): set<GridIndex>
    requires Shaped(g)
  {
    s + set p, d | p in s && 0 <= d < 4 && Open(g, Move(p, d)) :: Move(p, d)
  }

  /** The cells reachable from `start` in at most `k` moves over open cells. */
  function Reach(g: Grid, start: GridIndex, k: nat): set<GridIndex>
    requires Shaped(g)
  {
    if k == 0 then {start} else Grow(g, Reach(g, start, k - 1))
  }

  lemma {:induction false} ReachMonotone(g: Grid, start: GridIndex, j: nat, k: nat)
    requires Shaped(g) && j <= k
    ensures Reach(g, start, j) <= Reach(g, start, k)
    decreases k - j
  {
    if j < k {
      ReachMonotone(g, start, j, k - 1);
    }
  }

  ghost predicate Unreachable(g: Grid, start: GridIndex, end: GridIndex)
    requires Shaped(g)
  {
    forall k: nat :: end !in Reach(g, start, k)
  }

  /**
   * What the search answers: -1 exactly when `end` cannot be reached, and
   * otherwise the least number of moves that reaches it.
   */
  ghost predicate Answer(g: Grid, start: GridIndex, end: GridIndex, r: int)
    requires Shaped(g)
  {
    (r == -1 <==> Unreachable(g, start, end)) &&
    (r >= 0 ==> end in Reach(g, start, r) && forall k: nat :: k < r ==> end !in Reach(g, start, k))
  }

  // ---------------------------------------------------------------------
  // Breadth-first search

  datatype Node = Node(pos: GridIndex, cost: int)

  function Cells(g: Grid): set<GridIndex>
  {
    set i, j | 0 <= i < |g| && 0 <= j < (if |g| == 0 then 0 else |g[0]|) :: GridIndex(i, j)
  }

  /** A queued node's cost is the exact number of moves to its cell. */
  predicate Exact(g: Grid, start: GridIndex, n: Node)
    requires Shaped(g)
  {
    n.cost >= 0 && n.pos in Reach(g, start, n.cost) && (n.cost > 0 ==> n.pos !in Reach(g, start, n.cost - 1))
  }

  predicate InQueue(q: seq<Node>, head: int, p: GridIndex)
  {
    exists i :: 0 <= head <= i < |q| && q[i].pos == p
  }

  /** Every open neighbour of `p` is marked visited. */
  predicate Expanded(g: Grid, visited: set<GridIndex>, p: GridIndex)
    requires Shaped(g)
  {
    forall d :: 0 <= d < 4 && Open(g, Move(p, d)) ==> Move(p, d) in visited
  }

  /**
   * The search state between iterations: `q[head..]` is the queue, a node
   * per push, its cells all visited and with exact costs; every visited cell
   * is still queued or has been expanded without being the end.
   */
  predicate Inv(g: Grid, start: GridIndex, end: GridIndex, visited: set<GridIndex>, q: seq<Node>, head: int)
    requires Shaped(g)
  {
    0 <= head <= |q| && |q| == |visited| && start in visited && visited <= Cells(g) &&
    (forall i :: head <= i < |q| ==> q[i].pos in visited && Exact(g, start, q[i])) &&
    (forall p :: p in visited ==> InQueue(q, head, p) || (p != end && Expanded(g, visited, p)))
  }

  /**
   * The queue holds cost `d` up to `mid` and cost `d + 1` after it, and
   * every cell within `d` moves is already visited.
   */
  predicate Levels(g: Grid, start: GridIndex, visited: set<GridIndex>, q: seq<Node>, head: int, mid: int, d: nat)
    requires Shaped(g) && 0 <= head <= mid <= |q|
  {
    (forall i :: head <= i < mid ==> q[i].cost == d) &&
    (forall i :: mid <= i < |q| ==> q[i].cost == d + 1) &&
    Reach(g, start, d) <= visited
  }

  lemma GrowHas(g: Grid, s: set<GridIndex>, p: GridIndex, d: int)
    requires Shaped(g) && p in s && 0 <= d < 4 && Open(g, Move(p, d))
    ensures Move(p, d) in Grow(g, s)
  {
  }

  /** `x` is an open cell one move away from `p`. */
  predicate Adjacent(g: Grid, p: GridIndex, x: GridIndex)
    requires Shaped(g)
  {
    Open(g, x) && exists d :: 0 <= d < 4 && Move(p, d) == x
  }

  lemma GrowMembers(g: Grid, s: set<GridIndex>, x: GridIndex)
    requires Shaped(g) && x in Grow(g, s)
    ensures x in s || exists p :: p in s && Adjacent(g, p, x)
  {
    if x !in s {
      var p, d :| p in s && 0 <= d < 4 && Open(g, Move(p, d)) && Move(p, d) == x;
      assert Adjacent(g, p, x);
    }
  }

  /**
   * When the last node of cost `d` has left the queue, every cell within
   * `d + 1` moves has been visited.
   */
  lemma NextLevel(g: Grid, start: GridIndex, visited: set<GridIndex>, q: seq<Node>, head: int, d: nat)
    requires Shaped(g) && 0 <= head <= |q|
    requires forall i :: head <= i < |q| ==> Exact(g, start, q[i]) && q[i].cost == d + 1
    requires forall p :: p in visited ==> InQueue(q, head, p) || Expanded(g, visited, p)
    requires Reach(g, start, d) <= visited
    ensures Reach(g, start, d + 1) <= visited
  {
    var s := Reach(g, start, d);
    forall x | x in Grow(g, s)
      ensures x in visited
    {
      GrowMembers(g, s, x);
      if x !in s {
        var p :| p in s && Adjacent(g, p, x);
        var k :| 0 <= k < 4 && Move(p, k) == x;
        assert !InQueue(q, head, p);
        assert Expanded(g, visited, p);
      }
    }
  }

  function Positions(s: seq<Node>): set<GridIndex>
  {
    set i | 0 <= i < |s| :: s[i].pos
  }

  /**
   * The four neighbour checks of one popped node: every open, unvisited
   * neighbour is marked visited and queued, once, with cost `c + 1`.
   */
  method Expand(g: Grid, p: GridIndex, c: int, visited: set<GridIndex>) returns (visited': set<GridIndex>, added: seq<Node>)
    requires Shaped(g)
    ensures visited' == visited + Positions(added) && |visited'| == |visited| + |added|
    ensures forall i :: 0 <= i < |added| ==> added[i].cost == c + 1 && added[i].pos !in visited && Adjacent(g, p, added[i].pos)
    ensures forall d :: 0 <= d < 4 && Open(g, Move(p, d)) ==> Move(p, d) in visited'
  {
    visited', added := visited, [];
    var d := 0;
    while d < 4
      invariant 0 <= d <= 4
      invariant Pushed(g, p, c, visited, visited', added)
      invariant forall e :: 0 <= e < d && Open(g, Move(p, e)) ==> Move(p, e) in visited'
    {
      ghost var before := visited';
      visited', added := TryMove(g, p, c, d, visited, visited', added);
      forall e | 0 <= e <= d && Open(g, Move(p, e))
        ensures Move(p, e) in visited'
      {
        if e < d {
          assert Move(p, e) in before;
        }
      }
      d := d + 1;
    }
  }

  /** The nodes pushed so far for `p` and the visited marks they added. */
  predicate Pushed(g: Grid, p: GridIndex, c: int, visited: set<GridIndex>, visited': set<GridIndex>, added: seq<Node>)
    requires Shaped(g)
  {
    visited' == visited + Positions(added) && |visited'| == |visited| + |added| &&
    forall i :: 0 <= i < |added| ==> added[i].cost == c + 1 && added[i].pos !in visited && Adjacent(g, p, added[i].pos)
  }

  /** One neighbour check: move `d` from `p` is pushed when open and not yet visited. */
  method TryMove(g: Grid, p: GridIndex, c: int, d: int, visited: set<GridIndex>, v: set<GridIndex>, added: seq<Node>)
    returns (v': set<GridIndex>, added': seq<Node>)
    requires Shaped(g) && 0 <= d < 4 && Pushed(g, p, c, visited, v, added)
    ensures Pushed(g, p, c, visited, v', added') && v <= v'
    ensures Open(g, Move(p, d)) ==> Move(p, d) in v'
  {
    v', added' := v, added;
    var next := Move(p, d);
    if InGrid(g, next) && next !in v && g[next.row][next.col] != '#' {
      assert Adjacent(g, p, next);
      PushedAppend(g, p, c, visited, v, added, next);
      v' := v + {next};
      added' := added + [Node(next, c + 1)];
    }
  }

  lemma PushedAppend(g: Grid, p: GridIndex, c: int, visited: set<GridIndex>, v: set<GridIndex>, added: seq<Node>, next: GridIndex)
    requires Shaped(g) && Pushed(g, p, c, visited, v, added) && next !in v && Adjacent(g, p, next)
    ensures Pushed(g, p, c, visited, v + {next}, added + [Node(next, c + 1)])
  {
    hide Adjacent, Reach, Grow, Cells, Open, Positions;
    var t := added + [Node(next, c + 1)];
    PositionsAppend(added, Node(next, c + 1));
    assert v + {next} == visited + Positions(t);
    assert |v + {next}| == |v| + 1;
    forall i | 0 <= i < |t|
      ensures t[i].cost == c + 1 && t[i].pos !in visited && Adjacent(g, p, t[i].pos)
    {
      if i < |added| {
        assert t[i] == added[i];
      }
    }
  }

  lemma PositionsAppend(s: seq<Node>, n: Node)
    ensures Positions(s + [n]) == Positions(s) + {n.pos}
  {
    var t := s + [n];
    forall x | x in Positions(t)
      ensures x in Positions(s) + {n.pos}
    {
      var i :| 0 <= i < |t| && t[i].pos == x;
      if i < |s| {
        assert s[i] == t[i];
      }
    }
    forall x | x in Positions(s)
      ensures x in Positions(t)
    {
      var i :| 0 <= i < |s| && s[i].pos == x;
      assert t[i] == s[i];
    }
    assert t[|s|] == n;
  }

  /** An open neighbour of a cell within `d` moves is within `d + 1`. */
  lemma AdjacentReach(g: Grid, start: GridIndex, p: GridIndex, d: nat, x: GridIndex)
    requires Shaped(g) && p in Reach(g, start, d) && Adjacent(g, p, x)
    ensures x in Reach(g, start, d + 1)
  {
    var e :| 0 <= e < 4 && Move(p, e) == x;
    GrowHas(g, Reach(g, start, d), p, e);
    assert Reach(g, start, d + 1) == Grow(g, Reach(g, start, d));
  }

  /** The nodes pushed for a node of cost `d` have the exact cost `d + 1`. */
  lemma PushedExact(g: Grid, start: GridIndex, visited: set<GridIndex>, p: GridIndex, d: nat, added: seq<Node>)
    requires Shaped(g) && p in Reach(g, start, d) && Reach(g, start, d) <= visited
    requires forall i :: 0 <= i < |added| ==> added[i].cost == d + 1 && added[i].pos !in visited && Adjacent(g, p, added[i].pos)
    ensures forall i :: 0 <= i < |added| ==> Exact(g, start, added[i])
  {
    forall i | 0 <= i < |added|
      ensures Exact(g, start, added[i])
    {
      var n := added[i];
      AdjacentReach(g, start, p, d, n.pos);
      assert n.pos !in Reach(g, start, n.cost - 1);
    }
  }

  /** After the pop and the pushes, every visited cell is still queued or has been expanded. */
  lemma PushedClosed(g: Grid, end: GridIndex, visited: set<GridIndex>, q: seq<Node>, head: int, visited': set<GridIndex>, added: seq<Node>)
    requires Shaped(g) && 0 <= head < |q| && q[head].pos != end
    requires forall p :: p in visited ==> InQueue(q, head, p) || (p != end && Expanded(g, visited, p))
    requires visited' == visited + Positions(added) && Expanded(g, visited', q[head].pos)
    ensures forall p :: p in visited' ==> InQueue(q + added, head + 1, p) || (p != end && Expanded(g, visited', p))
  {
    var t := q + added;
    forall p | p in visited'
      ensures InQueue(t, head + 1, p) || (p != end && Expanded(g, visited', p))
    {
      if p in Positions(added) {
        var i :| 0 <= i < |added| && added[i].pos == p;
        assert t[|q| + i] == added[i];
      } else if InQueue(q, head, p) {
        var i :| 0 <= head <= i < |q| && q[i].pos == p;
        assert t[i] == q[i];
      }
    }
  }

  /** The queue after the pushes: visited cells, exact costs, `d` up to `mid` and `d + 1` after. */
  lemma QueueAppended(g: Grid, start: GridIndex, visited: set<GridIndex>, q: seq<Node>, head: nat, mid: nat, d: nat, added: seq<Node>)
    requires Shaped(g) && head < mid <= |q|
    requires forall i :: head <= i < |q| ==> q[i].pos in visited && Exact(g, start, q[i])
    requires Levels(g, start, visited, q, head, mid, d)
    requires forall i :: 0 <= i < |added| ==> Exact(g, start, added[i]) && added[i].cost == d + 1
    ensures forall i :: head + 1 <= i < |q + added| ==>
      (q + added)[i].pos in visited + Positions(added) && Exact(g, start, (q + added)[i]) &&
      (q + added)[i].cost == if i < mid then d else d + 1
  {
    var t := q + added;
    forall i | head + 1 <= i < |t|
      ensures t[i].pos in visited + Positions(added) && Exact(g, start, t[i]) && t[i].cost == if i < mid then d else d + 1
    {
      if i >= |q| {
        assert t[i] == added[i - |q|];
        assert added[i - |q|].pos in Positions(added);
      } else {
        assert t[i] == q[i];
      }
    }
  }

  /** The pushed cells are cells of the grid. */
  lemma AddedCells(g: Grid, p: GridIndex, d: nat, added: seq<Node>)
    requires Shaped(g)
    requires forall i :: 0 <= i < |added| ==> Adjacent(g, p, added[i].pos)
    ensures Positions(added) <= Cells(g)
  {
    forall x | x in Positions(added)
      ensures x in Cells(g)
    {
      var i :| 0 <= i < |added| && added[i].pos == x;
      assert Open(g, x);
    }
  }

  /** One popped node that is not the end, expanded. */
  method Visit(g: Grid, start: GridIndex, end: GridIndex, visited: set<GridIndex>, q: seq<Node>, head: nat, ghost mid: nat, ghost d: nat)
    returns (visited': set<GridIndex>, q': seq<Node>)
    requires Shaped(g) && Inv(g, start, end, visited, q, head) && head < mid <= |q|
    requires Levels(g, start, visited, q, head, mid, d) && q[head].pos != end
    ensures Inv(g, start, end, visited', q', head + 1) && mid <= |q'|
    ensures Levels(g, start, visited', q', head + 1, mid, d)
    ensures visited <= visited' && (visited' == visited ==> |q'| == |q|)
  {
    hide Reach, Grow, Cells, Open, Positions;
    var node := q[head];
    var added;
    visited', added := Expand(g, node.pos, node.cost, visited);
    q' := q + added;
    assert node.cost == d && Exact(g, start, node);
    PushedExact(g, start, visited, node.pos, d, added);
    PushedClosed(g, end, visited, q, head, visited', added);
    QueueAppended(g, start, visited, q, head, mid, d, added);
    AddedCells(g, node.pos, d, added);
    assert |q'| == |visited'|;
    assert start in visited';
  }

  /** Every cell reachable from a closed set containing the start lies in it. */
  lemma {:induction false} ClosedHoldsReach(g: Grid, start: GridIndex, visited: set<GridIndex>, k: nat)
    requires Shaped(g) && start in visited
    requires forall p :: p in visited ==> Expanded(g, visited, p)
    ensures Reach(g, start, k) <= visited
    decreases k
  {
    if k > 0 {
      ClosedHoldsReach(g, start, visited, k - 1);
    }
  }

  /** A closed visited set without the end: the end cannot be reached. */
  lemma ClosedAnswer(g: Grid, start: GridIndex, end: GridIndex, visited: set<GridIndex>)
    requires Shaped(g) && start in visited
    requires forall p :: p in visited ==> p != end && Expanded(g, visited, p)
    ensures Answer(g, start, end, -1)
  {
    forall k: nat
      ensures end !in Reach(g, start, k)
    {
      ClosedHoldsReach(g, start, visited, k);
    }
  }

  /** A node for the end with its exact cost: that cost is the answer. */
  lemma ExactAnswer(g: Grid, start: GridIndex, end: GridIndex, n: Node)
    requires Shaped(g) && Exact(g, start, n) && n.pos == end
    ensures Answer(g, start, end, n.cost)
  {
    forall k: nat | k < n.cost
      ensures end !in Reach(g, start, k)
    {
      ReachMonotone(g, start, k, n.cost - 1);
    }
  }

  /**
   * The last node of cost `d` has left the queue: what remains has cost
   * `d + 1`, and every cell within `d + 1` moves is visited.
   */
  lemma LevelDone(g: Grid, start: GridIndex, end: GridIndex, visited: set<GridIndex>, q: seq<Node>, head: nat, d: nat)
    requires Shaped(g) && Inv(g, start, end, visited, q, head)
    requires Levels(g, start, visited, q, head, head, d)
    ensures Levels(g, start, visited, q, head, |q|, d + 1)
  {
    forall p | p in visited
      ensures InQueue(q, head, p) || Expanded(g, visited, p)
    {
    }
    NextLevel(g, start, visited, q, head, d);
  }

  /** A strict subset of the cells leaves fewer unvisited ones. */
  lemma FewerLeft(cells: set<GridIndex>, a: set<GridIndex>, b: set<GridIndex>)
    requires a <= b <= cells && a != b
    ensures |cells - b| < |cells - a|
  {
    var x :| x in b && x !in a;
    assert cells - a == (cells - b) + (b - a);
    assert (cells - b) * (b - a) == {};
    assert x in b - a;
  }

  /**
   * `FindMinimumDistancesBFS`: the fewest moves from `start` to `end` over
   * open cells, or -1 when there is no way.
   */
  method FindMinimumDistancesBFS(g: Grid, start: GridIndex, end: GridIndex) returns (minCost: int)
    requires Shaped(g) && InGrid(g, start)
    ensures Answer(g, start, end, minCost)
  {
    hide Grow, Positions, Open;
    var visited := {start};
    var q := [Node(start, 0)];
    var head := 0;
    ghost var mid, d := 1, 0;
    assert InQueue(q, 0, start) by {
      assert q[0].pos == start;
    }
    while head < |q|
      invariant Inv(g, start, end, visited, q, head) && head <= mid <= |q|
      invariant Levels(g, start, visited, q, head, mid, d)
      decreases |Cells(g) - visited|, |q| - head
    {
      if head == mid {
        LevelDone(g, start, end, visited, q, head, d);
        mid, d := |q|, d + 1;
      }
      var node := q[head];
      if node.pos == end {
        ExactAnswer(g, start, end, node);
        return node.cost;
      }
      ghost var before, size := visited, |q|;
      visited, q := Visit(g, start, end, visited, q, head, mid, d);
      if visited != before {
        FewerLeft(Cells(g), before, visited);
      }
      head := head + 1;
    }
    forall p | p in visited
      ensures p != end && Expanded(g, visited, p)
    {
      assert !InQueue(q, head, p);
    }
    ClosedAnswer(g, start, end, visited);
    return -1;
  }

  // ---------------------------------------------------------------------
  // The two parts

  /** No byte fell off the grid: every position of the input is non-negative. */
  predicate NonNegative(ps: seq<GridIndex>, n: nat)
    requires n <= |ps|
  {
    forall k :: 0 <= k < n ==> ps[k].row >= 0 && ps[k].col >= 0
  }

  /**
   * `Day18Part1`: on the grid sized by the first `n` bytes and corrupted by
   * them, the fewest moves from the top-left to the bottom-right corner, or
   * -1.
   */
  method Day18Part1(ps: seq<GridIndex>, n: nat) returns (r: int)
    requires n <= |ps| && NonNegative(ps, n)
    ensures var d := CalculateMaxDimensions(ps, n); Answer(Memory(ps, n, d.0, d.1), GridIndex(0, 0), GridIndex(d.0 - 1, d.1 - 1), r)
  {
    var d := CalculateMaxDimensions(ps, n);
    var g := CreateGrid(d.0, d.1);
    g := MarkPositionsInGrid(ps, n, g);
    GridEq(g, Memory(ps, n, d.0, d.1), d.0, d.1);
    r := FindMinimumDistancesBFS(g, GridIndex(0, 0), GridIndex(d.0 - 1, d.1 - 1));
  }

  /** After byte `k` has fallen the bottom-right corner cannot be reached. */
  ghost predicate Cuts(ps: seq<GridIndex>, k: nat)
    requires k < |ps|
  {
    var d := CalculateMaxDimensions(ps, |ps|);
    Unreachable(Memory(ps, k + 1, d.0, d.1), GridIndex(0, 0), GridIndex(d.0 - 1, d.1 - 1))
  }

  /** One iteration of part 2: byte `k` falls, then the search decides whether it cuts. */
  method Fall(ps: seq<GridIndex>, k: nat, g: Grid) returns (g': Grid, cut: bool)
    requires k < |ps| && NonNegative(ps, |ps|)
    requires var d := CalculateMaxDimensions(ps, |ps|); g == Memory(ps, k, d.0, d.1)
    ensures var d := CalculateMaxDimensions(ps, |ps|); g' == Memory(ps, k + 1, d.0, d.1)
    ensures cut <==> Cuts(ps, k)
  {
    hide Reach, Grow;
    var d := CalculateMaxDimensions(ps, |ps|);
    var p := ps[k];
    MemoryStep(ps, k, d.0, d.1);
    g' := g[p.row := g[p.row][p.col := '#']];
    var r := FindMinimumDistancesBFS(g', GridIndex(0, 0), GridIndex(d.0 - 1, d.1 - 1));
    cut := r == -1;
  }

  /**
   * `Day18Part2`: `"col,row"` of the first byte after which the
   * bottom-right corner cannot be reached, or `""` when there is none.
   */
  method Day18Part2(ps: seq<GridIndex>) returns (s: string)
    requires NonNegative(ps, |ps|)
    ensures s == "" <==> forall k :: 0 <= k < |ps| ==> !Cuts(ps, k)
    ensures s != "" ==> exists k :: 0 <= k < |ps| && Cuts(ps, k) && (forall j :: 0 <= j < k ==> !Cuts(ps, j)) && s == ShowPosition(ps[k])
  {
    var d := CalculateMaxDimensions(ps, |ps|);
    var g := CreateGrid(d.0, d.1);
    GridEq(g, Memory(ps, 0, d.0, d.1), d.0, d.1);
    var k := 0;
    while k < |ps|
      invariant 0 <= k <= |ps| && g == Memory(ps, k, d.0, d.1)
      invariant forall j :: 0 <= j < k ==> !Cuts(ps, j)
    {
      var cut;
      g, cut := Fall(ps, k, g);
      if cut {
        s := ShowPosition(ps[k]);
        assert |s| >= 1;
        return;
      }
      k := k + 1;
    }
    return "";
  }
}
