/**
 * 2021 day 12: a cave system given as a list of `a-b` passages.  Caves
 * whose name starts with a lower-case letter are small.  Part 1 counts the
 * walks from `start` to `end` that enter no small cave twice; part 2 lets
 * one small cave be entered twice, but never `start` again.
 *
 * Both parts are a depth-first search that mutates one shared bookkeeping
 * structure and undoes its change on the way back.  The model pairs each
 * search with a pure enumeration of the walks it counts and characterises
 * those walks independently.
 */
module PassagePathing {
  import opened Common

  datatype Edge = Edge(v1: string, v2: string)

  // ---------------------------------------------------------------------
  // Reading an edge

  /**
   * A passage line split at its first `-`.  Without a `-` the second
   * string would start one past the end, so a `-` is required.
   */
  function ParseEdge(line: string): (e: Edge)
    requires '-' in line
    ensures e.v1 + "-" + e.v2 == line
    ensures '-' !in e.v1
  {
    var i := IndexOf(line, '-');
    assert line == line[..i] + "-" + line[i + 1..];
    Edge(line[..i], line[i + 1..])
  }

  /** The split is at the first `-`: the second name may contain more. */
  lemma ParseShowEdge(a: string, b: string)
    requires '-' !in a
    ensures ParseEdge(a + "-" + b) == Edge(a, b)
  {
    var line := a + "-" + b;
    var e := ParseEdge(line);
    var i := IndexOf(line, '-');
    assert line[|a|] == '-';
    assert line[..|a|] == a;
    assert i == |a|;
    assert line[..i] == a;
    assert line[i + 1..] == b;
  }

  // ---------------------------------------------------------------------
  // The graph

  /** `islower` of the first character; an empty name reads the '\0' terminator. */
  predicate IsSmall(v: string)
  {
    |v| > 0 && 'a' <= v[0] <= 'z'
  }

  /** Does edge `e` join `u` to `v` (in either direction)? */
  predicate Joins(e: Edge, u: string, v: string)
  {
    (e.v1 == u && e.v2 == v) || (e.v2 == u && e.v1 == v)
  }

  /**
   * The adjacency list of `u` after all edges have been added: every edge
   * appends its other end to the lists of both of its ends, in input order.
   */
  function Adj(edges: seq<Edge>, u: string): seq<string>
  {
    if |edges| == 0 then []
    else
      var e := edges[|edges| - 1];
      Adj(edges[..|edges| - 1], u) + (if e.v1 == u then [e.v2] else []) + (if e.v2 == u then [e.v1] else [])
  }

  type Graph = map<string, seq<string>>

  /** `madjMat[u]`: a cave no edge mentions has no neighbours. */
  function Neighbours(g: Graph, u: string): seq<string>
  {
    if u in g then g[u] else []
  }

  ghost predicate Represents(g: Graph, edges: seq<Edge>)
  {
    forall u :: Neighbours(g, u) == Adj(edges, u)
  }

  /** The `Graph` constructor. */
  method BuildGraph(edges: seq<Edge>) returns (g: Graph)
    ensures Represents(g, edges)
  {
    g := map[];
    var i := 0;
    while i < |edges|
      invariant 0 <= i <= |edges|
      invariant Represents(g, edges[..i])
    {
      var e := edges[i];
      g := g[e.v1 := Neighbours(g, e.v1) + [e.v2]];
      g := g[e.v2 := Neighbours(g, e.v2) + [e.v1]];
      assert edges[..i + 1][..i] == edges[..i];
      i := i + 1;
    }
    assert edges[..i] == edges;
  }

  /** `v` is listed next to `u` exactly when some edge joins them. */
  lemma {:induction false} AdjMembers(edges: seq<Edge>, u: string, v: string)
    ensures v in Adj(edges, u) <==> exists k :: 0 <= k < |edges| && Joins(edges[k], u, v)
  {
    if |edges| > 0 {
      var init := edges[..|edges| - 1];
      AdjMembers(init, u, v);
      if v in Adj(init, u) {
        var k :| 0 <= k < |init| && Joins(init[k], u, v);
        assert edges[k] == init[k];
      }
      if exists k :: 0 <= k < |edges| && Joins(edges[k], u, v) {
        var k :| 0 <= k < |edges| && Joins(edges[k], u, v);
        if k < |init| {
          assert init[k] == edges[k];
        }
      }
    }
  }

  /**
   * Adjacency is symmetric: `v` occurs as often in the list of `u` as `u`
   * in the list of `v`.
   */
  lemma {:induction false} AdjSymmetric(edges: seq<Edge>, u: string, v: string)
    ensures Count(Adj(edges, u), v) == Count(Adj(edges, v), u)
  {
    if |edges| > 0 {
      var init := edges[..|edges| - 1];
      var e := edges[|edges| - 1];
      AdjSymmetric(init, u, v);
      var a1: seq<string> := if e.v1 == u then [e.v2] else [];
      var a2: seq<string> := if e.v2 == u then [e.v1] else [];
      var b1: seq<string> := if e.v1 == v then [e.v2] else [];
      var b2: seq<string> := if e.v2 == v then [e.v1] else [];
      CountAppend(Adj(init, u) + a1, a2, v);
      CountAppend(Adj(init, u), a1, v);
      CountAppend(Adj(init, v) + b1, b2, u);
      CountAppend(Adj(init, v), b1, u);
    }
  }

  function Vertices(edges: seq<Edge>): set<string>
  {
    (set k | 0 <= k < |edges| :: edges[k].v1) + (set k | 0 <= k < |edges| :: edges[k].v2)
  }

  function SmallVertices(edges: seq<Edge>): set<string>
  {
    set x | x in Vertices(edges) && IsSmall(x)
  }

  /**
   * No passage joins two big caves.  Without this both searches recurse
   * forever between the two, so the puzzle inputs respect it.
   */
  predicate NoBigPair(edges: seq<Edge>)
  {
    forall k :: 0 <= k < |edges| ==> IsSmall(edges[k].v1) || IsSmall(edges[k].v2)
  }

  /** A neighbour relation stays among the vertices and is never big to big. */
  lemma AdjVertices(edges: seq<Edge>, u: string, v: string)
    requires v in Adj(edges, u)
    ensures u in Vertices(edges) && v in Vertices(edges)
    ensures NoBigPair(edges) ==> IsSmall(u) || IsSmall(v)
  {
    AdjMembers(edges, u, v);
    var k :| 0 <= k < |edges| && Joins(edges[k], u, v);
    assert edges[k].v1 in Vertices(edges);
    assert edges[k].v2 in Vertices(edges);
  }

  function Big(u: string): nat
  {
    if IsSmall(u) then 0 else 1
  }

  /** The walks `ws`, each with `u` put in front. */
  function Prefix(u: string, ws: seq<seq<string>>): (r: seq<seq<string>>)
    ensures |r| == |ws|
  {
    seq(|ws|, i requires 0 <= i < |ws| => [u] + ws[i])
  }

  lemma PrefixMember(u: string, ws: seq<seq<string>>, w: seq<string>)
    ensures w in Prefix(u, ws) <==> |w| >= 1 && w[0] == u && w[1..] in ws
  {
    var r := Prefix(u, ws);
    if w in r {
      var i :| 0 <= i < |r| && r[i] == w;
      assert w[1..] == ws[i];
    }
    if |w| >= 1 && w[0] == u && w[1..] in ws {
      var i :| 0 <= i < |ws| && ws[i] == w[1..];
      assert r[i] == w;
    }
  }

  // ---------------------------------------------------------------------
  // Part 1: no small cave twice

  function Visit(visited: set<string>, u: string): set<string>
  {
    if IsSmall(u) then visited + {u} else visited
  }

  function Unvisited(edges: seq<Edge>, visited: set<string>): nat
  {
    |SmallVertices(edges) - visited|
  }

  lemma VisitShrinks(edges: seq<Edge>, u: string, v: string, visited: set<string>)
    requires NoBigPair(edges)
    requires v in Adj(edges, u)
    requires !(IsSmall(u) && u in visited)
    ensures IsSmall(u) ==> Unvisited(edges, Visit(visited, u)) < Unvisited(edges, visited)
    ensures !IsSmall(u) ==> Visit(visited, u) == visited && IsSmall(v)
  {
    AdjVertices(edges, u, v);
    if IsSmall(u) {
      var s := SmallVertices(edges);
      assert u in s - visited;
      assert s - Visit(visited, u) == (s - visited) - {u};
    }
  }

  /**
   * The walks part 1 counts from `u` with the small caves `visited`
   * already on the stack, in the order the search finds them.
   */
  function Walks1(edges: seq<Edge>, u: string, visited: set<string>): seq<seq<string>>
    requires NoBigPair(edges)
    decreases Unvisited(edges, visited), Big(u), 1, 0
  {
    if u == "end" then [["end"]]
    else if IsSmall(u) && u in visited then []
    else WalksFrom1(edges, u, 0, visited)
  }

  /** The walks through the neighbours of `u` from the `k`-th on. */
  function WalksFrom1(edges: seq<Edge>, u: string, k: nat, visited: set<string>): seq<seq<string>>
    requires NoBigPair(edges)
    requires k <= |Adj(edges, u)|
    requires !(IsSmall(u) && u in visited)
    decreases Unvisited(edges, visited), Big(u), 0, |Adj(edges, u)| - k
  {
    if k == |Adj(edges, u)| then []
    else
      var v := Adj(edges, u)[k];
      VisitShrinks(edges, u, v, visited);
      Prefix(u, Walks1(edges, v, Visit(visited, u))) + WalksFrom1(edges, u, k + 1, visited)
  }

  /** The walk stops at `end`. */
  predicate Ends(w: seq<string>)
  {
    |w| >= 1 && w[|w| - 1] == "end"
  }

  /** Every step before the last leaves a cave other than `end` along a passage. */
  predicate Steps(edges: seq<Edge>, w: seq<string>)
  {
    forall i :: 0 <= i < |w| - 1 ==> w[i] != "end" && w[i + 1] in Adj(edges, w[i])
  }

  /** No small cave left on the way is in `visited`. */
  predicate Fresh(w: seq<string>, visited: set<string>)
  {
    forall i :: 0 <= i < |w| - 1 && IsSmall(w[i]) ==> w[i] !in visited
  }

  /** No small cave is left twice. */
  predicate NoRepeat(w: seq<string>)
  {
    forall i, j :: 0 <= j < i < |w| - 1 && IsSmall(w[i]) ==> w[j] != w[i]
  }

  /**
   * A walk for part 1: it ends at its first `end`, steps along passages,
   * and enters no small cave that is in `visited` or that it entered
   * before.
   */
  predicate Walk1(edges: seq<Edge>, w: seq<string>, visited: set<string>)
  {
    Ends(w) && Steps(edges, w) && Fresh(w, visited) && NoRepeat(w)
  }

  lemma StepsCons(edges: seq<Edge>, u: string, w: seq<string>)
    requires |w| >= 1
    ensures Steps(edges, [u] + w) <==> u != "end" && w[0] in Adj(edges, u) && Steps(edges, w)
  {
    var uw := [u] + w;
    if Steps(edges, uw) {
      assert uw[0] == u && uw[1] == w[0];
      forall i | 0 <= i < |w| - 1
        ensures w[i] != "end" && w[i + 1] in Adj(edges, w[i])
      {
        assert w[i] == uw[i + 1] && w[i + 1] == uw[i + 2];
      }
    }
    if u != "end" && w[0] in Adj(edges, u) && Steps(edges, w) {
      forall i | 0 <= i < |uw| - 1
        ensures uw[i] != "end" && uw[i + 1] in Adj(edges, uw[i])
      {
        if i > 0 {
          assert uw[i] == w[i - 1] && uw[i + 1] == w[i];
        }
      }
    }
  }

  lemma FreshCons(u: string, w: seq<string>, visited: set<string>)
    requires |w| >= 1
    ensures Fresh([u] + w, visited) && NoRepeat([u] + w) <==>
      !(IsSmall(u) && u in visited) && Fresh(w, Visit(visited, u)) && NoRepeat(w)
  {
    var uw := [u] + w;
    var vis := Visit(visited, u);
    if Fresh(uw, visited) && NoRepeat(uw) {
      assert uw[0] == u;
      forall i | 0 <= i < |w| - 1 && IsSmall(w[i])
        ensures w[i] !in vis
      {
        assert w[i] == uw[i + 1];
        assert uw[0] != uw[i + 1];
      }
      forall i, j | 0 <= j < i < |w| - 1 && IsSmall(w[i])
        ensures w[j] != w[i]
      {
        assert w[i] == uw[i + 1] && w[j] == uw[j + 1];
      }
    }
    if !(IsSmall(u) && u in visited) && Fresh(w, vis) && NoRepeat(w) {
      forall i | 0 <= i < |uw| - 1 && IsSmall(uw[i])
        ensures uw[i] !in visited
      {
        if i > 0 {
          assert uw[i] == w[i - 1];
        }
      }
      forall i, j | 0 <= j < i < |uw| - 1 && IsSmall(uw[i])
        ensures uw[j] != uw[i]
      {
        assert uw[i] == w[i - 1];
        if j > 0 {
          assert uw[j] == w[j - 1];
        } else {
          assert uw[i] !in vis;
        }
      }
    }
  }

  /** A walk through `u` is `u` followed by a walk with `u` visited. */
  lemma Walk1Cons(edges: seq<Edge>, u: string, w: seq<string>, visited: set<string>)
    requires u != "end"
    ensures Walk1(edges, [u] + w, visited) <==>
      && !(IsSmall(u) && u in visited)
      && |w| >= 1 && w[0] in Adj(edges, u)
      && Walk1(edges, w, Visit(visited, u))
  {
    if |w| >= 1 {
      StepsCons(edges, u, w);
      FreshCons(u, w, visited);
      assert ([u] + w)[|w|] == w[|w| - 1];
    } else {
      assert [u] + w == [u];
    }
  }

  /** `w` is `u` followed by a walk through its `j`-th neighbour. */
  predicate Via1(edges: seq<Edge>, u: string, j: int, visited: set<string>, w: seq<string>)
    requires NoBigPair(edges)
  {
    && 0 <= j < |Adj(edges, u)|
    && |w| >= 1 && w[0] == u && w[1..] in Walks1(edges, Adj(edges, u)[j], Visit(visited, u))
  }

  lemma WalksFrom1Split(edges: seq<Edge>, u: string, k: nat, visited: set<string>, w: seq<string>)
    requires NoBigPair(edges)
    requires k <= |Adj(edges, u)|
    requires !(IsSmall(u) && u in visited)
    ensures k == |Adj(edges, u)| ==> w !in WalksFrom1(edges, u, k, visited)
    ensures k < |Adj(edges, u)| ==>
      (w in WalksFrom1(edges, u, k, visited) <==>
        w in Prefix(u, Walks1(edges, Adj(edges, u)[k], Visit(visited, u)))
        || w in WalksFrom1(edges, u, k + 1, visited))
  {
  }

  /** A walk the enumeration lists from the `k`-th neighbour on goes through some later neighbour. */
  lemma {:induction false} WalksFrom1Pick(edges: seq<Edge>, u: string, k: nat, visited: set<string>, w: seq<string>)
    returns (j: nat)
    requires NoBigPair(edges)
    requires k <= |Adj(edges, u)|
    requires !(IsSmall(u) && u in visited)
    requires w in WalksFrom1(edges, u, k, visited)
    ensures k <= j && Via1(edges, u, j, visited, w)
    decreases |Adj(edges, u)| - k
  {
    hide WalksFrom1, Walks1, Prefix, Unvisited;
    var a := Adj(edges, u);
    WalksFrom1Split(edges, u, k, visited, w);
    assert k < |a|;
    if w in WalksFrom1(edges, u, k + 1, visited) {
      j := WalksFrom1Pick(edges, u, k + 1, visited, w);
    } else {
      PrefixMember(u, Walks1(edges, a[k], Visit(visited, u)), w);
      j := k;
    }
  }

  /** A walk through the `j`-th neighbour is listed from every `k <= j` on. */
  lemma {:induction false} WalksFrom1Reach(edges: seq<Edge>, u: string, k: nat, j: nat, visited: set<string>, w: seq<string>)
    requires NoBigPair(edges)
    requires k <= j
    requires !(IsSmall(u) && u in visited)
    requires Via1(edges, u, j, visited, w)
    ensures w in WalksFrom1(edges, u, k, visited)
    decreases j - k
  {
    hide WalksFrom1, Walks1, Prefix, Unvisited;
    var a := Adj(edges, u);
    assert k < |a|;
    WalksFrom1Split(edges, u, k, visited, w);
    if k < j {
      hide Via1;
      WalksFrom1Reach(edges, u, k + 1, j, visited, w);
    } else {
      PrefixMember(u, Walks1(edges, a[k], Visit(visited, u)), w);
    }
  }

  /** Every walk part 1's enumeration lists from `u` is a walk from `u`. */
  lemma {:induction false} Walks1Sound(edges: seq<Edge>, u: string, visited: set<string>, w: seq<string>)
    requires NoBigPair(edges)
    requires w in Walks1(edges, u, visited)
    ensures |w| >= 1 && w[0] == u && Walk1(edges, w, visited)
    decreases Unvisited(edges, visited), Big(u)
  {
    Walks1Unfold(edges, u, visited);
    if u == "end" {
      assert w == ["end"];
      return;
    }
    hide Walk1, Walks1, WalksFrom1, Unvisited;
    var a := Adj(edges, u);
    var j := WalksFrom1Pick(edges, u, 0, visited, w);
    VisitShrinks(edges, u, a[j], visited);
    Walks1Sound(edges, a[j], Visit(visited, u), w[1..]);
    assert w == [u] + w[1..];
    Walk1Cons(edges, u, w[1..], visited);
  }

  /** Every walk from `u` is listed by part 1's enumeration. */
  lemma {:induction false} Walks1Complete(edges: seq<Edge>, u: string, visited: set<string>, w: seq<string>)
    requires NoBigPair(edges)
    requires |w| >= 1 && w[0] == u && Walk1(edges, w, visited)
    ensures w in Walks1(edges, u, visited)
    decreases Unvisited(edges, visited), Big(u)
  {
    Walks1Unfold(edges, u, visited);
    if u == "end" {
      assert |w| == 1;
      assert w == ["end"];
      return;
    }
    hide Walk1, Walks1, WalksFrom1, Unvisited;
    assert w == [u] + w[1..];
    Walk1Cons(edges, u, w[1..], visited);
    var a := Adj(edges, u);
    var v := w[1];
    var j :| 0 <= j < |a| && a[j] == v;
    VisitShrinks(edges, u, v, visited);
    Walks1Complete(edges, v, Visit(visited, u), w[1..]);
    assert Via1(edges, u, j, visited, w);
    WalksFrom1Reach(edges, u, 0, j, visited, w);
  }

  /** Part 1's enumeration lists exactly the walks from `u`. */
  lemma Walks1Exact(edges: seq<Edge>, u: string, visited: set<string>, w: seq<string>)
    requires NoBigPair(edges)
    ensures w in Walks1(edges, u, visited) <==> |w| >= 1 && w[0] == u && Walk1(edges, w, visited)
  {
    if w in Walks1(edges, u, visited) {
      Walks1Sound(edges, u, visited, w);
    }
    if |w| >= 1 && w[0] == u && Walk1(edges, w, visited) {
      Walks1Complete(edges, u, visited, w);
    }
  }

  lemma Walks1Unfold(edges: seq<Edge>, u: string, visited: set<string>)
    requires NoBigPair(edges)
    ensures u == "end" ==> Walks1(edges, u, visited) == [["end"]]
    ensures u != "end" && IsSmall(u) && u in visited ==> Walks1(edges, u, visited) == []
    ensures u != "end" && !(IsSmall(u) && u in visited) ==> Walks1(edges, u, visited) == WalksFrom1(edges, u, 0, visited)
    ensures !(IsSmall(u) && u in visited) ==> WalksFrom1(edges, u, |Adj(edges, u)|, visited) == []
  {
  }

  lemma WalksFrom1Next(edges: seq<Edge>, u: string, k: nat, visited: set<string>)
    requires NoBigPair(edges)
    requires k < |Adj(edges, u)|
    requires !(IsSmall(u) && u in visited)
    ensures |WalksFrom1(edges, u, k, visited)| ==
      |Walks1(edges, Adj(edges, u)[k], Visit(visited, u))| + |WalksFrom1(edges, u, k + 1, visited)|
  {
  }

  /**
   * `TotalPathsPart1_REC`: adds the walks from `u` to `total` and leaves
   * the visited set as it found it.
   */
  method CountPaths1(g: Graph, ghost edges: seq<Edge>, u: string, visited: set<string>, total: nat)
    returns (visitedOut: set<string>, totalOut: nat)
    requires Represents(g, edges)
    requires NoBigPair(edges)
    ensures visitedOut == visited
    ensures totalOut == total + |Walks1(edges, u, visited)|
    decreases Unvisited(edges, visited), Big(u), 1
  {
    Walks1Unfold(edges, u, visited);
    hide Walks1, WalksFrom1, Unvisited;
    if u == "end" {
      return visited, total + 1;
    }
    var small := IsSmall(u);
    if small && u in visited {
      return visited, total;
    }
    var vis := visited;
    if small {
      vis := vis + {u};
    }
    vis, totalOut := NeighbourPaths1(g, edges, u, visited, vis, total);
    if small {
      vis := vis - {u};
    }
    return vis, totalOut;
  }

  /** The loop of `TotalPathsPart1_REC` over the neighbours of `u`. */
  method NeighbourPaths1(g: Graph, ghost edges: seq<Edge>, u: string, ghost visited: set<string>,
                         vis: set<string>, total: nat)
    returns (visOut: set<string>, totalOut: nat)
    requires Represents(g, edges)
    requires NoBigPair(edges)
    requires !(IsSmall(u) && u in visited)
    requires vis == Visit(visited, u)
    ensures visOut == vis
    ensures totalOut == total + |WalksFrom1(edges, u, 0, visited)|
    decreases Unvisited(edges, visited), Big(u), 0
  {
    Walks1Unfold(edges, u, visited);
    var a := Neighbours(g, u);
    assert a == Adj(edges, u);
    hide Walks1, WalksFrom1, Unvisited, Represents, NoBigPair, Adj, Neighbours, Visit;
    visOut := vis;
    var t: nat := total;
    var i := 0;
    while i < |a|
      invariant 0 <= i <= |a|
      invariant a == Adj(edges, u)
      invariant visOut == vis
      invariant t + |WalksFrom1(edges, u, i, visited)| == total + |WalksFrom1(edges, u, 0, visited)|
    {
      WalksFrom1Next(edges, u, i, visited);
      VisitShrinks(edges, u, a[i], visited);
      visOut, t := CountPaths1(g, edges, a[i], visOut, t);
      i := i + 1;
    }
    totalOut := t;
  }

  /** `TotalPathsPart1`. */
  method TotalPathsPart1(g: Graph, ghost edges: seq<Edge>) returns (n: nat)
    requires Represents(g, edges)
    requires NoBigPair(edges)
    ensures n == |Walks1(edges, "start", {})|
  {
    var _, t := CountPaths1(g, edges, "start", {}, 0);
    n := t;
  }

  /** The caves `start - A - B - end`, with the two big caves `A` and `B` joined. */
  function BigPairCaves(): seq<Edge>
  {
    [Edge("start", "A"), Edge("A", "B"), Edge("B", "end")]
  }

  /** The neighbour lists of `BigPairCaves`, edge by edge. */
  lemma BigPairAdj()
    ensures Adj(BigPairCaves(), "start") == ["A"]
    ensures Adj(BigPairCaves(), "A") == ["start", "B"]
    ensures Adj(BigPairCaves(), "B") == ["A", "end"]
  {
    var e := BigPairCaves();
    var e1, e2 := [Edge("start", "A")], [Edge("start", "A"), Edge("A", "B")];
    assert e[..2] == e2 && e2[..1] == e1 && e1[..0] == [];
    assert Adj(e1, "start") == ["A"] && Adj(e1, "A") == ["start"] && Adj(e1, "B") == [];
    assert Adj(e2, "start") == ["A"] && Adj(e2, "A") == ["start", "B"] && Adj(e2, "B") == ["A"];
  }

  /**
   * With two big caves joined there are part 1 walks of every length
   * (`start`, then `A B` repeated, then `end`), so the search, which
   * finds the walks one by one, never returns.  `NoBigPair` rules this
   * out and is what `TotalPathsPart1` requires.
   */
  lemma BigPairUnbounded(n: nat) returns (w: seq<string>)
    ensures !NoBigPair(BigPairCaves())
    ensures |w| >= n && Walk1(BigPairCaves(), w, {})
  {
    var e := BigPairCaves();
    assert !(IsSmall(e[1].v1) || IsSmall(e[1].v2));
    BigPairAdj();
    var t := BigPairTail(n);
    BigPairTailShape(n);
    BigPairTailSteps(n);
    hide Adj, BigPairCaves, BigPairTail;
    w := ["start"] + t;
    StepsCons(e, "start", t);
    forall i | 0 < i < |w| - 1
      ensures !IsSmall(w[i])
    {
      assert w[i] == t[i - 1];
      assert w[i] == "A" || w[i] == "B";
    }
  }

  /** `A B` repeated `k` times more, then `A B end`. */
  function BigPairTail(k: nat): seq<string>
  {
    if k == 0 then ["A", "B", "end"] else ["A", "B"] + BigPairTail(k - 1)
  }

  /** That tail runs through `A` and `B` only, from `A` to `end`. */
  lemma {:induction false} BigPairTailShape(k: nat)
    ensures var t := BigPairTail(k);
      && |t| == 2 * k + 3 && t[0] == "A" && Ends(t)
      && forall i :: 0 <= i < |t| - 1 ==> t[i] == "A" || t[i] == "B"
  {
    if k > 0 {
      BigPairTailShape(k - 1);
      var r, t := BigPairTail(k - 1), BigPairTail(k);
      forall i | 0 <= i < |t| - 1
        ensures t[i] == "A" || t[i] == "B"
      {
        if i >= 2 {
          assert t[i] == r[i - 2];
        }
      }
    }
  }

  /** ...and steps along the passages of `BigPairCaves`. */
  lemma {:induction false} BigPairTailSteps(k: nat)
    ensures Steps(BigPairCaves(), BigPairTail(k))
  {
    var e := BigPairCaves();
    BigPairAdj();
    BigPairTailShape(k);
    hide Adj, BigPairCaves;
    var r := if k == 0 then ["end"] else BigPairTail(k - 1);
    if k > 0 {
      BigPairTailSteps(k - 1);
      BigPairTailShape(k - 1);
    }
    StepsCons(e, "B", r);
    StepsCons(e, "A", ["B"] + r);
    assert BigPairTail(k) == ["A"] + (["B"] + r);
  }

  // ---------------------------------------------------------------------
  // Part 2: one small cave twice

  /**
   * `IsSmallCaveVisitingCriteria` as a property of the visit counts: no
   * cave entered three times, and at most one entered twice.
   */
  predicate Criterion(c: multiset<string>)
  {
    && (forall x | x in c :: c[x] < 3)
    && (forall x, y | x in c && y in c :: c[x] == 2 && c[y] == 2 ==> x == y)
  }

  lemma AtMostOne(a: set<string>)
    ensures |a| <= 1 <==> forall x, y :: x in a && y in a ==> x == y
  {
    if |a| > 1 {
      var x :| x in a;
      assert |a - {x}| > 0;
      var y :| y in a - {x};
    }
    if exists x, y :: x in a && y in a && x != y {
      var x, y :| x in a && y in a && x != y;
      assert a == {x, y} + (a - {x, y});
      assert |{x, y}| == 2;
    }
  }

  ghost function Thrice(seen: set<string>, c: multiset<string>): set<string>
  {
    set x | x in seen && c[x] >= 3
  }

  ghost function Twice(seen: set<string>, c: multiset<string>): set<string>
  {
    set x | x in seen && c[x] == 2
  }

  lemma SeenOneMore(seen: set<string>, k: string, c: multiset<string>)
    requires k !in seen
    ensures |Thrice(seen + {k}, c)| == |Thrice(seen, c)| + (if c[k] >= 3 then 1 else 0)
    ensures |Twice(seen + {k}, c)| == |Twice(seen, c)| + (if c[k] == 2 then 1 else 0)
  {
    ThriceOneMore(seen, k, c);
    TwiceOneMore(seen, k, c);
  }

  lemma ThriceOneMore(seen: set<string>, k: string, c: multiset<string>)
    ensures Thrice(seen + {k}, c) == Thrice(seen, c) + (if c[k] >= 3 then {k} else {})
  {
  }

  lemma TwiceOneMore(seen: set<string>, k: string, c: multiset<string>)
    ensures Twice(seen + {k}, c) == Twice(seen, c) + (if c[k] == 2 then {k} else {})
  {
  }

  /** Once every entry is counted, the two tallies decide the rule. */
  lemma TalliesDecide(c: multiset<string>)
    ensures Criterion(c) <==> |Thrice((set x | x in c), c)| == 0 && |Twice((set x | x in c), c)| <= 1
  {
    var keys := set x | x in c;
    var big := Thrice(keys, c);
    var pair := Twice(keys, c);
    AtMostOne(pair);
    if |big| != 0 {
      var x :| x in big;
      assert c[x] >= 3;
    }
    assert forall x | x in c && c[x] >= 3 :: x in big;
    assert (forall x, y | x in c && y in c :: c[x] == 2 && c[y] == 2 ==> x == y) <==> |pair| <= 1 by {
      forall x, y | x in c && y in c && c[x] == 2 && c[y] == 2
        ensures x in pair && y in pair
      {
      }
    }
  }

  /**
   * `IsSmallCaveVisitingCriteria`: counts the caves at three or more and
   * the caves at exactly two, over the entries in no particular order.
   */
  method IsSmallCaveVisitingCriteria(c: multiset<string>) returns (ok: bool)
    ensures ok == Criterion(c)
  {
    var rest := set x | x in c;
    var threes := 0;
    var twos := 0;
    ghost var seen := {};
    while rest != {}
      invariant rest + seen == set x | x in c
      invariant rest !! seen
      invariant threes == |Thrice(seen, c)|
      invariant twos == |Twice(seen, c)|
      decreases |rest|
    {
      var k :| k in rest;
      SeenOneMore(seen, k, c);
      if c[k] >= 3 {
        threes := threes + 1;
      }
      if c[k] == 2 {
        twos := twos + 1;
      }
      rest := rest - {k};
      seen := seen + {k};
    }
    TalliesDecide(c);
    ok := threes == 0 && twos <= 1;
  }

  function Bump(c: multiset<string>, u: string): multiset<string>
  {
    if IsSmall(u) then c + multiset{u} else c
  }

  /** The (cave, visit) slots still free below three visits per small cave. */
  function Tokens(s: set<string>, c: multiset<string>): set<(string, int)>
  {
    set x, k | x in s && 0 <= k < 3 && k < c[x] :: (x, k)
  }

  function Slots(s: set<string>): set<(string, int)>
  {
    set x, k | x in s && 0 <= k < 3 :: (x, k)
  }

  function Unspent(edges: seq<Edge>, c: multiset<string>): nat
  {
    |Slots(SmallVertices(edges)) - Tokens(SmallVertices(edges), c)|
  }

  lemma BumpShrinks(edges: seq<Edge>, u: string, v: string, c: multiset<string>)
    requires NoBigPair(edges)
    requires v in Adj(edges, u)
    requires Criterion(c)
    ensures IsSmall(u) ==> Unspent(edges, Bump(c, u)) < Unspent(edges, c)
    ensures !IsSmall(u) ==> Bump(c, u) == c && IsSmall(v)
    ensures Unspent(edges, Bump(c, u)) < Unspent(edges, c) || (Bump(c, u) == c && Big(v) < Big(u))
  {
    AdjVertices(edges, u, v);
    if IsSmall(u) {
      var s := SmallVertices(edges);
      var c' := Bump(c, u);
      assert u in s;
      TokensBump(s, u, c);
    }
  }

  lemma TokensBump(s: set<string>, u: string, c: multiset<string>)
    requires u in s
    requires c[u] < 3
    ensures |Slots(s) - Tokens(s, c + multiset{u})| < |Slots(s) - Tokens(s, c)|
  {
    var p := (u, c[u]);
    TokensAdd(s, u, c);
    var free := Slots(s) - Tokens(s, c);
    assert p in free;
    assert Slots(s) - Tokens(s, c + multiset{u}) == free - {p};
  }

  /** One more visit to `u` takes exactly the slot `(u, c[u])`. */
  lemma TokensAdd(s: set<string>, u: string, c: multiset<string>)
    requires u in s
    requires c[u] < 3
    ensures Tokens(s, c + multiset{u}) == Tokens(s, c) + {(u, c[u])}
    ensures (u, c[u]) !in Tokens(s, c)
  {
    var c' := c + multiset{u};
    var p := (u, c[u]);
    forall q | q in Tokens(s, c')
      ensures q in Tokens(s, c) || q == p
    {
      var x, k :| x in s && 0 <= k < 3 && k < c'[x] && q == (x, k);
      if x != u {
        assert c'[x] == c[x];
      } else {
        assert c'[x] == c[x] + 1;
      }
    }
    forall q | q in Tokens(s, c) || q == p
      ensures q in Tokens(s, c')
    {
      if q != p {
        var x, k :| x in s && 0 <= k < 3 && k < c[x] && q == (x, k);
        assert c'[x] >= c[x];
      } else {
        assert c'[u] == c[u] + 1;
      }
    }
  }

  /**
   * The walks part 2 counts from `u` with visit counts `c`, in the order
   * the search finds them.  The counts are checked on entry, so the count
   * that breaks the rule is the one the caller added.
   */
  function Walks2(edges: seq<Edge>, u: string, c: multiset<string>): seq<seq<string>>
    requires NoBigPair(edges)
    decreases Unspent(edges, c), Big(u), 1, 0
  {
    if !Criterion(c) then []
    else if u == "end" then [["end"]]
    else WalksFrom2(edges, u, 0, c)
  }

  function WalksFrom2(edges: seq<Edge>, u: string, k: nat, c: multiset<string>): seq<seq<string>>
    requires NoBigPair(edges)
    requires k <= |Adj(edges, u)|
    requires Criterion(c)
    decreases Unspent(edges, c), Big(u), 0, |Adj(edges, u)| - k
  {
    if k == |Adj(edges, u)| then []
    else
      var v := Adj(edges, u)[k];
      BumpShrinks(edges, u, v, c);
      (if v == "start" then [] else Prefix(u, Walks2(edges, v, Bump(c, u)))) + WalksFrom2(edges, u, k + 1, c)
  }

  /** The small caves entered along `s`, with multiplicity. */
  function SmallVisits(s: seq<string>): multiset<string>
  {
    if |s| == 0 then multiset{} else Bump(multiset{}, s[0]) + SmallVisits(s[1..])
  }

  /** `start` is never entered again. */
  predicate NoReturn(w: seq<string>)
  {
    forall i :: 1 <= i < |w| ==> w[i] != "start"
  }

  /** The rule holds on entry to every cave of `w`. */
  predicate RuleHolds(w: seq<string>, c: multiset<string>)
  {
    forall i :: 0 <= i < |w| ==> Criterion(c + SmallVisits(w[..i]))
  }

  /**
   * A walk for part 2: it ends at its first `end`, steps along passages,
   * never returns to `start`, and the rule holds on entry to every cave,
   * counting the small caves entered before it.
   */
  predicate Walk2(edges: seq<Edge>, w: seq<string>, c: multiset<string>)
  {
    Ends(w) && Steps(edges, w) && NoReturn(w) && RuleHolds(w, c)
  }

  lemma SmallVisitsCons(u: string, w: seq<string>, c: multiset<string>, i: nat)
    requires i <= |w|
    ensures c + SmallVisits(([u] + w)[..i + 1]) == Bump(c, u) + SmallVisits(w[..i])
  {
    var p := ([u] + w)[..i + 1];
    assert p[0] == u;
    assert p[1..] == w[..i];
  }

  lemma NoReturnCons(u: string, w: seq<string>)
    requires |w| >= 1
    ensures NoReturn([u] + w) <==> w[0] != "start" && NoReturn(w)
  {
    var uw := [u] + w;
    if NoReturn(uw) {
      assert uw[1] == w[0];
      forall i | 1 <= i < |w|
        ensures w[i] != "start"
      {
        assert w[i] == uw[i + 1];
      }
    }
    if w[0] != "start" && NoReturn(w) {
      forall i | 1 <= i < |uw|
        ensures uw[i] != "start"
      {
        assert uw[i] == w[i - 1];
      }
    }
  }

  lemma RuleCons(u: string, w: seq<string>, c: multiset<string>)
    ensures RuleHolds([u] + w, c) <==> Criterion(c) && RuleHolds(w, Bump(c, u))
  {
    hide Criterion;
    var uw := [u] + w;
    var c' := Bump(c, u);
    assert uw[..0] == [];
    assert c + SmallVisits(uw[..0]) == c;
    if RuleHolds(uw, c) {
      assert Criterion(c + SmallVisits(uw[..0]));
      forall i | 0 <= i < |w|
        ensures Criterion(c' + SmallVisits(w[..i]))
      {
        SmallVisitsCons(u, w, c, i);
        assert Criterion(c + SmallVisits(uw[..i + 1]));
      }
    }
    if Criterion(c) && RuleHolds(w, c') {
      forall i | 0 <= i < |uw|
        ensures Criterion(c + SmallVisits(uw[..i]))
      {
        if i > 0 {
          SmallVisitsCons(u, w, c, i - 1);
          assert Criterion(c' + SmallVisits(w[..i - 1]));
        }
      }
    }
  }

  lemma Walk2Cons(edges: seq<Edge>, u: string, w: seq<string>, c: multiset<string>)
    requires u != "end"
    ensures Walk2(edges, [u] + w, c) <==>
      && Criterion(c)
      && |w| >= 1 && w[0] in Adj(edges, u) && w[0] != "start"
      && Walk2(edges, w, Bump(c, u))
  {
    if |w| >= 1 {
      StepsCons(edges, u, w);
      NoReturnCons(u, w);
      RuleCons(u, w, c);
      assert ([u] + w)[|w|] == w[|w| - 1];
    } else {
      assert [u] + w == [u];
    }
  }

  /** `w` is `u` followed by a walk through its `j`-th neighbour. */
  predicate Via2(edges: seq<Edge>, u: string, j: int, c: multiset<string>, w: seq<string>)
    requires NoBigPair(edges)
  {
    && 0 <= j < |Adj(edges, u)| && Adj(edges, u)[j] != "start"
    && |w| >= 1 && w[0] == u && w[1..] in Walks2(edges, Adj(edges, u)[j], Bump(c, u))
  }

  /** A walk the enumeration lists from the `k`-th neighbour on goes through some later neighbour. */
  lemma {:induction false} WalksFrom2Pick(edges: seq<Edge>, u: string, k: nat, c: multiset<string>, w: seq<string>)
    returns (j: nat)
    requires NoBigPair(edges)
    requires k <= |Adj(edges, u)|
    requires Criterion(c)
    requires w in WalksFrom2(edges, u, k, c)
    ensures k <= j && Via2(edges, u, j, c, w)
    decreases |Adj(edges, u)| - k
  {
    hide WalksFrom2, Walks2, Criterion, Prefix, Unspent;
    var a := Adj(edges, u);
    WalksFrom2Split(edges, u, k, c, w);
    assert k < |a|;
    if w in WalksFrom2(edges, u, k + 1, c) {
      j := WalksFrom2Pick(edges, u, k + 1, c, w);
    } else {
      PrefixMember(u, Walks2(edges, a[k], Bump(c, u)), w);
      j := k;
    }
  }

  /** A walk through the `j`-th neighbour is listed from every `k <= j` on. */
  lemma {:induction false} WalksFrom2Reach(edges: seq<Edge>, u: string, k: nat, j: nat, c: multiset<string>, w: seq<string>)
    requires NoBigPair(edges)
    requires k <= j
    requires Criterion(c)
    requires Via2(edges, u, j, c, w)
    ensures w in WalksFrom2(edges, u, k, c)
    decreases j - k
  {
    hide WalksFrom2, Walks2, Criterion, Prefix, Unspent;
    var a := Adj(edges, u);
    assert k < |a|;
    WalksFrom2Split(edges, u, k, c, w);
    if k < j {
      hide Via2;
      WalksFrom2Reach(edges, u, k + 1, j, c, w);
    } else {
      PrefixMember(u, Walks2(edges, a[k], Bump(c, u)), w);
    }
  }

  lemma WalksFrom2Split(edges: seq<Edge>, u: string, k: nat, c: multiset<string>, w: seq<string>)
    requires NoBigPair(edges)
    requires k <= |Adj(edges, u)|
    requires Criterion(c)
    ensures k == |Adj(edges, u)| ==> w !in WalksFrom2(edges, u, k, c)
    ensures k < |Adj(edges, u)| ==>
      (w in WalksFrom2(edges, u, k, c) <==>
        (Adj(edges, u)[k] != "start" && w in Prefix(u, Walks2(edges, Adj(edges, u)[k], Bump(c, u))))
        || w in WalksFrom2(edges, u, k + 1, c))
  {
  }

  /** The rule is checked on entry to the first cave, and `end` ends a walk. */
  lemma Walk2Start(edges: seq<Edge>, w: seq<string>, c: multiset<string>)
    requires |w| >= 1
    ensures Walk2(edges, w, c) ==> Criterion(c)
    ensures w[0] == "end" ==> (Walk2(edges, w, c) <==> w == ["end"] && Criterion(c))
  {
    assert w[..0] == [];
    assert c + SmallVisits(w[..0]) == c;
    if w == ["end"] {
      assert SmallVisits(["end"]) == multiset{"end"};
    }
  }

  /** Every walk part 2's enumeration lists from `u` is a walk from `u`. */
  lemma {:induction false} Walks2Sound(edges: seq<Edge>, u: string, c: multiset<string>, w: seq<string>)
    requires NoBigPair(edges)
    requires w in Walks2(edges, u, c)
    ensures |w| >= 1 && w[0] == u && Walk2(edges, w, c)
    decreases Unspent(edges, c), Big(u)
  {
    Walks2Unfold(edges, u, c);
    if u == "end" {
      assert w == ["end"];
      Walk2Start(edges, w, c);
      return;
    }
    hide Criterion, Walk2, Walks2, WalksFrom2, Unspent;
    var a := Adj(edges, u);
    var j := WalksFrom2Pick(edges, u, 0, c, w);
    BumpShrinks(edges, u, a[j], c);
    Walks2Sound(edges, a[j], Bump(c, u), w[1..]);
    assert w == [u] + w[1..];
    Walk2Cons(edges, u, w[1..], c);
  }

  /** Every walk from `u` is listed by part 2's enumeration. */
  lemma {:induction false} Walks2Complete(edges: seq<Edge>, u: string, c: multiset<string>, w: seq<string>)
    requires NoBigPair(edges)
    requires |w| >= 1 && w[0] == u && Walk2(edges, w, c)
    ensures w in Walks2(edges, u, c)
    decreases Unspent(edges, c), Big(u)
  {
    Walk2Start(edges, w, c);
    Walks2Unfold(edges, u, c);
    if u == "end" {
      return;
    }
    hide Criterion, Walk2, Walks2, WalksFrom2, Unspent;
    assert w == [u] + w[1..];
    Walk2Cons(edges, u, w[1..], c);
    var a := Adj(edges, u);
    var v := w[1];
    var j :| 0 <= j < |a| && a[j] == v;
    BumpShrinks(edges, u, v, c);
    Walks2Complete(edges, v, Bump(c, u), w[1..]);
    assert Via2(edges, u, j, c, w);
    WalksFrom2Reach(edges, u, 0, j, c, w);
  }

  /** Part 2's enumeration lists exactly the walks from `u`. */
  lemma Walks2Exact(edges: seq<Edge>, u: string, c: multiset<string>, w: seq<string>)
    requires NoBigPair(edges)
    ensures w in Walks2(edges, u, c) <==> |w| >= 1 && w[0] == u && Walk2(edges, w, c)
  {
    if w in Walks2(edges, u, c) {
      Walks2Sound(edges, u, c, w);
    }
    if |w| >= 1 && w[0] == u && Walk2(edges, w, c) {
      Walks2Complete(edges, u, c, w);
    }
  }

  lemma Walks2Unfold(edges: seq<Edge>, u: string, c: multiset<string>)
    requires NoBigPair(edges)
    ensures !Criterion(c) ==> Walks2(edges, u, c) == []
    ensures Criterion(c) && u == "end" ==> Walks2(edges, u, c) == [["end"]]
    ensures Criterion(c) && u != "end" ==> Walks2(edges, u, c) == WalksFrom2(edges, u, 0, c)
    ensures Criterion(c) ==> WalksFrom2(edges, u, |Adj(edges, u)|, c) == []
  {
  }

  lemma WalksFrom2Next(edges: seq<Edge>, u: string, k: nat, c: multiset<string>)
    requires NoBigPair(edges)
    requires k < |Adj(edges, u)|
    requires Criterion(c)
    ensures |WalksFrom2(edges, u, k, c)| ==
      (if Adj(edges, u)[k] == "start" then 0 else |Walks2(edges, Adj(edges, u)[k], Bump(c, u))|)
      + |WalksFrom2(edges, u, k + 1, c)|
  {
  }

  /**
   * `TotalPathsPart2_REC`: adds the walks from `u` to `total`, skipping
   * `start` as a neighbour, and leaves the counts as it found them.
   */
  method CountPaths2(g: Graph, ghost edges: seq<Edge>, u: string, counts: multiset<string>, total: nat)
    returns (countsOut: multiset<string>, totalOut: nat)
    requires Represents(g, edges)
    requires NoBigPair(edges)
    ensures countsOut == counts
    ensures totalOut == total + |Walks2(edges, u, counts)|
    decreases Unspent(edges, counts), Big(u), 1, 0
  {
    Walks2Unfold(edges, u, counts);
    hide Walks2, WalksFrom2, Criterion, Unspent;
    var ok := IsSmallCaveVisitingCriteria(counts);
    if !ok {
      return counts, total;
    }
    if u == "end" {
      return counts, total + 1;
    }
    var small := IsSmall(u);
    var c := counts;
    if small {
      c := c + multiset{u};
    }
    c, totalOut := NeighbourPaths2(g, edges, u, counts, c, total);
    if small {
      c := c - multiset{u};
    }
    return c, totalOut;
  }

  /** The loop of `TotalPathsPart2_REC` over the neighbours of `u`. */
  method NeighbourPaths2(g: Graph, ghost edges: seq<Edge>, u: string, ghost counts: multiset<string>,
                         c: multiset<string>, total: nat)
    returns (cOut: multiset<string>, totalOut: nat)
    requires Represents(g, edges)
    requires NoBigPair(edges)
    requires Criterion(counts)
    requires c == Bump(counts, u)
    ensures cOut == c
    ensures totalOut == total + |WalksFrom2(edges, u, 0, counts)|
    decreases Unspent(edges, counts), Big(u), 0, 1
  {
    var n := |Neighbours(g, u)|;
    assert n == |Adj(edges, u)|;
    hide Walks2, WalksFrom2, Criterion, Unspent, Represents, NoBigPair, Adj, Neighbours, Bump, IsSmall, Big;
    cOut := c;
    var t: nat := total;
    var i := 0;
    while i < n
      invariant 0 <= i <= n
      invariant cOut == c
      invariant t + |WalksFrom2(edges, u, i, counts)| == total + |WalksFrom2(edges, u, 0, counts)|
    {
      cOut, t := NeighbourStep2(g, edges, u, counts, cOut, i, t);
      i := i + 1;
    }
    Walks2Unfold(edges, u, counts);
    totalOut := t;
  }

  /** One round of that loop: the walks through the `i`-th neighbour, none when it is `start`. */
  method NeighbourStep2(g: Graph, ghost edges: seq<Edge>, u: string, ghost counts: multiset<string>,
                        c: multiset<string>, i: nat, t: nat)
    returns (cOut: multiset<string>, tOut: nat)
    requires Represents(g, edges)
    requires NoBigPair(edges)
    requires Criterion(counts)
    requires c == Bump(counts, u)
    requires i < |Adj(edges, u)|
    ensures cOut == c
    ensures tOut + |WalksFrom2(edges, u, i + 1, counts)| == t + |WalksFrom2(edges, u, i, counts)|
    decreases Unspent(edges, counts), Big(u), 0, 0
  {
    var v := Neighbours(g, u)[i];
    assert v == Adj(edges, u)[i];
    WalksFrom2Next(edges, u, i, counts);
    cOut, tOut := c, t;
    if v != "start" {
      BumpShrinks(edges, u, v, counts);
      hide Walks2, WalksFrom2, Criterion, Unspent, Represents, NoBigPair, Adj, Neighbours, Bump, IsSmall, Big;
      cOut, tOut := CountPaths2(g, edges, v, c, t);
    }
  }

  /** `TotalPathsPart2`. */
  method TotalPathsPart2(g: Graph, ghost edges: seq<Edge>) returns (n: nat)
    requires Represents(g, edges)
    requires NoBigPair(edges)
    ensures n == |Walks2(edges, "start", multiset{})|
  {
    var _, t := CountPaths2(g, edges, "start", multiset{}, 0);
    n := t;
  }

  // ---------------------------------------------------------------------
  // Part 1 walks are part 2 walks

  lemma {:induction false} SmallVisitsAbsent(s: seq<string>, x: string)
    requires x !in s
    ensures SmallVisits(s)[x] == 0
  {
    if |s| > 0 {
      assert x !in s[1..];
      SmallVisitsAbsent(s[1..], x);
    }
  }

  /** With no small cave repeated, every small cave is counted at most once. */
  lemma {:induction false} SmallVisitsOnce(s: seq<string>, x: string)
    requires forall i, j :: 0 <= j < i < |s| && IsSmall(s[i]) ==> s[j] != s[i]
    ensures SmallVisits(s)[x] <= 1
  {
    if |s| > 0 {
      var t := s[1..];
      forall i, j | 0 <= j < i < |t| && IsSmall(t[i])
        ensures t[j] != t[i]
      {
        assert t[i] == s[i + 1] && t[j] == s[j + 1];
      }
      SmallVisitsOnce(t, x);
      if IsSmall(s[0]) && s[0] == x {
        forall i | 0 <= i < |t| && IsSmall(t[i])
          ensures t[i] != s[0]
        {
          assert t[i] == s[i + 1];
        }
        assert x !in t;
        SmallVisitsAbsent(t, x);
      }
    }
  }

  /** Every walk part 1 counts from `start` is also counted by part 2. */
  lemma PartOneWithinPartTwo(edges: seq<Edge>, w: seq<string>)
    requires NoBigPair(edges)
    requires w in Walks1(edges, "start", {})
    ensures w in Walks2(edges, "start", multiset{})
  {
    Walks1Exact(edges, "start", {}, w);
    forall i | 1 <= i < |w|
      ensures w[i] != "start"
    {
      if i < |w| - 1 {
        assert IsSmall(w[0]);
      }
    }
    forall i | 0 <= i < |w|
      ensures Criterion(multiset{} + SmallVisits(w[..i]))
    {
      var p := w[..i];
      forall a, b | 0 <= b < a < |p| && IsSmall(p[a])
        ensures p[b] != p[a]
      {
        assert p[a] == w[a] && p[b] == w[b];
      }
      forall x
        ensures SmallVisits(p)[x] <= 1
      {
        SmallVisitsOnce(p, x);
      }
      assert multiset{} + SmallVisits(p) == SmallVisits(p);
    }
    Walks2Exact(edges, "start", multiset{}, w);
  }
}
