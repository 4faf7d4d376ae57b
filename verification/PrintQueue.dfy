/**
 * 2024 day 5: page ordering rules `X|Y` (X must be printed before Y) and
 * updates (lists of pages).  Part 1 adds up the middle page of every update
 * that already respects the rules; part 2 reorders every other update by
 * the rules and adds up its middle page.
 */
module PrintQueue {
  import opened Common
  import opened Decimal

  type Graph = map<int, seq<int>>

  // ---------------------------------------------------------------------
  // Reading the input

  /**
   * A rule line: the text before the first `|` and the text after it, each
   * read by `stoi`.  Without a `|`, `find` gives `npos`, and both `substr`
   * calls take the whole line.
   */
  function ParseRule(line: string): Option<(int, int)>
  {
    var i := IndexOf(line, '|');
    var (left, right) := if i == |line| then (line, line) else (line[..i], line[i + 1..]);
    match (Stoi(left), Stoi(right))
      case (Some(x), Some(y)) => Some((x, y))
      case _ => None
  }

  predicate NoPipe(s: string)
  {
    forall k :: 0 <= k < |s| ==> s[k] != '|'
  }

  lemma ShowIntNoPipe(n: int)
    ensures NoPipe(ShowInt(n))
  {
    var d := ShowNat(if n < 0 then -n else n);
    assert forall k :: 0 <= k < |d| ==> IsDigit(d[k]);
    if n < 0 {
      assert ShowInt(n) == "-" + d;
      assert forall k :: 1 <= k < |ShowInt(n)| ==> ShowInt(n)[k] == d[k - 1];
    }
  }

  /** A rule written `X|Y` is read back as `(X, Y)`. */
  lemma ParseRuleOfShown(x: int, y: int)
    ensures ParseRule(ShowInt(x) + "|" + ShowInt(y)) == Some((x, y))
  {
    var a, b := ShowInt(x), ShowInt(y);
    var line := a + "|" + b;
    ShowIntNoPipe(x);
    IndexOfPrefix(a, b, '|');
    assert line == a + ['|'] + b;
    assert line[..|a|] == a + [];
    assert line[|a| + 1..] == b + [];
    StoiShowInt(x, []);
    StoiShowInt(y, []);
  }

  /** An update line: the comma-separated tokens, each read by `stoi`; `None` when one is not a number. */
  function ParseUpdate(line: string): (r: Option<seq<int>>)
    ensures (forall k :: 0 <= k < |Split(line, ',')| ==> Stoi(Split(line, ',')[k]).Some?) ==> r.Some?
    ensures r.Some? ==> |r.value| == |Split(line, ',')|
    ensures r.Some? ==> forall k :: 0 <= k < |r.value| ==> Stoi(Split(line, ',')[k]) == Some(r.value[k])
  {
    ParseAll(Split(line, ','))
  }

  function ParseAll(tokens: seq<string>): (r: Option<seq<int>>)
    ensures r.Some? ==> |r.value| == |tokens|
    ensures r.Some? <==> forall k :: 0 <= k < |tokens| ==> Stoi(tokens[k]).Some?
    ensures r.Some? ==> forall k :: 0 <= k < |tokens| ==> Stoi(tokens[k]) == Some(r.value[k])
  {
    if |tokens| == 0 then Some([])
    else match (Stoi(tokens[0]), ParseAll(tokens[1..]))
      case (Some(v), Some(rest)) =>
        assert forall k :: 1 <= k < |tokens| ==> tokens[k] == tokens[1..][k - 1];
        Some([v] + rest)
      case (None, _) => None
      case (_, None) =>
        assert forall k :: 1 <= k < |tokens| ==> tokens[k] == tokens[1..][k - 1];
        None
  }

  // ---------------------------------------------------------------------
  // The rule graph

  /** `CreateGraph`: each rule appends its second page to the list of its first. */
  function CreateGraph(rules: seq<(int, int)>): Graph
    decreases |rules|
  {
    if |rules| == 0 then map[]
    else
      var n := |rules| - 1;
      var g := CreateGraph(rules[..n]);
      var (from, to) := rules[n];
      g[from := (if from in g then g[from] else []) + [to]]
  }

  /** Page `a` must come before page `b`: the test both parts make. */
  predicate Before(g: Graph, a: int, b: int)
  {
    a in g && b in g[a]
  }

  /** The graph says `a` before `b` exactly when some rule does. */
  lemma {:induction false} CreateGraphMeans(rules: seq<(int, int)>, a: int, b: int)
    ensures Before(CreateGraph(rules), a, b) <==> (a, b) in rules
    decreases |rules|
  {
    if |rules| > 0 {
      var n := |rules| - 1;
      CreateGraphMeans(rules[..n], a, b);
      assert rules == rules[..n] + [rules[n]];
      var g := CreateGraph(rules[..n]);
      var (from, to) := rules[n];
      var list := (if from in g then g[from] else []) + [to];
      assert b in list <==> Before(g, from, b) || b == to;
      assert Before(CreateGraph(rules), a, b) <==> (if a == from then b in list else Before(g, a, b));
    }
  }

  // ---------------------------------------------------------------------
  // Checking an update

  /** No page is preceded by a page that a rule says must come after it. */
  predicate ValidOrder(g: Graph, update: seq<int>)
  {
    forall i, j :: 0 <= j < i < |update| ==> !Before(g, update[i], update[j])
  }

  /**
   * `IsValidOrdering`: for each page in turn, every page its rules put
   * after it is looked for among the earlier pages, stopping at the first
   * one found.
   */
  method IsValidOrdering(g: Graph, update: seq<int>) returns (valid: bool)
    ensures valid <==> ValidOrder(g, update)
  {
    valid := true;
    var i := 0;
    while valid && i < |update|
      invariant 0 <= i <= |update|
      invariant valid <==> forall i', j :: 0 <= j < i' < i ==> !Before(g, update[i'], update[j])
    {
      if update[i] in g {
        var after := g[update[i]];
        var k := 0;
        while k < |after|
          invariant 0 <= k <= |after|
          invariant valid
          invariant forall k' :: 0 <= k' < k ==> after[k'] !in update[..i]
        {
          var found := IndexOf(update[..i], after[k]);
          if found != i {
            valid := false;
            assert Before(g, update[i], update[found]);
            break;
          }
          k := k + 1;
        }
        if valid {
          forall j | 0 <= j < i ensures !Before(g, update[i], update[j]) {
            assert update[j] in update[..i];
          }
        }
      }
      i := i + 1;
    }
  }

  // ---------------------------------------------------------------------
  // Part 1

  predicate AllNonEmpty(updates: seq<seq<int>>)
  {
    forall k :: 0 <= k < |updates| ==> |updates[k]| >= 1
  }

  /** The middle page, `at(size / 2)`. */
  function Middle(update: seq<int>): int
    requires |update| >= 1
  {
    update[|update| / 2]
  }

  /** The middle pages of the updates that respect the rules, added up. */
  function ValidMiddles(g: Graph, updates: seq<seq<int>>): int
    requires AllNonEmpty(updates)
    decreases |updates|
  {
    if |updates| == 0 then 0
    else
      var n := |updates| - 1;
      ValidMiddles(g, updates[..n]) + (if ValidOrder(g, updates[n]) then Middle(updates[n]) else 0)
  }

  /**
   * `Day5Part1`.  The updates come from non-empty lines, so each has at
   * least one page and `at` never throws.
   */
  method Day5Part1(g: Graph, updates: seq<seq<int>>) returns (sum: int)
    requires AllNonEmpty(updates)
    ensures sum == ValidMiddles(g, updates)
  {
    sum := 0;
    var i := 0;
    while i < |updates|
      invariant 0 <= i <= |updates|
      invariant sum == ValidMiddles(g, updates[..i])
    {
      var valid := IsValidOrdering(g, updates[i]);
      if valid {
        sum := sum + updates[i][|updates[i]| / 2];
      }
      assert updates[..i + 1][..i] == updates[..i];
      i := i + 1;
    }
    assert updates[..i] == updates;
  }

  // ---------------------------------------------------------------------
  // Part 2: reordering by the rules

  /** Insert `x` before the first page it must precede. */
  function InsertBy(g: Graph, x: int, s: seq<int>): (r: seq<int>)
    ensures multiset(r) == multiset(s) + multiset{x}
  {
    if |s| == 0 then [x]
    else if Before(g, x, s[0]) then [x] + s
    else
      assert s == [s[0]] + s[1..];
      [s[0]] + InsertBy(g, x, s[1..])
  }

  /** The update sorted by the rules, one page at a time. */
  function SortBy(g: Graph, s: seq<int>): (r: seq<int>)
    ensures multiset(r) == multiset(s)
  {
    if |s| == 0 then []
    else
      assert s == [s[0]] + s[1..];
      InsertBy(g, s[0], SortBy(g, s[1..]))
  }

  /** The rules among the pages of `s` form a strict order: never both ways, and transitive. */
  predicate StrictOn(g: Graph, s: seq<int>)
  {
    && (forall a, b :: a in s && b in s && Before(g, a, b) ==> !Before(g, b, a))
    && (forall a, b, c :: a in s && b in s && c in s && Before(g, a, b) && Before(g, b, c) ==> Before(g, a, c))
  }

  /** Any two distinct pages of `s` are ordered by some rule. */
  predicate TotalOn(g: Graph, s: seq<int>)
  {
    forall a, b :: a in s && b in s && a != b ==> Before(g, a, b) || Before(g, b, a)
  }

  lemma StrictOnSub(g: Graph, s: seq<int>, t: seq<int>)
    requires StrictOn(g, s)
    requires multiset(t) <= multiset(s)
    ensures StrictOn(g, t)
  {
    forall a | a in t ensures a in s {
      assert a in multiset(t);
    }
  }

  lemma TotalOnSub(g: Graph, s: seq<int>, t: seq<int>)
    requires TotalOn(g, s)
    requires multiset(t) <= multiset(s)
    ensures TotalOn(g, t)
  {
    forall a | a in t ensures a in s {
      assert a in multiset(t);
    }
  }

  /** Putting `x` in front of a page it must precede keeps the order, by transitivity. */
  lemma InsertFrontValid(g: Graph, x: int, s: seq<int>, all: seq<int>)
    requires ValidOrder(g, s) && StrictOn(g, all) && |s| >= 1 && Before(g, x, s[0])
    requires x in all && forall k :: 0 <= k < |s| ==> s[k] in all
    ensures ValidOrder(g, [x] + s)
  {
    var r := [x] + s;
    forall i, j | 0 <= j < i < |r| ensures !Before(g, r[i], r[j]) {
      if j == 0 {
        var y, first := s[i - 1], s[0];
        assert Before(g, y, x) && Before(g, x, first) ==> Before(g, y, first);
        assert i - 1 == 0 || !Before(g, y, first);
        assert !Before(g, first, x);
      } else {
        assert r[i] == s[i - 1] && r[j] == s[j - 1];
      }
    }
  }

  /** Keeping the first page in front of an ordered rest that `x` does not have to precede keeps the order. */
  lemma InsertLaterValid(g: Graph, x: int, s: seq<int>, rest: seq<int>)
    requires ValidOrder(g, s) && |s| >= 1 && !Before(g, x, s[0])
    requires ValidOrder(g, rest) && multiset(rest) == multiset(s[1..]) + multiset{x}
    ensures ValidOrder(g, [s[0]] + rest)
  {
    var r := [s[0]] + rest;
    forall i, j | 0 <= j < i < |r| ensures !Before(g, r[i], r[j]) {
      if j == 0 {
        var z := rest[i - 1];
        assert z in multiset(rest);
        if z != x {
          assert z in multiset(s[1..]);
          var k :| 0 <= k < |s[1..]| && s[1..][k] == z;
          assert z == s[k + 1];
        }
      } else {
        assert r[i] == rest[i - 1] && r[j] == rest[j - 1];
      }
    }
  }

  /** Inserting into a rule-respecting list keeps it rule-respecting when the rules are a strict order. */
  lemma {:induction false} InsertByValid(g: Graph, x: int, s: seq<int>, all: seq<int>)
    requires ValidOrder(g, s) && StrictOn(g, all)
    requires x in all && forall k :: 0 <= k < |s| ==> s[k] in all
    ensures ValidOrder(g, InsertBy(g, x, s))
    decreases |s|
  {
    if |s| > 0 {
      if Before(g, x, s[0]) {
        InsertFrontValid(g, x, s, all);
      } else {
        var tail := s[1..];
        ValidOrderTail(g, s);
        InsertByValid(g, x, tail, all);
        InsertLaterValid(g, x, s, InsertBy(g, x, tail));
      }
    }
  }

  /** Sorting by a strict order yields a rule-respecting reordering. */
  lemma {:induction false} SortByValid(g: Graph, s: seq<int>)
    requires StrictOn(g, s)
    ensures ValidOrder(g, SortBy(g, s))
    decreases |s|
  {
    if |s| > 0 {
      var tail := s[1..];
      assert s == [s[0]] + tail;
      StrictOnSub(g, s, tail);
      SortByValid(g, tail);
      var sorted := SortBy(g, tail);
      forall k | 0 <= k < |sorted| ensures sorted[k] in s {
        assert sorted[k] in multiset(sorted);
      }
      InsertByValid(g, s[0], sorted, s);
    }
  }

  /** Dropping the first page keeps an update valid. */
  lemma ValidOrderTail(g: Graph, a: seq<int>)
    requires ValidOrder(g, a) && |a| >= 1
    ensures ValidOrder(g, a[1..])
  {
    assert forall i, j :: 0 <= j < i < |a| - 1 ==> a[1..][i] == a[i + 1] && a[1..][j] == a[j + 1];
  }

  /** Two rule-respecting orders of the same pages under a total order start with the same page. */
  lemma ValidOrderHead(g: Graph, a: seq<int>, b: seq<int>)
    requires multiset(a) == multiset(b) && |a| >= 1
    requires ValidOrder(g, a) && ValidOrder(g, b) && TotalOn(g, a)
    ensures |b| == |a| && a[0] == b[0]
  {
    assert |b| == |multiset(b)| == |a|;
    var x, y := a[0], b[0];
    assert y in multiset(a) && x in multiset(b);
    var i :| 0 <= i < |a| && a[i] == y;
    var j :| 0 <= j < |b| && b[j] == x;
    assert i == 0 || !Before(g, a[i], a[0]);
    assert j == 0 || !Before(g, b[j], b[0]);
    assert x in a && y in a;
  }

  /**
   * Under a strict total order on distinct pages there is only one
   * rule-respecting reordering, so whichever the library picks, its middle
   * page is the same.
   */
  lemma {:induction false} ValidOrderUnique(g: Graph, a: seq<int>, b: seq<int>)
    requires multiset(a) == multiset(b)
    requires ValidOrder(g, a) && ValidOrder(g, b) && TotalOn(g, a)
    ensures a == b
    decreases |a|
  {
    hide *;
    if |a| == 0 {
      assert |b| == |multiset(b)| == 0;
    } else {
      ValidOrderHead(g, a, b);
      var x := a[0];
      assert a == [x] + a[1..] && b == [x] + b[1..];
      MultisetCancel(multiset(a[1..]), multiset(b[1..]), multiset{x});
      TotalOnSub(g, a, a[1..]);
      ValidOrderTail(g, a);
      ValidOrderTail(g, b);
      ValidOrderUnique(g, a[1..], b[1..]);
    }
  }

  /** A rule-respecting update is its own sorted form. */
  lemma SortByOfValid(g: Graph, s: seq<int>)
    requires StrictOn(g, s) && TotalOn(g, s) && ValidOrder(g, s)
    ensures SortBy(g, s) == s
  {
    SortByValid(g, s);
    TotalOnSub(g, s, SortBy(g, s));
    ValidOrderUnique(g, SortBy(g, s), s);
  }

  /** The middle pages of the reordered updates that did not respect the rules, added up. */
  function FixedMiddles(g: Graph, updates: seq<seq<int>>): int
    requires AllNonEmpty(updates)
    decreases |updates|
  {
    if |updates| == 0 then 0
    else
      var n := |updates| - 1;
      var u := updates[n];
      FixedMiddles(g, updates[..n]) + (if ValidOrder(g, u) then 0 else Middle(SortBy(g, u)))
  }

  /**
   * `Day5Part2`: the program puts the middle page in place with
   * `nth_element` and the rule comparator; the model sorts the update fully
   * with the same comparator, which puts the same page in the middle when
   * the rules order the update's pages strictly and totally.
   */
  method Day5Part2(g: Graph, updates: seq<seq<int>>) returns (sum: int)
    requires AllNonEmpty(updates)
    ensures sum == FixedMiddles(g, updates)
  {
    sum := 0;
    var i := 0;
    while i < |updates|
      invariant 0 <= i <= |updates|
      invariant sum == FixedMiddles(g, updates[..i])
    {
      var valid := IsValidOrdering(g, updates[i]);
      if !valid {
        var reordered := SortBy(g, updates[i]);
        assert |reordered| == |multiset(updates[i])| == |updates[i]|;
        sum := sum + reordered[|reordered| / 2];
      }
      assert updates[..i + 1][..i] == updates[..i];
      i := i + 1;
    }
    assert updates[..i] == updates;
  }
}
