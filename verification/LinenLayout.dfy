/**
 * 2024 day 19: towel patterns (strings of stripe colours) and desired
 * designs.  The number of ways to lay a design out of patterns, one after
 * another, is counted by a memoised recursion over the position reached.
 */
module LinenLayout {
  import opened Common

  predicate NonEmptyPatterns(ps: seq<string>)
  {
    forall j :: 0 <= j < |ps| ==> |ps[j]| >= 1
  }

  /** Pattern `p` lies in the design at position `idx`. */
  predicate MatchesAt(d: string, idx: nat, p: string)
  {
    idx + |p| <= |d| && d[idx..idx + |p|] == p
  }

  /**
   * The recurrence: one way at the end of the design, otherwise the sum,
   * over the patterns that fit at `idx`, of the ways from just past them.
   * An empty pattern would make the program recurse on the same position
   * for ever, so patterns are non-empty.
   */
  function Ways(d: string, idx: nat, ps: seq<string>): nat
    requires idx <= |d| && NonEmptyPatterns(ps)
    decreases |d| - idx, |ps| + 1
  {
    if idx == |d| then 1 else WaysVia(d, idx, ps, 0)
  }

  /** The part of that sum contributed by the patterns from `j` on. */
  function WaysVia(d: string, idx: nat, ps: seq<string>, j: nat): nat
    requires idx < |d| && NonEmptyPatterns(ps) && j <= |ps|
    decreases |d| - idx, |ps| - j
  {
    if j == |ps| then 0
    else (if MatchesAt(d, idx, ps[j]) then Ways(d, idx + |ps[j]|, ps) else 0) + WaysVia(d, idx, ps, j + 1)
  }

  /** Every entry of the table holds the value of the recurrence at its position. */
  predicate MemoAgrees(d: string, ps: seq<string>, memo: map<nat, nat>)
    requires NonEmptyPatterns(ps)
  {
    forall k :: k in memo ==> k <= |d| && memo[k] == Ways(d, k, ps)
  }

  /**
   * `CountAllPossibleWays` with its table threaded through: the end of the
   * design counts 1, a position already in the table is answered from it,
   * and otherwise the patterns are tried in order and the sum is stored.
   */
  method CountAllPossibleWays(d: string, idx: nat, ps: seq<string>, memo: map<nat, nat>)
    returns (count: nat, memo': map<nat, nat>)
    requires idx <= |d| && NonEmptyPatterns(ps)
    requires MemoAgrees(d, ps, memo)
    ensures count == Ways(d, idx, ps)
    ensures MemoAgrees(d, ps, memo')
    decreases |d| - idx
  {
    if idx == |d| {
      return 1, memo;
    }
    if idx in memo {
      return memo[idx], memo;
    }
    count := 0;
    memo' := memo;
    var remaining := |d| - idx;
    var j := 0;
    while j < |ps|
      invariant 0 <= j <= |ps|
      invariant MemoAgrees(d, ps, memo')
      invariant count + WaysVia(d, idx, ps, j) == WaysVia(d, idx, ps, 0)
    {
      var p := ps[j];
      if |p| <= remaining && d[idx..idx + |p|] == p {
        var c;
        c, memo' := CountAllPossibleWays(d, idx + |p|, ps, memo');
        count := count + c;
      }
      j := j + 1;
    }
    memo' := memo'[idx := count];
  }

  // ---------------------------------------------------------------------
  // Reference: a layout as a list of pattern choices

  /** `choice` lists pattern indices whose patterns, laid one after another from `idx`, cover the rest of the design. */
  predicate Decomposes(d: string, idx: nat, ps: seq<string>, choice: seq<nat>)
    requires idx <= |d|
    decreases |choice|
  {
    if |choice| == 0 then idx == |d|
    else
      && choice[0] < |ps|
      && MatchesAt(d, idx, ps[choice[0]])
      && Decomposes(d, idx + |ps[choice[0]]|, ps, choice[1..])
  }

  lemma {:induction false} WaysViaPositive(d: string, idx: nat, ps: seq<string>, j: nat)
    requires idx < |d| && NonEmptyPatterns(ps) && j <= |ps|
    requires WaysVia(d, idx, ps, j) > 0
    ensures exists k :: j <= k < |ps| && MatchesAt(d, idx, ps[k]) && Ways(d, idx + |ps[k]|, ps) > 0
    decreases |ps| - j
  {
    if !(MatchesAt(d, idx, ps[j]) && Ways(d, idx + |ps[j]|, ps) > 0) {
      WaysViaPositive(d, idx, ps, j + 1);
    }
  }

  lemma {:induction false} WaysViaAtLeast(d: string, idx: nat, ps: seq<string>, j: nat, k: nat)
    requires idx < |d| && NonEmptyPatterns(ps) && j <= k < |ps|
    requires MatchesAt(d, idx, ps[k])
    ensures WaysVia(d, idx, ps, j) >= Ways(d, idx + |ps[k]|, ps)
    decreases k - j
  {
    if j < k {
      WaysViaAtLeast(d, idx, ps, j + 1, k);
    }
  }

  /** A positive count yields a layout. */
  lemma {:induction false} LayoutOfPositiveWays(d: string, idx: nat, ps: seq<string>) returns (c: seq<nat>)
    requires idx <= |d| && NonEmptyPatterns(ps)
    requires Ways(d, idx, ps) > 0
    ensures Decomposes(d, idx, ps, c)
    decreases |d| - idx
  {
    if idx == |d| {
      c := [];
    } else {
      WaysViaPositive(d, idx, ps, 0);
      var k :| 0 <= k < |ps| && MatchesAt(d, idx, ps[k]) && Ways(d, idx + |ps[k]|, ps) > 0;
      var rest := LayoutOfPositiveWays(d, idx + |ps[k]|, ps);
      c := [k] + rest;
      assert c[1..] == rest;
    }
  }

  /** A layout makes the count positive. */
  lemma {:induction false} WaysOfLayout(d: string, idx: nat, ps: seq<string>, c: seq<nat>)
    requires idx <= |d| && NonEmptyPatterns(ps)
    requires Decomposes(d, idx, ps, c)
    ensures Ways(d, idx, ps) > 0
    decreases |c|
  {
    if idx < |d| {
      var k := c[0];
      WaysOfLayout(d, idx + |ps[k]|, ps, c[1..]);
      WaysViaAtLeast(d, idx, ps, 0, k);
    }
  }

  /** There is a way to lay the rest of the design exactly when the count is positive. */
  lemma WaysPositiveIffLayout(d: string, idx: nat, ps: seq<string>)
    requires idx <= |d| && NonEmptyPatterns(ps)
    ensures Ways(d, idx, ps) > 0 <==> exists c: seq<nat> :: Decomposes(d, idx, ps, c)
  {
    if Ways(d, idx, ps) > 0 {
      var c := LayoutOfPositiveWays(d, idx, ps);
      assert Decomposes(d, idx, ps, c);
      assert exists c': seq<nat> :: Decomposes(d, idx, ps, c');
    } else {
      forall c | Decomposes(d, idx, ps, c) ensures false {
        WaysOfLayout(d, idx, ps, c);
      }
    }
  }

  // ---------------------------------------------------------------------
  // The count is the number of layouts

  /** Every layout of the rest of the design from `idx`, listed in the order the recurrence sums them. */
  ghost function Layouts(d: string, idx: nat, ps: seq<string>): (ls: seq<seq<nat>>)
    requires idx <= |d| && NonEmptyPatterns(ps)
    decreases |d| - idx, |ps| + 1
  {
    if idx == |d| then [[]] else LayoutsVia(d, idx, ps, 0)
  }

  /** The layouts whose first pattern has index `j` or more. */
  ghost function LayoutsVia(d: string, idx: nat, ps: seq<string>, j: nat): (ls: seq<seq<nat>>)
    requires idx < |d| && NonEmptyPatterns(ps) && j <= |ps|
    decreases |d| - idx, |ps| - j
  {
    if j == |ps| then []
    else (if MatchesAt(d, idx, ps[j]) then Prepend(j, Layouts(d, idx + |ps[j]|, ps)) else []) + LayoutsVia(d, idx, ps, j + 1)
  }

  ghost function Prepend(j: nat, ls: seq<seq<nat>>): (r: seq<seq<nat>>)
    ensures |r| == |ls|
    ensures forall i :: 0 <= i < |ls| ==> r[i] == [j] + ls[i]
  {
    seq(|ls|, i requires 0 <= i < |ls| => [j] + ls[i])
  }

  /** The recurrence counts the listed layouts. */
  lemma {:induction false} WaysCountsLayouts(d: string, idx: nat, ps: seq<string>)
    requires idx <= |d| && NonEmptyPatterns(ps)
    ensures Ways(d, idx, ps) == |Layouts(d, idx, ps)|
    decreases |d| - idx, |ps| + 1
  {
    if idx < |d| {
      WaysViaCountsLayouts(d, idx, ps, 0);
    }
  }

  lemma {:induction false} WaysViaCountsLayouts(d: string, idx: nat, ps: seq<string>, j: nat)
    requires idx < |d| && NonEmptyPatterns(ps) && j <= |ps|
    ensures WaysVia(d, idx, ps, j) == |LayoutsVia(d, idx, ps, j)|
    decreases |d| - idx, |ps| - j
  {
    if j < |ps| {
      if MatchesAt(d, idx, ps[j]) {
        WaysCountsLayouts(d, idx + |ps[j]|, ps);
      }
      WaysViaCountsLayouts(d, idx, ps, j + 1);
    }
  }

  /** Every listed layout lays out the rest of the design. */
  lemma {:induction false} LayoutsSound(d: string, idx: nat, ps: seq<string>)
    requires idx <= |d| && NonEmptyPatterns(ps)
    ensures forall i :: 0 <= i < |Layouts(d, idx, ps)| ==> Decomposes(d, idx, ps, Layouts(d, idx, ps)[i])
    decreases |d| - idx, |ps| + 1
  {
    if idx < |d| {
      LayoutsViaSound(d, idx, ps, 0);
    }
  }

  lemma {:induction false} LayoutsViaSound(d: string, idx: nat, ps: seq<string>, j: nat)
    requires idx < |d| && NonEmptyPatterns(ps) && j <= |ps|
    ensures forall i :: 0 <= i < |LayoutsVia(d, idx, ps, j)| ==> Decomposes(d, idx, ps, LayoutsVia(d, idx, ps, j)[i])
    ensures forall i :: 0 <= i < |LayoutsVia(d, idx, ps, j)| ==> |LayoutsVia(d, idx, ps, j)[i]| > 0 && LayoutsVia(d, idx, ps, j)[i][0] >= j
    decreases |d| - idx, |ps| - j
  {
    if j < |ps| {
      var head := if MatchesAt(d, idx, ps[j]) then Prepend(j, Layouts(d, idx + |ps[j]|, ps)) else [];
      var tail := LayoutsVia(d, idx, ps, j + 1);
      LayoutsViaSound(d, idx, ps, j + 1);
      if MatchesAt(d, idx, ps[j]) {
        LayoutsSound(d, idx + |ps[j]|, ps);
        forall i | 0 <= i < |head| ensures Decomposes(d, idx, ps, head[i]) {
          assert head[i][1..] == Layouts(d, idx + |ps[j]|, ps)[i];
        }
      }
      assert LayoutsVia(d, idx, ps, j) == head + tail;
    }
  }

  /** Every layout of the rest of the design is listed. */
  lemma {:induction false} LayoutsComplete(d: string, idx: nat, ps: seq<string>, c: seq<nat>)
    requires idx <= |d| && NonEmptyPatterns(ps)
    requires Decomposes(d, idx, ps, c)
    ensures c in Layouts(d, idx, ps)
    decreases |d| - idx, |ps| + 1
  {
    if idx < |d| {
      LayoutsViaComplete(d, idx, ps, 0, c);
    }
  }

  lemma {:induction false} LayoutsViaComplete(d: string, idx: nat, ps: seq<string>, j: nat, c: seq<nat>)
    requires idx < |d| && NonEmptyPatterns(ps) && j <= |ps|
    requires Decomposes(d, idx, ps, c) && |c| > 0 && c[0] >= j
    ensures c in LayoutsVia(d, idx, ps, j)
    decreases |d| - idx, |ps| - j
  {
    var tail := LayoutsVia(d, idx, ps, j + 1);
    if c[0] == j {
      var rest := Layouts(d, idx + |ps[j]|, ps);
      LayoutsComplete(d, idx + |ps[j]|, ps, c[1..]);
      var i :| 0 <= i < |rest| && rest[i] == c[1..];
      var head := Prepend(j, rest);
      assert head[i] == c;
      assert LayoutsVia(d, idx, ps, j) == head + tail;
      assert LayoutsVia(d, idx, ps, j)[i] == c;
    } else {
      LayoutsViaComplete(d, idx, ps, j + 1, c);
      var i :| 0 <= i < |tail| && tail[i] == c;
      var head := if MatchesAt(d, idx, ps[j]) then Prepend(j, Layouts(d, idx + |ps[j]|, ps)) else [];
      assert LayoutsVia(d, idx, ps, j) == head + tail;
      assert LayoutsVia(d, idx, ps, j)[|head| + i] == c;
    }
  }

  predicate Distinct(ls: seq<seq<nat>>)
  {
    forall a, b :: 0 <= a < b < |ls| ==> ls[a] != ls[b]
  }

  /** No layout is listed twice. */
  lemma {:induction false} LayoutsDistinct(d: string, idx: nat, ps: seq<string>)
    requires idx <= |d| && NonEmptyPatterns(ps)
    ensures Distinct(Layouts(d, idx, ps))
    decreases |d| - idx, |ps| + 1
  {
    if idx < |d| {
      LayoutsViaDistinct(d, idx, ps, 0);
    }
  }

  lemma {:induction false} LayoutsViaDistinct(d: string, idx: nat, ps: seq<string>, j: nat)
    requires idx < |d| && NonEmptyPatterns(ps) && j <= |ps|
    ensures Distinct(LayoutsVia(d, idx, ps, j))
    decreases |d| - idx, |ps| - j
  {
    if j < |ps| {
      var head := if MatchesAt(d, idx, ps[j]) then Prepend(j, Layouts(d, idx + |ps[j]|, ps)) else [];
      var tail := LayoutsVia(d, idx, ps, j + 1);
      LayoutsViaDistinct(d, idx, ps, j + 1);
      LayoutsViaSound(d, idx, ps, j + 1);
      if MatchesAt(d, idx, ps[j]) {
        var rest := Layouts(d, idx + |ps[j]|, ps);
        LayoutsDistinct(d, idx + |ps[j]|, ps);
        forall a, b | 0 <= a < b < |head| ensures head[a] != head[b] {
          assert head[a][1..] == rest[a] && head[b][1..] == rest[b];
        }
      }
      assert LayoutsVia(d, idx, ps, j) == head + tail;
      DistinctByFirst(head, tail, j);
    }
  }

  /** Layouts starting with pattern j and layouts starting later never coincide. */
  lemma DistinctByFirst(head: seq<seq<nat>>, tail: seq<seq<nat>>, j: nat)
    requires Distinct(head) && Distinct(tail)
    requires forall a :: 0 <= a < |head| ==> |head[a]| > 0 && head[a][0] == j
    requires forall b :: 0 <= b < |tail| ==> |tail[b]| > 0 && tail[b][0] > j
    ensures Distinct(head + tail)
  {
    var all := head + tail;
    forall a, b | 0 <= a < b < |all| ensures all[a] != all[b] {
      if b < |head| {
        assert all[a] == head[a] && all[b] == head[b];
      } else if a >= |head| {
        assert all[a] == tail[a - |head|] && all[b] == tail[b - |head|];
      } else {
        assert all[a] == head[a] && all[a][0] == j;
        assert all[b] == tail[b - |head|] && all[b][0] > j;
      }
    }
  }

  // ---------------------------------------------------------------------
  // The two parts

  /** A design some sequence of patterns lays out in full. */
  ghost predicate Makeable(d: string, ps: seq<string>)
  {
    exists c: seq<nat> :: Decomposes(d, 0, ps, c)
  }

  /**
   * Part 1: the designs that can be laid in at least one way.  None counts
   * exactly when no design has a layout, and all count exactly when every
   * design has one.
   */
  function PossibleDesigns(ps: seq<string>, designs: seq<string>): (r: nat)
    requires NonEmptyPatterns(ps)
    ensures r <= |designs|
    ensures r == 0 <==> forall i :: 0 <= i < |designs| ==> !Makeable(designs[i], ps)
    ensures r == |designs| <==> forall i :: 0 <= i < |designs| ==> Makeable(designs[i], ps)
    decreases |designs|
  {
    if |designs| == 0 then 0
    else
      MakeableIffWays(designs[0], ps);
      AllOrNoneCons(ps, designs);
      (if Ways(designs[0], 0, ps) > 0 then 1 else 0) + PossibleDesigns(ps, designs[1..])
  }

  /** A design has a layout exactly when its count is positive. */
  lemma MakeableIffWays(d: string, ps: seq<string>)
    requires NonEmptyPatterns(ps)
    ensures Makeable(d, ps) <==> Ways(d, 0, ps) > 0
  {
    if Ways(d, 0, ps) > 0 {
      var c := LayoutOfPositiveWays(d, 0, ps);
      assert Decomposes(d, 0, ps, c);
    } else if Makeable(d, ps) {
      var c: seq<nat> :| Decomposes(d, 0, ps, c);
      WaysOfLayout(d, 0, ps, c);
    }
  }

  lemma AllOrNoneCons(ps: seq<string>, designs: seq<string>)
    requires |designs| > 0
    ensures (forall i :: 0 <= i < |designs| ==> Makeable(designs[i], ps))
      <==> Makeable(designs[0], ps) && forall i :: 0 <= i < |designs[1..]| ==> Makeable(designs[1..][i], ps)
    ensures (forall i :: 0 <= i < |designs| ==> !Makeable(designs[i], ps))
      <==> !Makeable(designs[0], ps) && forall i :: 0 <= i < |designs[1..]| ==> !Makeable(designs[1..][i], ps)
  {
    assert forall i :: 1 <= i < |designs| ==> designs[i] == designs[1..][i - 1];
  }

  /** Part 2: the ways summed over the designs, each counted with a fresh table. */
  function TotalWays(ps: seq<string>, designs: seq<string>): nat
    requires NonEmptyPatterns(ps)
  {
    if |designs| == 0 then 0 else Ways(designs[0], 0, ps) + TotalWays(ps, designs[1..])
  }

  /** Part 1 is at most the number of designs and at most part 2. */
  lemma {:induction false} PossibleDesignsBound(ps: seq<string>, designs: seq<string>)
    requires NonEmptyPatterns(ps)
    ensures PossibleDesigns(ps, designs) <= |designs|
    ensures PossibleDesigns(ps, designs) <= TotalWays(ps, designs)
    decreases |designs|
  {
    if |designs| > 0 {
      PossibleDesignsBound(ps, designs[1..]);
    }
  }

  /** Part 2 as the program runs it: the table is cleared before each design. */
  method Day19Part2(ps: seq<string>, designs: seq<string>) returns (sum: nat)
    requires NonEmptyPatterns(ps)
    ensures sum == TotalWays(ps, designs)
  {
    sum := 0;
    var i := |designs|;
    while i > 0
      invariant 0 <= i <= |designs|
      invariant sum == TotalWays(ps, designs[i..])
    {
      i := i - 1;
      var c, _ := CountAllPossibleWays(designs[i], 0, ps, map[]);
      assert designs[i..][1..] == designs[i + 1..];
      sum := sum + c;
    }
  }

  predicate NoSpace(s: string)
  {
    forall k :: 0 <= k < |s| ==> s[k] != ' '
  }

  /**
   * The pattern line with its spaces removed: every other character is kept
   * as often as it occurs, and a line without spaces is left as it is.
   */
  function RemoveSpaces(s: string): (r: string)
    ensures NoSpace(r)
    ensures |r| <= |s|
    ensures multiset(r) == multiset(s)[' ' := 0]
    ensures NoSpace(s) ==> r == s
  {
    if |s| == 0 then []
    else
      assert s == [s[0]] + s[1..];
      (if s[0] == ' ' then [] else [s[0]]) + RemoveSpaces(s[1..])
  }

  /** Removing spaces works piece by piece, so the kept characters stay in order. */
  lemma {:induction false} RemoveSpacesAppend(a: string, b: string)
    ensures RemoveSpaces(a + b) == RemoveSpaces(a) + RemoveSpaces(b)
    decreases |a|
  {
    if |a| > 0 {
      var k := if a[0] == ' ' then [] else [a[0]];
      assert (a + b)[0] == a[0] && (a + b)[1..] == a[1..] + b;
      assert RemoveSpaces(a + b) == k + RemoveSpaces(a[1..] + b);
      RemoveSpacesAppend(a[1..], b);
      assert RemoveSpaces(a) == k + RemoveSpaces(a[1..]);
      assert k + (RemoveSpaces(a[1..]) + RemoveSpaces(b)) == (k + RemoveSpaces(a[1..])) + RemoveSpaces(b);
    } else {
      assert a + b == b;
    }
  }

  /** Every character left after removing spaces comes from the line. */
  lemma RemoveSpacesFrom(s: string)
    ensures forall c :: c in RemoveSpaces(s) ==> c in s
  {
    forall c | c in RemoveSpaces(s)
      ensures c in s
    {
      assert c in multiset(RemoveSpaces(s));
    }
  }

  /** The pattern line as the input writes it: the patterns separated by `, `. */
  function Listing(ps: seq<string>): string
  {
    if |ps| == 0 then [] else if |ps| == 1 then ps[0] else ps[0] + ", " + Listing(ps[1..])
  }

  /** Without its spaces, a listing of space-free patterns is the patterns joined by commas. */
  lemma {:induction false} RemoveSpacesOfListing(ps: seq<string>)
    requires forall j :: 0 <= j < |ps| ==> NoSpace(ps[j])
    ensures RemoveSpaces(Listing(ps)) == Join(ps, ',')
    decreases |ps|
  {
    if |ps| > 1 {
      RemoveSpacesOfListing(ps[1..]);
      RemoveSpacesAppend(ps[0] + ", ", Listing(ps[1..]));
      RemoveSpacesAppend(ps[0], ", ");
      assert RemoveSpaces(", ") == [','] by {
        assert ", "[1..] == " ";
        assert " "[1..] == [];
      }
    }
  }

  /** Reading the pattern line gives back the patterns it lists. */
  lemma PatternsOfListing(ps: seq<string>)
    requires forall j :: 0 <= j < |ps| ==> |ps[j]| > 0
    requires forall j, k :: 0 <= j < |ps| && 0 <= k < |ps[j]| ==> ps[j][k] != ',' && ps[j][k] != ' '
    ensures Patterns(Listing(ps)) == ps
  {
    RemoveSpacesOfListing(ps);
    SplitJoin(ps, ',');
  }

  /** The patterns: the space-free line split at every comma. */
  function Patterns(line: string): (ps: seq<string>)
    ensures forall j, k :: 0 <= j < |ps| && 0 <= k < |ps[j]| ==> ps[j][k] != ',' && ps[j][k] != ' '
    ensures forall j, k :: 0 <= j < |ps| && 0 <= k < |ps[j]| ==> ps[j][k] in line
  {
    var t := RemoveSpaces(line);
    SplitKeeps(t, ',');
    RemoveSpacesFrom(line);
    Split(t, ',')
  }

  /** Splitting keeps characters, so what the line lacks no token has. */
  lemma {:induction false} SplitKeeps(s: string, d: char)
    ensures forall j, k :: 0 <= j < |Split(s, d)| && 0 <= k < |Split(s, d)[j]| ==> Split(s, d)[j][k] in s
    decreases |s|
  {
    if |s| > 0 {
      var i := IndexOf(s, d);
      if i < |s| {
        SplitKeeps(s[i + 1..], d);
        var r := Split(s, d);
        assert r == [s[..i]] + Split(s[i + 1..], d);
        forall j, k | 0 <= j < |r| && 0 <= k < |r[j]| ensures r[j][k] in s {
          if j == 0 {
            assert r[j][k] == s[k];
          } else {
            assert r[j] == Split(s[i + 1..], d)[j - 1];
            assert r[j][k] in s[i + 1..];
          }
        }
      }
    }
  }
}
