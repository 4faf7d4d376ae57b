/**
 * 2021 day 14: pair insertion.  A rule `AB -> C` puts C between every
 * adjacent A and B, all pairs at once.  The program never builds the
 * polymer: it counts the adjacent pairs and the letters, and per step moves
 * the count of each pair (a, b) with rule m to (a, m) and (m, b).  The
 * model keeps both count tables as lists of occurrences (their multisets
 * are the tables) and proves them equal to those of the polymer built
 * letter by letter.
 */
module Polymerization {
  import opened Common

  type Pair = (char, char)

  // ---------------------------------------------------------------------
  // Reading the rules

  /** A rule line `AB -> C`: its first two characters and its last one. */
  function ParseRule(line: string): (Pair, char)
    requires |line| >= 2
  {
    ((line[0], line[1]), line[|line| - 1])
  }

  lemma ParseRuleOfLine(a: char, b: char, c: char)
    ensures ParseRule([a, b] + " -> " + [c]) == ((a, b), c)
  {
  }

  /** The rule table: every line in order, a later line for the same pair replacing an earlier one. */
  function Rules(lines: seq<string>): (rules: map<Pair, char>)
    requires forall k :: 0 <= k < |lines| ==> |lines[k]| >= 2
    ensures forall k :: 0 <= k < |lines| ==> ParseRule(lines[k]).0 in rules
    decreases |lines|
  {
    if |lines| == 0 then map[]
    else
      var n := |lines| - 1;
      var (key, value) := ParseRule(lines[n]);
      Rules(lines[..n])[key := value]
  }

  /** The pair of the last line naming it maps to that line's letter. */
  lemma RulesLastWins(lines: seq<string>, line: string)
    requires forall k :: 0 <= k < |lines| ==> |lines[k]| >= 2
    requires |line| >= 2
    ensures Rules(lines + [line])[ParseRule(line).0] == ParseRule(line).1
  {
    assert (lines + [line])[..|lines|] == lines;
  }

  // ---------------------------------------------------------------------
  // Reference: the polymer itself

  /** The adjacent pairs of a polymer, left to right. */
  function Pairs(t: string): (ps: seq<Pair>)
    ensures |t| >= 1 ==> |ps| == |t| - 1
    ensures |t| <= 1 ==> ps == []
  {
    if |t| < 2 then [] else [(t[0], t[1])] + Pairs(t[1..])
  }

  /** One step on the polymer: the rule letter of every adjacent pair goes between them; `None` when a pair has no rule. */
  function Insert(t: string, rules: map<Pair, char>): (r: Option<string>)
    ensures r.Some? && |t| >= 1 ==> |r.value| == 2 * |t| - 1 && r.value[0] == t[0]
    ensures |t| <= 1 ==> r == Some(t)
  {
    if |t| < 2 then Some(t)
    else if (t[0], t[1]) !in rules then None
    else match Insert(t[1..], rules)
      case None => None
      case Some(rest) => Some([t[0], rules[(t[0], t[1])]] + rest)
  }

  function InsertTimes(t: string, rules: map<Pair, char>, n: nat): Option<string>
    decreases n
  {
    if n == 0 then Some(t)
    else match Insert(t, rules)
      case None => None
      case Some(next) => InsertTimes(next, rules, n - 1)
  }

  lemma InsertTimesNext(t: string, rules: map<Pair, char>, n: nat)
    requires n >= 1
    ensures Insert(t, rules).None? ==> InsertTimes(t, rules, n).None?
    ensures Insert(t, rules).Some? ==> InsertTimes(t, rules, n) == InsertTimes(Insert(t, rules).value, rules, n - 1)
  {
  }

  lemma InsertTimesZero(t: string, rules: map<Pair, char>)
    ensures InsertTimes(t, rules, 0) == Some(t)
  {
  }

  // ---------------------------------------------------------------------
  // The pair table

  predicate Covered(ps: seq<Pair>, rules: map<Pair, char>)
  {
    forall k :: 0 <= k < |ps| ==> ps[k] in rules
  }

  /** One step on the pair occurrences: `(a, b)` with rule m becomes `(a, m)` and `(m, b)`; `None` when `.at` throws. */
  function StepPairs(ps: seq<Pair>, rules: map<Pair, char>): (r: Option<seq<Pair>>)
    ensures r.Some? <==> Covered(ps, rules)
    ensures r.Some? ==> |r.value| == 2 * |ps|
  {
    if |ps| == 0 then Some([])
    else if ps[0] !in rules then None
    else match StepPairs(ps[1..], rules)
      case None => None
      case Some(rest) =>
        var m := rules[ps[0]];
        Some([(ps[0].0, m), (m, ps[0].1)] + rest)
  }

  /** The letters a step inserts, one per pair occurrence. */
  function Inserted(ps: seq<Pair>, rules: map<Pair, char>): (cs: seq<char>)
    requires Covered(ps, rules)
    ensures |cs| == |ps|
  {
    if |ps| == 0 then [] else [rules[ps[0]]] + Inserted(ps[1..], rules)
  }

  lemma PairsCons(a: char, u: string)
    requires |u| >= 1
    ensures Pairs([a] + u) == [(a, u[0])] + Pairs(u)
  {
    assert ([a] + u)[1..] == u;
  }

  lemma InsertCons(t: string, rules: map<Pair, char>)
    requires |t| >= 2
    ensures (t[0], t[1]) in rules && Insert(t[1..], rules).Some? ==>
      Insert(t, rules) == Some([t[0], rules[(t[0], t[1])]] + Insert(t[1..], rules).value)
    ensures (t[0], t[1]) !in rules || Insert(t[1..], rules).None? ==> Insert(t, rules).None?
  {
  }

  lemma StepPairsCons(p: Pair, ps: seq<Pair>, rules: map<Pair, char>)
    ensures p in rules && StepPairs(ps, rules).Some? ==>
      StepPairs([p] + ps, rules) == Some([(p.0, rules[p]), (rules[p], p.1)] + StepPairs(ps, rules).value)
    ensures p !in rules || StepPairs(ps, rules).None? ==> StepPairs([p] + ps, rules).None?
  {
    assert ([p] + ps)[1..] == ps;
  }

  lemma InsertedCons(p: Pair, ps: seq<Pair>, rules: map<Pair, char>)
    requires Covered([p] + ps, rules)
    ensures p in rules && Covered(ps, rules)
    ensures Inserted([p] + ps, rules) == [rules[p]] + Inserted(ps, rules)
  {
    assert ([p] + ps)[1..] == ps;
    assert ([p] + ps)[0] == p;
    assert forall k :: 0 <= k < |ps| ==> ps[k] == ([p] + ps)[k + 1];
  }

  lemma StepPairsEmpty(rules: map<Pair, char>)
    ensures StepPairs([], rules) == Some([])
  {
  }

  /**
   * Stepping the pairs of a polymer gives the pairs of the stepped polymer,
   * and the stepped polymer holds the old letters plus the inserted ones.
   */
  lemma {:induction false} StepPairsOfInsert(t: string, rules: map<Pair, char>)
    requires |t| >= 1
    ensures Insert(t, rules).Some? <==> StepPairs(Pairs(t), rules).Some?
    ensures Insert(t, rules).Some? ==>
      && StepPairs(Pairs(t), rules).value == Pairs(Insert(t, rules).value)
      && multiset(Insert(t, rules).value) == multiset(t) + multiset(Inserted(Pairs(t), rules))
    decreases |t|
  {
    hide *;
    if |t| >= 2 {
      var tail := t[1..];
      assert t == [t[0]] + tail;
      assert tail[0] == t[1];
      StepPairsOfInsert(tail, rules);
      PairsCons(t[0], tail);
      InsertCons(t, rules);
      StepPairsCons((t[0], t[1]), Pairs(tail), rules);
      if Insert(t, rules).Some? {
        var m := rules[(t[0], t[1])];
        var rest := Insert(tail, rules).value;
        var r := [t[0], m] + rest;
        assert r == [t[0]] + ([m] + rest);
        assert Insert(t, rules).value == r;
        PairsCons(t[0], [m] + rest);
        PairsCons(m, rest);
        InsertedCons((t[0], t[1]), Pairs(tail), rules);
        assert Pairs(r) == [(t[0], m), (m, t[1])] + Pairs(rest);
        assert multiset(r) == multiset{t[0]} + multiset{m} + multiset(rest);
        assert multiset(t) == multiset{t[0]} + multiset(tail);
      }
    } else {
      StepPairsEmpty(rules);
    }
  }

  function Pow2(n: nat): nat
  {
    if n == 0 then 1 else 2 * Pow2(n - 1)
  }

  /**
   * After `n` steps the pair table holds `2^n` times as many pairs as the
   * template has, and the letter table one letter more than the pair table.
   */
  lemma {:induction false} InsertTimesSize(t: string, rules: map<Pair, char>, n: nat)
    requires |t| >= 1
    ensures InsertTimes(t, rules, n).Some? ==> var p := InsertTimes(t, rules, n).value;
      |Pairs(p)| == Pow2(n) * |Pairs(t)| && |multiset(p)| == |Pairs(p)| + 1
    decreases n
  {
    hide *;
    Pow2Next(n);
    if n == 0 {
      InsertTimesZero(t, rules);
    } else {
      InsertTimesNext(t, rules, n);
      if Insert(t, rules).Some? {
        var next := Insert(t, rules).value;
        InsertTimesSize(next, rules, n - 1);
        assert |Pairs(next)| == 2 * |Pairs(t)|;
      }
    }
  }

  lemma Pow2Next(n: nat)
    ensures Pow2(0) == 1
    ensures n >= 1 ==> Pow2(n) == 2 * Pow2(n - 1)
  {
  }

  // ---------------------------------------------------------------------
  // The tables as the program builds them

  /** `++character_count_umap[ch]` over the template. */
  function LetterCounts(t: string): multiset<char>
    decreases |t|
  {
    if |t| == 0 then multiset{}
    else
      var n := |t| - 1;
      var before := LetterCounts(t[..n]);
      before[t[n] := before[t[n]] + 1]
  }

  lemma {:induction false} LetterCountsOfTemplate(t: string)
    ensures LetterCounts(t) == multiset(t)
    decreases |t|
  {
    if |t| > 0 {
      var n := |t| - 1;
      LetterCountsOfTemplate(t[..n]);
      assert t == t[..n] + [t[n]];
    }
  }

  /** The letter held most often, and no letter more often. */
  function MostCommon(m: multiset<char>, letters: seq<char>): (c: char)
    requires |letters| >= 1
    ensures c in letters
    ensures forall x :: x in letters ==> m[x] <= m[c]
  {
    if |letters| == 1 then letters[0]
    else
      var c := MostCommon(m, letters[1..]);
      if m[letters[0]] >= m[c] then letters[0] else c
  }

  /** The letter held least often, and no letter less often. */
  function LeastCommon(m: multiset<char>, letters: seq<char>): (c: char)
    requires |letters| >= 1
    ensures c in letters
    ensures forall x :: x in letters ==> m[c] <= m[x]
  {
    if |letters| == 1 then letters[0]
    else
      var c := LeastCommon(m, letters[1..]);
      if m[letters[0]] <= m[c] then letters[0] else c
  }

  /**
   * `ApplyPolymerInsertionRules`: count the letters and the pairs of the
   * template, run `n` steps on the pair table (adding each inserted letter
   * to the letter counts), and return the most common letter's count minus
   * the least common's.  `letters` lists every letter added to the letter
   * table, so its elements are the table's keys.
   */
  method ApplyPolymerInsertionRules(t: string, rules: map<Pair, char>, n: nat) returns (r: Option<int>)
    requires |t| >= 1
    ensures InsertTimes(t, rules, n).None? ==> r.None?
    ensures InsertTimes(t, rules, n).Some? ==> var p := InsertTimes(t, rules, n).value;
      && r.Some? && r.value >= 0
      && (exists hi, lo :: hi in p && lo in p && r.value == multiset(p)[hi] as int - multiset(p)[lo] as int
           && forall k :: 0 <= k < |p| ==> multiset(p)[lo] <= multiset(p)[p[k]] <= multiset(p)[hi])
  {
    hide *;
    var counts := LetterCounts(t);
    LetterCountsOfTemplate(t);
    var letters := t;
    var pairs := Pairs(t);
    ghost var polymer := t;
    var i := 0;
    while i < n
      invariant 0 <= i <= n
      invariant |polymer| >= 1
      invariant InsertTimes(t, rules, n) == InsertTimes(polymer, rules, n - i)
      invariant pairs == Pairs(polymer) && counts == multiset(polymer) && multiset(letters) == counts
    {
      StepPairsOfInsert(polymer, rules);
      InsertTimesNext(polymer, rules, n - i);
      var next := StepPairs(pairs, rules);
      if next.None? {
        return None;
      }
      var inserted := Inserted(pairs, rules);
      counts := counts + multiset(inserted);
      letters := letters + inserted;
      pairs := next.value;
      polymer := Insert(polymer, rules).value;
      i := i + 1;
    }
    InsertTimesZero(polymer, rules);
    var hi := MostCommon(counts, letters);
    var lo := LeastCommon(counts, letters);
    r := Some(counts[hi] as int - counts[lo] as int);
    assert hi in multiset(letters) && lo in multiset(letters);
    forall k | 0 <= k < |polymer| ensures counts[lo] <= counts[polymer[k]] <= counts[hi] {
      assert polymer[k] in multiset(polymer);
    }
  }
}
