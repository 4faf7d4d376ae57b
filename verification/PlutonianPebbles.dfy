/**
 * 2024 day 11: at every blink each stone changes by the first rule that
 * applies: 0 becomes 1, a stone with an even number of digits splits into
 * its left and right halves, any other stone is multiplied by 2024.  The
 * program keeps a table from stone number to how many stones carry it;
 * the model keeps that table as a multiset.
 */
module PlutonianPebbles {
  import opened Common

  const Multiplier := 2024

  function Pow10(k: nat): (r: nat)
    ensures r >= 1
  {
    if k == 0 then 1 else 10 * Pow10(k - 1)
  }

  lemma {:induction false} Pow10Add(a: nat, b: nat)
    ensures Pow10(a + b) == Pow10(a) * Pow10(b)
    decreases a
  {
    if a > 0 {
      Pow10Add(a - 1, b);
    }
  }

  /** The number of decimal digits, with 0 taken as one digit. */
  function DigitCount(n: nat): (d: nat)
    ensures d >= 1
  {
    if n < 10 then 1 else 1 + DigitCount(n / 10)
  }

  /** `n` has `d` digits: it lies below `10^d`, and from `10^(d-1)` on when positive. */
  lemma {:induction false} DigitCountBounds(n: nat)
    ensures n < Pow10(DigitCount(n))
    ensures n > 0 ==> Pow10(DigitCount(n) - 1) <= n
    decreases n
  {
    if n >= 10 {
      DigitCountBounds(n / 10);
    }
  }

  /** A number between `10^(k-1)` and `10^k` has exactly `k` digits. */
  lemma {:induction false} DigitCountUnique(n: nat, k: nat)
    requires k >= 1 && Pow10(k - 1) <= n < Pow10(k)
    ensures DigitCount(n) == k
    decreases k
  {
    if k > 1 {
      assert Pow10(k) == 10 * Pow10(k - 1);
      assert Pow10(k - 1) == 10 * Pow10(k - 2);
      DigitCountUnique(n / 10, k - 1);
    }
  }

  /** `n` with its last `h` decimal digits dropped: the quotient by `10^h`. */
  function DropDigits(n: nat, h: nat): nat
    decreases h
  {
    if h == 0 then n else DropDigits(n / 10, h - 1)
  }

  /** The last `h` decimal digits of `n`: the remainder by `10^h`. */
  function LastDigits(n: nat, h: nat): nat
    decreases h
  {
    if h == 0 then 0 else n % 10 + 10 * LastDigits(n / 10, h - 1)
  }

  /** Quotient and remainder by `10^h`: they rebuild `n`, and the remainder is below `10^h`. */
  lemma {:induction false} DigitsDivMod(n: nat, h: nat)
    ensures DropDigits(n, h) * Pow10(h) + LastDigits(n, h) == n
    ensures LastDigits(n, h) < Pow10(h)
    decreases h
  {
    if h > 0 {
      DigitsDivMod(n / 10, h - 1);
      var q, p := DropDigits(n / 10, h - 1), Pow10(h - 1);
      assert q * Pow10(h) == 10 * (q * p) by {
        assert Pow10(h) == 10 * p;
      }
    }
  }

  /** `splitNumber`: the number cut after its first half of digits. */
  function SplitNumber(n: nat): (nat, nat)
  {
    var half := DigitCount(n) / 2;
    (DropDigits(n, half), LastDigits(n, half))
  }

  /** The two halves put back together give the number, and the right half has at most `d/2` digits. */
  lemma SplitNumberParts(n: nat)
    ensures SplitNumber(n).0 * Pow10(DigitCount(n) / 2) + SplitNumber(n).1 == n
    ensures SplitNumber(n).1 < Pow10(DigitCount(n) / 2)
  {
    DigitsDivMod(n, DigitCount(n) / 2);
  }

  lemma MulMonotone(a: nat, b: nat, p: nat)
    requires a <= b
    ensures a * p <= b * p
  {
  }

  /** Integer division bounds: `l` is the quotient of `n` by `p`, and `q * p <= n < p * p`. */
  lemma QuotientBounds(n: nat, l: nat, r: nat, p: nat, q: nat)
    requires p > 0 && n == l * p + r && r < p
    requires q * p <= n < p * p
    ensures q <= l < p
  {
    if l < q {
      MulMonotone(l + 1, q, p);
    }
    if l >= p {
      MulMonotone(p, l, p);
    }
  }

  /** With an even number `2h` of digits the left half has exactly `h` digits. */
  lemma SplitLeftHalf(n: nat)
    requires n > 0 && DigitCount(n) % 2 == 0
    ensures DigitCount(SplitNumber(n).0) == DigitCount(n) / 2
  {
    var h := DigitCount(n) / 2;
    var lr := SplitNumber(n);
    Pow10Add(h, h);
    Pow10Add(h - 1, h);
    SplitNumberParts(n);
    DigitCountBounds(n);
    QuotientBounds(n, lr.0, lr.1, Pow10(h), Pow10(h - 1));
    DigitCountUnique(lr.0, h);
  }

  predicate EvenDigits(n: nat)
  {
    n != 0 && DigitCount(n) % 2 == 0
  }

  /** What one stone becomes after one blink. */
  function Rule(n: nat): (r: seq<nat>)
    ensures |r| == if EvenDigits(n) then 2 else 1
  {
    if n == 0 then [1]
    else if DigitCount(n) % 2 == 0 then
      var (l, r) := SplitNumber(n);
      [l, r]
    else [n * Multiplier]
  }

  lemma RuleLength(n: nat)
    ensures |Rule(n)| == 1 || |Rule(n)| == 2
  {
  }

  lemma RuleCases(n: nat)
    ensures n == 0 ==> Rule(n) == [1]
    ensures n != 0 && DigitCount(n) % 2 == 0 ==> Rule(n) == [SplitNumber(n).0, SplitNumber(n).1]
    ensures n != 0 && DigitCount(n) % 2 != 0 ==> Rule(n) == [n * Multiplier]
  {
  }

  /** One blink over a row of stones, stone by stone. */
  function Blink(s: seq<nat>): seq<nat>
  {
    if |s| == 0 then [] else Rule(s[0]) + Blink(s[1..])
  }

  function EvenCount(s: seq<nat>): nat
  {
    if |s| == 0 then 0 else (if EvenDigits(s[0]) then 1 else 0) + EvenCount(s[1..])
  }

  /** A blink adds one stone per even-digit stone and never loses one. */
  lemma {:induction false} BlinkLength(s: seq<nat>)
    ensures |Blink(s)| == |s| + EvenCount(s)
    decreases |s|
  {
    if |s| > 0 {
      BlinkLength(s[1..]);
    }
  }

  lemma {:induction false} BlinkAppend(a: seq<nat>, b: seq<nat>)
    ensures Blink(a + b) == Blink(a) + Blink(b)
    decreases |a|
  {
    if |a| == 0 {
      assert a + b == b;
    } else {
      assert (a + b)[1..] == a[1..] + b;
      BlinkAppend(a[1..], b);
    }
  }

  lemma BlinkEmpty()
    ensures Blink([]) == []
  {
  }

  lemma BlinkCons(x: nat, t: seq<nat>)
    ensures Blink([x] + t) == Rule(x) + Blink(t)
  {
    assert ([x] + t)[1..] == t;
  }

  /** Where the first stone of `a` sits in a reordering `b`, and what is left on both sides once it is taken out. */
  lemma MatchFirst(a: seq<nat>, b: seq<nat>) returns (i: nat)
    requires multiset(a) == multiset(b) && |a| > 0
    ensures i < |b| && b[i] == a[0]
    ensures multiset(a[1..]) == multiset(b[..i] + b[i + 1..])
  {
    assert a[0] in multiset(b);
    i :| 0 <= i < |b| && b[i] == a[0];
    var x := a[0];
    var rest := b[..i] + b[i + 1..];
    assert b == b[..i] + [x] + b[i + 1..];
    assert a == [x] + a[1..];
    assert multiset(b) == multiset(b[..i]) + multiset{x} + multiset(b[i + 1..]);
    assert multiset(rest) == multiset(b[..i]) + multiset(b[i + 1..]);
    assert multiset(a[1..]) == multiset(a) - multiset{x};
    assert multiset(rest) == multiset(b) - multiset{x};
  }

  /** The stones of a blink depend only on how many stones carry each number, not on their order. */
  lemma {:induction false} BlinkPermutation(a: seq<nat>, b: seq<nat>)
    requires multiset(a) == multiset(b)
    ensures multiset(Blink(a)) == multiset(Blink(b))
    decreases |a|
  {
    hide *;
    if |a| == 0 {
      assert |b| == |multiset(b)| == 0;
      assert a == b;
    } else {
      var x := a[0];
      var i := MatchFirst(a, b);
      var front, back := b[..i], b[i + 1..];
      assert b == front + ([x] + back);
      assert a == [x] + a[1..];
      var rest := front + back;
      BlinkPermutation(a[1..], rest);
      BlinkCons(x, a[1..]);
      BlinkCons(x, back);
      BlinkAppend(front, [x] + back);
      BlinkAppend(front, back);
      assert multiset(Blink(b)) == multiset(Blink(front)) + multiset(Rule(x)) + multiset(Blink(back));
    }
  }

  // ---------------------------------------------------------------------
  // The table of stone counts

  /** `c` stones all numbered `k`. */
  function Repeat(k: nat, c: nat): (r: seq<nat>)
    ensures |r| == c
  {
    if c == 0 then [] else [k] + Repeat(k, c - 1)
  }

  lemma RepeatZero(k: nat)
    ensures Repeat(k, 0) == []
  {
  }

  lemma RepeatNext(k: nat, c: nat)
    requires c > 0
    ensures Repeat(k, c) == [k] + Repeat(k, c - 1)
  {
  }

  lemma {:induction false} RepeatCount(k: nat, c: nat)
    ensures forall x :: multiset(Repeat(k, c))[x] == if x == k then c else 0
    decreases c
  {
    if c > 0 {
      RepeatCount(k, c - 1);
    }
  }

  /** Adding `c` to the count of `a` adds `c` stones numbered `a`. */
  lemma AddCopies(m: multiset<nat>, a: nat, c: nat)
    ensures m[a := m[a] + c] == m + multiset(Repeat(a, c))
  {
    RepeatCount(a, c);
  }

  /** Taking `c` off the count of `k` removes `c` stones numbered `k`. */
  lemma RemoveCopies(m: multiset<nat>, k: nat, c: nat)
    requires m[k] >= c
    ensures m[k := m[k] - c] + multiset(Repeat(k, c)) == m
  {
    RepeatCount(k, c);
  }

  /** The stones of `s` whose number is in `keys`, in order. */
  function Filter(s: seq<nat>, keys: set<nat>): (r: seq<nat>)
    ensures |r| <= |s|
  {
    if |s| == 0 then []
    else (if s[0] in keys then [s[0]] else []) + Filter(s[1..], keys)
  }

  lemma {:induction false} FilterCount(s: seq<nat>, keys: set<nat>)
    ensures forall x :: multiset(Filter(s, keys))[x] == if x in keys then multiset(s)[x] else 0
    decreases |s|
  {
    if |s| > 0 {
      FilterCount(s[1..], keys);
      assert s == [s[0]] + s[1..];
    }
  }

  /** The stones numbered `k` are `k` repeated as often as it occurs. */
  lemma {:induction false} FilterSingle(s: seq<nat>, k: nat)
    ensures Filter(s, {k}) == Repeat(k, multiset(s)[k])
    decreases |s|
  {
    if |s| > 0 {
      FilterSingle(s[1..], k);
      assert s == [s[0]] + s[1..];
    }
  }

  lemma FilterSplit(s: seq<nat>, keys: set<nat>, k: nat)
    requires k !in keys
    ensures multiset(Filter(s, keys + {k})) == multiset(Filter(s, keys)) + multiset(Filter(s, {k}))
  {
    hide *;
    FilterCount(s, keys + {k});
    FilterCount(s, keys);
    FilterCount(s, {k});
  }

  /** `c` stones numbered `k` blink into `c` copies of each stone `k` becomes. */
  lemma {:induction false} BlinkRepeat(k: nat, c: nat)
    ensures |Rule(k)| == 1 ==> multiset(Blink(Repeat(k, c))) == multiset(Repeat(Rule(k)[0], c))
    ensures |Rule(k)| == 2 ==> multiset(Blink(Repeat(k, c))) == multiset(Repeat(Rule(k)[0], c)) + multiset(Repeat(Rule(k)[1], c))
    decreases c
  {
    hide *;
    if c == 0 {
      RepeatZero(k);
      RepeatZero(Rule(k)[0]);
      BlinkEmpty();
      if |Rule(k)| == 2 {
        RepeatZero(Rule(k)[1]);
      }
    } else {
      var tail := Repeat(k, c - 1);
      BlinkRepeat(k, c - 1);
      RepeatNext(k, c);
      BlinkCons(k, tail);
      var r := Rule(k);
      RuleLength(k);
      assert multiset(Blink(Repeat(k, c))) == multiset(r) + multiset(Blink(tail));
      RepeatNext(r[0], c);
      if |r| == 2 {
        RepeatNext(r[1], c);
        assert r == [r[0]] + [r[1]];
        assert multiset(r) == multiset{r[0]} + multiset{r[1]};
      } else {
        assert r == [r[0]];
        assert multiset(r) == multiset{r[0]};
      }
    }
  }

  /** A row of stones that the table `m` describes. */
  ghost function Listing(m: multiset<nat>): (s: seq<nat>)
    ensures multiset(s) == m
    decreases |m|
  {
    if |m| == 0 then []
    else
      var x :| x in m;
      [x] + Listing(m - multiset{x})
  }

  /** The table after one blink of any row the table `orig` describes. */
  ghost predicate BlinkOf(orig: multiset<nat>, next: multiset<nat>)
  {
    forall s: seq<nat> {:trigger multiset(s)} :: multiset(s) == orig ==> next == multiset(Blink(s))
  }

  /** A table is the blink of `orig` once it is the table of the blink of one row `orig` describes. */
  lemma BlinkOfRow(orig: multiset<nat>, next: multiset<nat>, s: seq<nat>)
    requires multiset(s) == orig && next == multiset(Blink(s))
    ensures BlinkOf(orig, next)
  {
    forall t: seq<nat> | multiset(t) == orig ensures next == multiset(Blink(t)) {
      BlinkPermutation(s, t);
    }
  }

  /** Moving number `k` from the part still to do into the part done. */
  lemma TakeKey(s: seq<nat>, todo: set<nat>, done: set<nat>, k: nat)
    requires k in todo && k !in done
    ensures multiset(Filter(s, todo)) == multiset(Filter(s, todo - {k})) + multiset(Repeat(k, multiset(s)[k]))
    ensures multiset(Blink(Filter(s, done + {k}))) == multiset(Blink(Filter(s, done))) + multiset(Blink(Repeat(k, multiset(s)[k])))
  {
    FilterSingle(s, k);
    FilterSplit(s, todo - {k}, k);
    assert todo - {k} + {k} == todo;
    FilterSplit(s, done, k);
    BlinkPermutation(Filter(s, done + {k}), Filter(s, done) + Filter(s, {k}));
    BlinkAppend(Filter(s, done), Filter(s, {k}));
  }

  /** Once every number is done the part done is the whole row and the part to do is empty. */
  lemma FilterEnds(s: seq<nat>, done: set<nat>)
    requires forall x :: x in multiset(s) ==> x in done
    ensures Filter(s, {}) == []
    ensures multiset(Filter(s, done)) == multiset(s)
  {
    FilterCount(s, {});
    FilterCount(s, done);
  }

  /**
   * One pass of the loop of `ExecuteSingle` for number `k` with `c` stones:
   * `c` is taken off `k` and added to each number `k` becomes.
   */
  function Move(m: multiset<nat>, k: nat, c: nat): multiset<nat>
    requires m[k] >= c
  {
    var taken := m[k := m[k] - c];
    if k == 0 then taken[1 := taken[1] + c]
    else if DigitCount(k) % 2 == 0 then
      var (left, right) := SplitNumber(k);
      var once := taken[left := taken[left] + c];
      once[right := once[right] + c]
    else taken[k * Multiplier := taken[k * Multiplier] + c]
  }

  /** Moving trades the `c` stones numbered `k` for their blink. */
  lemma MoveBlinks(m: multiset<nat>, k: nat, c: nat)
    requires m[k] >= c
    ensures Move(m, k, c) + multiset(Repeat(k, c)) == m + multiset(Blink(Repeat(k, c)))
  {
    hide *;
    var taken := m[k := m[k] - c];
    var repeated := multiset(Repeat(k, c));
    RemoveCopies(m, k, c);
    assert taken + repeated == m;
    RuleCases(k);
    BlinkRepeat(k, c);
    if k != 0 && DigitCount(k) % 2 == 0 {
      var added := multiset(Repeat(SplitNumber(k).0, c)) + multiset(Repeat(SplitNumber(k).1, c));
      assert multiset(Blink(Repeat(k, c))) == added;
      MoveSplit(m, k, c);
      assert Move(m, k, c) == taken + added;
    } else {
      var image := if k == 0 then 1 else k * Multiplier;
      assert Rule(k) == [image];
      var added := multiset(Repeat(image, c));
      assert multiset(Blink(Repeat(k, c))) == added;
      MoveSingle(m, k, c);
      AddCopies(taken, image, c);
      assert Move(m, k, c) == taken + added;
    }
  }

  lemma MoveSingle(m: multiset<nat>, k: nat, c: nat)
    requires m[k] >= c
    requires k == 0 || DigitCount(k) % 2 != 0
    ensures var taken := m[k := m[k] - c]; var image := if k == 0 then 1 else k * Multiplier;
      Move(m, k, c) == taken[image := taken[image] + c]
  {
  }

  lemma MoveSplit(m: multiset<nat>, k: nat, c: nat)
    requires m[k] >= c
    requires k != 0 && DigitCount(k) % 2 == 0
    ensures var taken := m[k := m[k] - c];
      Move(m, k, c) == taken + multiset(Repeat(SplitNumber(k).0, c)) + multiset(Repeat(SplitNumber(k).1, c))
  {
    var taken := m[k := m[k] - c];
    var left, right := SplitNumber(k).0, SplitNumber(k).1;
    var once := taken[left := taken[left] + c];
    assert Move(m, k, c) == once[right := once[right] + c];
    AddCopies(taken, left, c);
    AddCopies(once, right, c);
  }

  /** The loop invariant of `ExecuteSingle`: numbers still to do keep their stones, numbers done hold their blink. */
  ghost predicate Progress(s: seq<nat>, todo: set<nat>, done: set<nat>, copy: multiset<nat>)
  {
    copy == multiset(Filter(s, todo)) + multiset(Blink(Filter(s, done)))
  }

  lemma ProgressMeans(s: seq<nat>, todo: set<nat>, done: set<nat>, copy: multiset<nat>)
    ensures Progress(s, todo, done, copy) <==> copy == multiset(Filter(s, todo)) + multiset(Blink(Filter(s, done)))
  {
  }

  /** Handling one number still to do keeps the invariant. */
  lemma ProgressStep(s: seq<nat>, todo: set<nat>, done: set<nat>, copy: multiset<nat>, k: nat)
    requires k in todo && k !in done && Progress(s, todo, done, copy)
    ensures copy[k] >= multiset(s)[k]
    ensures Progress(s, todo - {k}, done + {k}, Move(copy, k, multiset(s)[k]))
  {
    hide *;
    var c := multiset(s)[k];
    TakeKey(s, todo, done, k);
    ProgressMeans(s, todo, done, copy);
    var rest := multiset(Filter(s, todo - {k})) + multiset(Blink(Filter(s, done)));
    var repeated := multiset(Repeat(k, c));
    var blinked := multiset(Blink(Repeat(k, c)));
    assert copy == rest + repeated;
    RepeatCount(k, c);
    assert copy[k] >= c;
    MoveBlinks(copy, k, c);
    MultisetCancel(Move(copy, k, c), rest + blinked, repeated);
    ProgressMeans(s, todo - {k}, done + {k}, Move(copy, k, c));
  }

  /** Before the loop nothing is done; after it nothing is left to do. */
  lemma ProgressEnds(s: seq<nat>, keys: set<nat>, copy: multiset<nat>)
    requires forall x :: x in multiset(s) ==> x in keys
    ensures copy == multiset(s) ==> Progress(s, keys, {}, copy)
    ensures Progress(s, {}, keys, copy) ==> copy == multiset(Blink(s))
  {
    FilterEnds(s, keys);
    BlinkEmpty();
    BlinkPermutation(Filter(s, keys), s);
  }

  /**
   * `ExecuteSingle`: for every number in the table, its stones are taken
   * off and as many are added to each number it becomes.  The copy starts
   * as the table itself and ends as the table of the blinked row.
   */
  method ExecuteSingle(orig: multiset<nat>) returns (copy: multiset<nat>)
    ensures BlinkOf(orig, copy)
  {
    hide *;
    ghost var s := Listing(orig);
    copy := orig;
    var todo := set x | x in orig;
    ghost var done: set<nat> := {};
    ProgressEnds(s, todo, copy);
    while todo != {}
      invariant todo * done == {}
      invariant forall x :: x in orig <==> x in todo + done
      invariant Progress(s, todo, done, copy)
      decreases |todo|
    {
      var k :| k in todo;
      ProgressStep(s, todo, done, copy, k);
      copy := Move(copy, k, orig[k]);
      todo := todo - {k};
      done := done + {k};
    }
    ProgressEnds(s, done, copy);
    BlinkOfRow(orig, copy, s);
  }

  /** The table total grows by the number of even-digit stones. */
  lemma BlinkTotal(orig: multiset<nat>, next: multiset<nat>, s: seq<nat>)
    requires BlinkOf(orig, next) && multiset(s) == orig
    ensures |next| == |orig| + EvenCount(s)
  {
    BlinkLength(s);
  }

  /** `n` blinks of a row. */
  function BlinkTimes(s: seq<nat>, n: nat): seq<nat>
    decreases n
  {
    if n == 0 then s else BlinkTimes(Blink(s), n - 1)
  }

  /** The table built as written: each number read has its count set to 1. */
  function InitialConfigurationWritten(stones: seq<nat>): multiset<nat>
    decreases |stones|
  {
    if |stones| == 0 then multiset{}
    else
      var last := stones[|stones| - 1];
      InitialConfigurationWritten(stones[..|stones| - 1])[last := 1]
  }

  /** As written, every number read counts exactly once, however often it was read. */
  lemma {:induction false} WrittenCountsOnce(stones: seq<nat>)
    ensures forall x :: InitialConfigurationWritten(stones)[x] == if x in stones then 1 else 0
    decreases |stones|
  {
    if |stones| > 0 {
      var front := stones[..|stones| - 1];
      WrittenCountsOnce(front);
      assert stones == front + [stones[|stones| - 1]];
    }
  }

  /** The table built with the count of each number read increased by one. */
  function InitialConfiguration(stones: seq<nat>): multiset<nat>
    decreases |stones|
  {
    if |stones| == 0 then multiset{}
    else
      var last := stones[|stones| - 1];
      var before := InitialConfiguration(stones[..|stones| - 1]);
      before[last := before[last] + 1]
  }

  /** Counting up gives the table of the whole row, one stone per number read. */
  lemma {:induction false} InitialConfigurationCounts(stones: seq<nat>)
    ensures InitialConfiguration(stones) == multiset(stones)
    decreases |stones|
  {
    if |stones| > 0 {
      var front := stones[..|stones| - 1];
      InitialConfigurationCounts(front);
      assert stones == front + [stones[|stones| - 1]];
    }
  }

  /** The total after `n` blinks from a starting table, as the program adds up its table. */
  method CountStones(initial: multiset<nat>, n: nat) returns (total: nat, config: multiset<nat>)
    ensures forall s: seq<nat> {:trigger multiset(s)} :: multiset(s) == initial ==> total == |BlinkTimes(s, n)| && config == multiset(BlinkTimes(s, n))
  {
    config := initial;
    ghost var row := Listing(initial);
    var i := 0;
    while i < n
      invariant 0 <= i <= n
      invariant config == multiset(BlinkTimes(row, i))
    {
      var next := ExecuteSingle(config);
      BlinkTimesStep(row, i);
      assert next == multiset(Blink(BlinkTimes(row, i)));
      config := next;
      i := i + 1;
    }
    total := |config|;
    forall t: seq<nat> | multiset(t) == initial
      ensures total == |BlinkTimes(t, n)| && config == multiset(BlinkTimes(t, n))
    {
      BlinkTimesPermutation(row, t, n);
    }
  }

  lemma BlinkTimesZero(s: seq<nat>)
    ensures BlinkTimes(s, 0) == s
  {
  }

  lemma BlinkTimesNext(s: seq<nat>, n: nat)
    requires n > 0
    ensures BlinkTimes(s, n) == BlinkTimes(Blink(s), n - 1)
  {
  }

  lemma {:induction false} BlinkTimesStep(s: seq<nat>, n: nat)
    ensures BlinkTimes(s, n + 1) == Blink(BlinkTimes(s, n))
    decreases n
  {
    if n > 0 {
      BlinkTimesStep(Blink(s), n - 1);
    }
  }

  lemma {:induction false} BlinkTimesPermutation(a: seq<nat>, b: seq<nat>, n: nat)
    requires multiset(a) == multiset(b)
    ensures multiset(BlinkTimes(a, n)) == multiset(BlinkTimes(b, n))
    decreases n
  {
    hide *;
    if n == 0 {
      BlinkTimesZero(a);
      BlinkTimesZero(b);
    } else {
      BlinkTimesNext(a, n);
      BlinkTimesNext(b, n);
      BlinkPermutation(a, b);
      BlinkTimesPermutation(Blink(a), Blink(b), n - 1);
    }
  }

  /** The count as written: the table starts from the distinct numbers read. */
  method CountStonesAfterNIterationsWritten(stones: seq<nat>, n: nat) returns (total: nat)
    ensures forall s: seq<nat> {:trigger multiset(s)} :: multiset(s) == InitialConfigurationWritten(stones) ==> total == |BlinkTimes(s, n)|
  {
    var config;
    total, config := CountStones(InitialConfigurationWritten(stones), n);
  }

  /** The count with every stone read counted: the number of stones after `n` blinks of the row. */
  method CountStonesAfterNIterations(stones: seq<nat>, n: nat) returns (total: nat)
    ensures total == |BlinkTimes(stones, n)|
  {
    InitialConfigurationCounts(stones);
    var config;
    total, config := CountStones(InitialConfiguration(stones), n);
  }

  /** Two stones both numbered 1 and no blink: the table as written holds one stone, the row holds two. */
  lemma DuplicateStonesCollapse()
    ensures |InitialConfigurationWritten([1, 1])| == 1
    ensures |BlinkTimes([1, 1], 0)| == 2
  {
    WrittenCountsOnce([1, 1]);
    assert InitialConfigurationWritten([1, 1]) == multiset{1};
  }

  /** `RemoveStonesZeroCount`: the entries whose count is not positive are erased and the rest kept. */
  function RemoveStonesZeroCount(m: map<nat, int>): (r: map<nat, int>)
    ensures forall k :: k in r <==> k in m && m[k] > 0
    ensures forall k :: k in r ==> r[k] == m[k]
  {
    map k | k in m && m[k] > 0 :: m[k]
  }
}
