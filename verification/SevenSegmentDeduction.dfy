/**
 * Why the deduction of Seven Segment Search is right: when the ten
 * patterns of a line are the ten digits drawn through some wiring of the
 * seven segments, in any order and each with its wires in any order,
 * `MakeTemplateFromSignals` finds exactly that wiring, and `CalculateDigit`
 * then reads every pattern back as the digit it draws.
 */
module SevenSegmentDeduction {

  import opened Common
  import opened Decimal
  import opened SevenSegment

  // ---------------------------------------------------------------------
  // Digits drawn through a wiring

  /**
   * The segments a digit lights, as the bits of the program's `bitset<7>`:
   * 6 upper, 5 upper left, 4 upper right, 3 middle, 2 bottom left,
   * 1 bottom right, 0 bottom.
   */
  function Lit(k: nat): (r: seq<int>)
    requires k < 10
    ensures forall j :: 0 <= j < |r| ==> 0 <= r[j] < 7
    ensures forall i, j :: 0 <= i < j < |r| ==> r[i] > r[j]
  {
    if k == 0 then [6, 5, 4, 2, 1, 0]
    else if k == 1 then [4, 1]
    else if k == 2 then [6, 4, 3, 2, 0]
    else if k == 3 then [6, 4, 3, 1, 0]
    else if k == 4 then [5, 4, 3, 1]
    else if k == 5 then [6, 5, 3, 1, 0]
    else if k == 6 then [6, 5, 3, 2, 1, 0]
    else if k == 7 then [6, 4, 1]
    else if k == 8 then [6, 5, 4, 3, 2, 1, 0]
    else [6, 5, 4, 3, 1, 0]
  }

  /** A wiring names the wire of each segment, by bit: seven different characters that fit in a byte. */
  predicate Wiring(w: string)
  {
    |w| == 7 && (forall i, j :: 0 <= i < j < 7 ==> w[i] != w[j]) && forall i :: 0 <= i < 7 ==> w[i] as int < 256
  }

  /** The template that describes a wiring. */
  function TemplateOf(w: string): SegmentTemplate
    requires |w| == 7
  {
    SegmentTemplate(w[6], w[5], w[4], w[3], w[2], w[1], w[0])
  }

  /** The wires lit for digit `k`. */
  function Encode(w: string, k: nat): (s: string)
    requires |w| == 7 && k < 10
    ensures |s| == |Lit(k)|
  {
    seq(|Lit(k)|, j requires 0 <= j < |Lit(k)| => w[Lit(k)[j]])
  }

  /** A pattern draws digit `k` when it holds the wires of the digit, in any order. */
  predicate Draws(s: string, w: string, k: nat)
    requires |w| == 7 && k < 10
  {
    multiset(s) == multiset(Encode(w, k))
  }

  /** The ten patterns of a line: the ten digits, each once, in the order `order`. */
  predicate Display(signals: seq<string>, w: string, order: seq<nat>)
  {
    && Wiring(w) && |signals| == 10 && |order| == 10
    && Distinct(order) && (forall k :: 0 <= k < 10 ==> k in order)
    && forall i :: 0 <= i < 10 ==> order[i] < 10 && Draws(signals[i], w, order[i])
  }

  /** The wire of segment `i` is lit for a digit exactly when the digit lights segment `i`. */
  lemma WireIn(s: string, w: string, k: nat, i: int)
    requires Wiring(w) && k < 10 && 0 <= i < 7 && Draws(s, w, k)
    ensures w[i] in s <==> i in Lit(k)
  {
    var e := Encode(w, k);
    assert w[i] in s <==> w[i] in e by {
      assert w[i] in s <==> w[i] in multiset(s);
      assert w[i] in e <==> w[i] in multiset(e);
    }
    if i in Lit(k) {
      var j :| 0 <= j < |Lit(k)| && Lit(k)[j] == i;
      assert e[j] == w[i];
    }
    if w[i] in e {
      var j :| 0 <= j < |e| && e[j] == w[i];
      assert w[Lit(k)[j]] == w[i];
      assert Lit(k)[j] == i;
    }
  }

  /** A pattern that draws a digit is as long as the digit has segments. */
  lemma DrawsLength(s: string, w: string, k: nat)
    requires |w| == 7 && k < 10 && Draws(s, w, k)
    ensures |s| == |Lit(k)|
  {
    assert |s| == |multiset(s)| == |multiset(Encode(w, k))|;
  }

  /** Every digit is drawn by some pattern of the line. */
  lemma Drawn(signals: seq<string>, w: string, order: seq<nat>, k: nat) returns (p: nat)
    requires Display(signals, w, order) && k < 10
    ensures p < 10 && order[p] == k
  {
    assert k in order;
    p :| 0 <= p < 10 && order[p] == k;
  }

  // ---------------------------------------------------------------------
  // The patterns found by their size

  /** The size of a pattern names its digit when only that digit has so many segments. */
  lemma FindsDigit(signals: seq<string>, w: string, order: seq<nat>, k: nat, n: nat)
    requires Display(signals, w, order) && k < 10 && |Lit(k)| == n
    requires forall d :: 0 <= d < 10 && |Lit(d)| == n ==> d == k
    ensures FindLength(signals, n) < 10
    ensures order[FindLength(signals, n)] == k
  {
    var p := Drawn(signals, w, order, k);
    DrawsLength(signals[p], w, k);
    var i := FindLength(signals, n);
    assert i <= p;
    DrawsLength(signals[i], w, order[i]);
  }

  /** The digits whose patterns `copy_if` keeps, in their order. */
  function DigitsOfLength(ord: seq<nat>, n: nat): (r: seq<nat>)
    requires forall i :: 0 <= i < |ord| ==> ord[i] < 10
    ensures forall j :: 0 <= j < |r| ==> r[j] < 10 && |Lit(r[j])| == n
    decreases |ord|
  {
    if |ord| == 0 then [] else (if |Lit(ord[0])| == n then [ord[0]] else []) + DigitsOfLength(ord[1..], n)
  }

  /** `copy_if` on the size keeps, for each kept digit, the pattern that draws it. */
  lemma {:induction false} OfLengthDraws(ss: seq<string>, w: string, ord: seq<nat>, n: nat)
    requires |w| == 7 && |ss| == |ord|
    requires forall i :: 0 <= i < |ord| ==> ord[i] < 10 && Draws(ss[i], w, ord[i])
    ensures |OfLength(ss, n)| == |DigitsOfLength(ord, n)|
    ensures forall j :: 0 <= j < |OfLength(ss, n)| ==> Draws(OfLength(ss, n)[j], w, DigitsOfLength(ord, n)[j])
    decreases |ss|
  {
    if |ss| > 0 {
      DrawsLength(ss[0], w, ord[0]);
      OfLengthDraws(ss[1..], w, ord[1..], n);
      var a, b := OfLength(ss[1..], n), DigitsOfLength(ord[1..], n);
      if |ss[0]| == n {
        assert OfLength(ss, n) == [ss[0]] + a;
        assert DigitsOfLength(ord, n) == [ord[0]] + b;
      } else {
        assert OfLength(ss, n) == a;
        assert DigitsOfLength(ord, n) == b;
      }
    }
  }

  /** The kept digits are the digits of the wanted size. */
  lemma {:induction false} DigitsOfLengthIn(ord: seq<nat>, n: nat, x: nat)
    requires forall i :: 0 <= i < |ord| ==> ord[i] < 10
    ensures x in DigitsOfLength(ord, n) <==> x in ord && |Lit(x)| == n
    decreases |ord|
  {
    if |ord| > 0 {
      DigitsOfLengthIn(ord[1..], n, x);
      assert ord == [ord[0]] + ord[1..];
    }
  }

  /** Keeping some of the digits keeps them apart. */
  lemma {:induction false} DigitsOfLengthDistinct(ord: seq<nat>, n: nat)
    requires forall i :: 0 <= i < |ord| ==> ord[i] < 10
    requires Distinct(ord)
    ensures Distinct(DigitsOfLength(ord, n))
    decreases |ord|
  {
    if |ord| > 0 {
      DigitsOfLengthDistinct(ord[1..], n);
      DigitsOfLengthIn(ord[1..], n, ord[0]);
      var r := DigitsOfLength(ord[1..], n);
      assert ord[0] !in ord[1..];
      assert |Lit(ord[0])| == n ==> DigitsOfLength(ord, n) == [ord[0]] + r;
    }
  }

  /** The elements of a sequence. */
  function Elems(s: seq<nat>): (r: set<nat>)
    ensures forall x :: x in r <==> x in s
  {
    if |s| == 0 then {} else Elems(s[..|s| - 1]) + {s[|s| - 1]}
  }

  /** A sequence without repeats is as long as the set of its elements is large. */
  lemma {:induction false} DistinctCard(s: seq<nat>)
    requires Distinct(s)
    ensures |Elems(s)| == |s|
    decreases |s|
  {
    if |s| > 0 {
      var t := s[..|s| - 1];
      assert Distinct(t) by {
        forall i, j | 0 <= i < j < |t|
          ensures t[i] != t[j]
        {
          assert t[i] == s[i] && t[j] == s[j];
        }
      }
      DistinctCard(t);
      assert s[|s| - 1] !in t by {
        forall i | 0 <= i < |t|
          ensures t[i] != s[|s| - 1]
        {
          assert t[i] == s[i];
        }
      }
    }
  }

  /** Zero, six and nine are the digits of six segments. */
  lemma SixSegments(x: nat)
    requires x < 10
    ensures |Lit(x)| == 6 <==> x == 0 || x == 6 || x == 9
  {
  }

  /** Of ten different digits, the ones of six segments are zero, six and nine. */
  lemma SixDigits(order: seq<nat>)
    requires |order| == 10 && Distinct(order)
    requires forall i :: 0 <= i < 10 ==> order[i] < 10
    requires forall k :: 0 <= k < 10 ==> k in order
    ensures |DigitsOfLength(order, 6)| == 3
    ensures Distinct(DigitsOfLength(order, 6))
    ensures forall x :: x in DigitsOfLength(order, 6) <==> x == 0 || x == 6 || x == 9
  {
    hide *;
    var dl := DigitsOfLength(order, 6);
    forall x
      ensures x in dl <==> x == 0 || x == 6 || x == 9
    {
      SixDigitsIn(order, x);
    }
    DigitsOfLengthDistinct(order, 6);
    DistinctCard(dl);
    assert Elems(dl) == {0, 6, 9};
  }

  lemma SixDigitsIn(order: seq<nat>, x: nat)
    requires forall i :: 0 <= i < |order| ==> order[i] < 10
    requires forall k :: 0 <= k < 10 ==> k in order
    ensures x in DigitsOfLength(order, 6) <==> x == 0 || x == 6 || x == 9
  {
    DigitsOfLengthIn(order, 6, x);
    assert x in order <==> x < 10 by {
      if x in order {
        var i :| 0 <= i < |order| && order[i] == x;
      }
    }
    if x < 10 {
      SixSegments(x);
    }
  }

  /** The six-segment patterns draw zero, six and nine, in some order. */
  lemma SixesDrawn(signals: seq<string>, w: string, order: seq<nat>)
    requires Display(signals, w, order)
    ensures |OfLength(signals, 6)| == |DigitsOfLength(order, 6)| == 3
    ensures Distinct(DigitsOfLength(order, 6))
    ensures forall x :: x in DigitsOfLength(order, 6) <==> x == 0 || x == 6 || x == 9
    ensures forall j :: 0 <= j < 3 ==> Draws(OfLength(signals, 6)[j], w, DigitsOfLength(order, 6)[j])
  {
    OfLengthDraws(signals, w, order, 6);
    SixDigits(order);
  }

  // ---------------------------------------------------------------------
  // The steps of the deduction

  /** The wires of the digits the deduction looks at, segment by segment. */
  lemma Encodings(w: string)
    requires |w| == 7
    ensures Encode(w, 0) == [w[6], w[5], w[4], w[2], w[1], w[0]]
    ensures Encode(w, 1) == [w[4], w[1]]
    ensures Encode(w, 4) == [w[5], w[4], w[3], w[1]]
    ensures Encode(w, 6) == [w[6], w[5], w[3], w[2], w[1], w[0]]
    ensures Encode(w, 7) == [w[6], w[4], w[1]]
    ensures Encode(w, 8) == [w[6], w[5], w[4], w[3], w[2], w[1], w[0]]
    ensures Encode(w, 9) == [w[6], w[5], w[4], w[3], w[1], w[0]]
  {
  }

  /** A string holding two different characters holds them in one order or the other. */
  lemma TwoOf(s: string, a: char, b: char)
    requires multiset(s) == multiset{a, b} && a != b
    ensures |s| == 2
    ensures (s[0] == a && s[1] == b) || (s[0] == b && s[1] == a)
  {
    assert |s| == |multiset(s)| == 2;
    assert s[0] in multiset(s) && s[1] in multiset(s);
    if s[0] == s[1] {
      assert s == [s[0], s[0]];
      assert multiset(s)[s[0]] == 2;
    }
  }

  /** The two wires of one, in the order the pattern has them. */
  lemma OneWires(one: string, w: string)
    requires Wiring(w) && Draws(one, w, 1)
    ensures |one| == 2
    ensures (one[0] == w[4] && one[1] == w[1]) || (one[0] == w[1] && one[1] == w[4])
  {
    Encodings(w);
    assert multiset(Encode(w, 1)) == multiset{w[4], w[1]};
    TwoOf(one, w[4], w[1]);
  }

  /** Of zero, six and nine, only six lacks a wire of one. */
  lemma LacksOne(s: string, w: string, k: nat, one: string)
    requires Wiring(w) && (k == 0 || k == 6 || k == 9) && Draws(s, w, k)
    requires |one| == 2 && ((one[0] == w[4] && one[1] == w[1]) || (one[0] == w[1] && one[1] == w[4]))
    ensures (one[0] in s && one[1] in s) <==> k != 6
  {
    WireIn(s, w, k, 4);
    WireIn(s, w, k, 1);
    RightWires();
  }

  /** Six holds the bottom right wire of one and lacks the upper right one. */
  lemma SixRightWires(one: string, six: string, w: string)
    requires Wiring(w) && Draws(one, w, 1) && Draws(six, w, 6)
    ensures GetUpperBottomRightFromSixAndOne(one, six) == (w[4], w[1])
  {
    OneWires(one, w);
    WireIn(six, w, 6, 4);
    WireIn(six, w, 6, 1);
    RightWires();
  }

  /** Zero and nine light both right-hand segments; six lights only the bottom one. */
  lemma RightWires()
    ensures 4 in Lit(0) && 1 in Lit(0) && 4 in Lit(9) && 1 in Lit(9)
    ensures 4 !in Lit(6) && 1 in Lit(6)
  {
  }

  /**
   * Six is the six-segment pattern lacking a wire of one: `find_if` over the
   * three patterns stops at the one that draws six.
   */
  lemma SixFound(sixes: seq<string>, dl: seq<nat>, w: string, one: string)
    requires Wiring(w) && |sixes| == |dl| == 3
    requires forall x :: x in dl <==> x == 0 || x == 6 || x == 9
    requires forall j :: 0 <= j < 3 ==> dl[j] < 10 && Draws(sixes[j], w, dl[j])
    requires Draws(one, w, 1)
    ensures |one| == 2
    ensures FindLacking(sixes, one[0], one[1]) < 3
    ensures dl[FindLacking(sixes, one[0], one[1])] == 6
  {
    OneWires(one, w);
    hide *;
    forall j | 0 <= j < 3
      ensures (one[0] in sixes[j] && one[1] in sixes[j]) <==> dl[j] != 6
    {
      assert dl[j] in dl;
      LacksOne(sixes[j], w, dl[j], one);
    }
    assert 6 in dl;
  }

  /** The two patterns left after six draw zero and nine, in some order. */
  lemma ZeroAndNine(sixes: seq<string>, dl: seq<nat>, w: string, k: nat)
    requires |w| == 7 && |sixes| == |dl| == 3 && k < 3 && Distinct(dl) && dl[k] == 6
    requires forall x :: x in dl <==> x == 0 || x == 6 || x == 9
    requires forall j :: 0 <= j < 3 ==> dl[j] < 10 && Draws(sixes[j], w, dl[j])
    ensures |Erase(sixes, k)| == 2
    ensures var rest := Erase(sixes, k);
      || (Draws(rest[0], w, 0) && Draws(rest[1], w, 9))
      || (Draws(rest[0], w, 9) && Draws(rest[1], w, 0))
  {
    var rest := Erase(sixes, k);
    var a, b := if k == 0 then 1 else 0, if k == 2 then 1 else 2;
    assert rest[0] == sixes[a] && rest[1] == sixes[b];
    assert dl[a] != 6 && dl[b] != 6 && dl[a] != dl[b];
    assert dl[a] in dl && dl[b] in dl;
  }

  /** The wires zero and nine share. */
  function ZeroNineCommon(w: string): multiset<char>
    requires |w| == 7
  {
    multiset([w[6], w[5], w[4]]) + multiset([w[1], w[0]])
  }

  /** Zero adds the bottom left wire to what it shares with nine, nine the middle one. */
  lemma ZeroNineWires(w: string)
    requires |w| == 7
    ensures multiset(Encode(w, 0)) == ZeroNineCommon(w) + multiset{w[2]}
    ensures multiset(Encode(w, 9)) == ZeroNineCommon(w) + multiset{w[3]}
  {
    var top, low := [w[6], w[5], w[4]], [w[1], w[0]];
    assert Encode(w, 0) == top + [w[2]] + low;
    assert Encode(w, 9) == top + [w[3]] + low;
  }

  /** Zero and nine differ in the bottom left and the middle segments. */
  lemma ZeroNineUncommon(r0: string, r1: string, w: string)
    requires Wiring(w)
    requires || (Draws(r0, w, 0) && Draws(r1, w, 9))
             || (Draws(r0, w, 9) && Draws(r1, w, 0))
    ensures multiset(GetUnCommonElements(r0, r1)) == multiset{w[3], w[2]}
  {
    hide Encode, Lit, GetUnCommonElements;
    ZeroNineWires(w);
    var common := ZeroNineCommon(w);
    var z, n := multiset{w[2]}, multiset{w[3]};
    assert w[2] != w[3];
    assert z * n == multiset{} && n * z == multiset{};
    assert z + n == multiset{w[3], w[2]} && n + z == multiset{w[3], w[2]};
    var first := Draws(r0, w, 0);
    assert first ==> multiset(r0) == common + z && multiset(r1) == common + n;
    assert !first ==> multiset(r0) == common + n && multiset(r1) == common + z;
    if first {
      UnCommonOfExtensions(r0, r1, common, z, n);
    } else {
      UnCommonOfExtensions(r0, r1, common, n, z);
    }
  }

  /** One and four differ in the upper left and the middle segments. */
  lemma OneFourUncommon(one: string, four: string, w: string)
    requires Wiring(w) && Draws(one, w, 1) && Draws(four, w, 4)
    ensures multiset(GetUnCommonElements(one, four)) == multiset{w[3], w[5]}
  {
    Encodings(w);
    var common := multiset{w[4], w[1]};
    assert multiset(Encode(w, 4)) == common + multiset{w[3], w[5]};
    UnCommonOfExtensions(one, four, common, multiset{}, multiset{w[3], w[5]});
  }

  /** The upper segment is the wire seven has and one has not. */
  lemma OneSevenUncommon(one: string, seven: string, w: string)
    requires Wiring(w) && Draws(one, w, 1) && Draws(seven, w, 7)
    ensures GetUnCommonElements(one, seven) == [w[6]]
  {
    Encodings(w);
    assert multiset(Encode(w, 7)) == multiset(Encode(w, 1)) + multiset{w[6]};
    UpperSegment(one, seven, w[6]);
  }

  /**
   * The split of the upper left and middle wires: the middle one is the
   * wire both candidate lists share, whichever order they come in.
   */
  lemma SplitKnown(uncommon: string, possible: string, ul: char, mid: char, bl: char)
    requires ul != mid && mid != bl && ul != bl
    requires multiset(uncommon) == multiset{mid, bl}
    requires multiset(possible) == multiset{mid, ul}
    ensures SplitUpperLeftMid(uncommon, possible) == Some((ul, mid, bl))
  {
    TwoOf(uncommon, mid, bl);
    TwoOf(possible, mid, ul);
    var pos0 := IndexOf(uncommon, possible[0]);
    if possible[0] == mid {
      assert pos0 < 2;
    } else {
      assert pos0 == 2;
      var pos := IndexOf(uncommon, possible[1]);
      assert pos < 2;
    }
  }

  /** `std::accumulate` over a string: the sum of a concatenation. */
  lemma {:induction false} CodeSumAppend(a: string, b: string)
    ensures CodeSum(a + b) == CodeSum(a) + CodeSum(b)
    decreases |b|
  {
    if |b| > 0 {
      var n := |b| - 1;
      assert (a + b)[..|a + b| - 1] == a + b[..n];
      assert (a + b)[|a + b| - 1] == b[n];
      CodeSumAppend(a, b[..n]);
    } else {
      assert a + b == a;
    }
  }

  /** The sum of the codes does not depend on the order of the characters. */
  lemma {:induction false} CodeSumPerm(s: string, t: string)
    requires multiset(s) == multiset(t)
    ensures CodeSum(s) == CodeSum(t)
    decreases |s|
  {
    assert |s| == |multiset(s)| == |t|;
    if |s| > 0 {
      var n := |s| - 1;
      var x := s[n];
      assert x in multiset(t);
      var i :| 0 <= i < |t| && t[i] == x;
      var t' := t[..i] + t[i + 1..];
      assert t == t[..i] + [x] + t[i + 1..];
      assert multiset(t) == multiset(t[..i]) + multiset{x} + multiset(t[i + 1..]);
      assert multiset(t') == multiset(t[..i]) + multiset(t[i + 1..]);
      CodeSumAppend(t[..i], [x]);
      CodeSumAppend(t[..i] + [x], t[i + 1..]);
      CodeSumAppend(t[..i], t[i + 1..]);
      assert CodeSum([x]) == Code(x) by {
        assert [x][..0] == [];
      }
      assert s == s[..n] + [x];
      assert multiset(s) == multiset(s[..n]) + multiset{x};
      forall c
        ensures multiset(s[..n])[c] == multiset(t')[c]
      {
        assert multiset(s)[c] == multiset(t)[c];
      }
      assert multiset(s[..n]) == multiset(t');
      CodeSumPerm(s[..n], t');
    }
  }

  /** Seven characters add up one by one. */
  lemma CodeSumSeven(s: string)
    requires |s| == 7
    ensures CodeSum(s) == Code(s[0]) + Code(s[1]) + Code(s[2]) + Code(s[3]) + Code(s[4]) + Code(s[5]) + Code(s[6])
  {
    var p1, p2, p3, p4, p5, p6 := s[..1], s[..2], s[..3], s[..4], s[..5], s[..6];
    assert p1[..0] == [] && p2[..1] == p1 && p3[..2] == p2 && p4[..3] == p3 && p5[..4] == p4 && p6[..5] == p5 && s[..6] == p6;
    assert CodeSum(p1) == Code(s[0]);
    assert CodeSum(p2) == Code(s[0]) + Code(s[1]);
    assert CodeSum(p3) == Code(s[0]) + Code(s[1]) + Code(s[2]);
    assert CodeSum(p4) == Code(s[0]) + Code(s[1]) + Code(s[2]) + Code(s[3]);
    assert CodeSum(p5) == Code(s[0]) + Code(s[1]) + Code(s[2]) + Code(s[3]) + Code(s[4]);
    assert CodeSum(p6) == Code(s[0]) + Code(s[1]) + Code(s[2]) + Code(s[3]) + Code(s[4]) + Code(s[5]);
  }

  /**
   * The bottom wire: the codes of eight less the six wires already found
   * leave the code of the last one, and it fits in a `char`.
   */
  lemma BottomWire(eight: string, w: string)
    requires Wiring(w) && Draws(eight, w, 8)
    ensures ByteChar(CodeSum(eight) - (Code(w[6]) + Code(w[4]) + Code(w[5]) + Code(w[1]) + Code(w[3]) + Code(w[2]))) == w[0]
  {
    hide Encode, Lit, CodeSum;
    Encodings(w);
    var e := Encode(w, 8);
    CodeSumPerm(eight, e);
    CodeSumSeven(e);
    assert e[0] == w[6] && e[1] == w[5] && e[2] == w[4] && e[3] == w[3] && e[4] == w[2] && e[5] == w[1] && e[6] == w[0];
    assert w[0] as int < 256;
  }

  // ---------------------------------------------------------------------
  // The deduction

  /** The sizes that name a digit. */
  lemma UniqueSizes()
    ensures |Lit(1)| == 2 && |Lit(7)| == 3 && |Lit(4)| == 4 && |Lit(8)| == 7
    ensures forall d :: 0 <= d < 10 && |Lit(d)| == 2 ==> d == 1
    ensures forall d :: 0 <= d < 10 && |Lit(d)| == 3 ==> d == 7
    ensures forall d :: 0 <= d < 10 && |Lit(d)| == 4 ==> d == 4
    ensures forall d :: 0 <= d < 10 && |Lit(d)| == 7 ==> d == 8
  {
  }

  /**
   * The steps of `MakeTemplateFromSignals` put together: when each step
   * finds the wire it looks for, the template is the wiring.
   */
  lemma TemplateSteps(signals: seq<string>, w: string, one: string, seven: string, four: string, eight: string, found: seq<string>, k: nat)
    requires |signals| == 10 && |w| == 7
    requires FindLength(signals, 2) < 10 && signals[FindLength(signals, 2)] == one
    requires FindLength(signals, 3) < 10 && signals[FindLength(signals, 3)] == seven
    requires FindLength(signals, 4) < 10 && signals[FindLength(signals, 4)] == four
    requires FindLength(signals, 7) < 10 && signals[FindLength(signals, 7)] == eight
    requires |one| == 2 && GetUnCommonElements(one, seven) == [w[6]]
    requires OfLength(signals, 6) == found && |found| == 3
    requires FindLacking(found, one[0], one[1]) == k < 3
    requires |Erase(found, k)| == 2
    requires GetUpperBottomRightFromSixAndOne(one, found[k]) == (w[4], w[1])
    requires var rest := Erase(found, k);
      SplitUpperLeftMid(GetUnCommonElements(rest[0], rest[1]), GetUnCommonElements(one, four)) == Some((w[5], w[3], w[2]))
    requires ByteChar(CodeSum(eight) - (Code(w[6]) + Code(w[4]) + Code(w[5]) + Code(w[1]) + Code(w[3]) + Code(w[2]))) == w[0]
    ensures MakeTemplateFromSignals(signals) == Some(TemplateOf(w))
  {
    hide GetUnCommonElements, FindLength, OfLength, FindLacking, SplitUpperLeftMid, CodeSum, Code, ByteChar, GetUpperBottomRightFromSixAndOne;
    var found := OfLength(signals, 6);
    assert found + seq(0, _ => "") == found;
  }

  /** One, seven, four and eight are the first patterns of their sizes. */
  lemma SizedPatterns(signals: seq<string>, w: string, order: seq<nat>)
    requires Display(signals, w, order)
    ensures FindLength(signals, 2) < 10 && Draws(signals[FindLength(signals, 2)], w, 1)
    ensures FindLength(signals, 3) < 10 && Draws(signals[FindLength(signals, 3)], w, 7)
    ensures FindLength(signals, 4) < 10 && Draws(signals[FindLength(signals, 4)], w, 4)
    ensures FindLength(signals, 7) < 10 && Draws(signals[FindLength(signals, 7)], w, 8)
  {
    hide Encode, Lit, Draws, Wiring, FindLength;
    UniqueSizes();
    FindsDigit(signals, w, order, 1, 2);
    FindsDigit(signals, w, order, 7, 3);
    FindsDigit(signals, w, order, 4, 4);
    FindsDigit(signals, w, order, 8, 7);
  }

  /** Of the six-segment patterns, `find_if` stops at six, and zero and nine are left. */
  lemma SixIndex(signals: seq<string>, w: string, order: seq<nat>, one: string) returns (k: nat)
    requires Display(signals, w, order) && Draws(one, w, 1)
    ensures |one| == 2 && |OfLength(signals, 6)| == 3
    ensures FindLacking(OfLength(signals, 6), one[0], one[1]) == k < 3
    ensures Draws(OfLength(signals, 6)[k], w, 6)
    ensures var found := OfLength(signals, 6);
      var rest := Erase(found, k);
      && |rest| == 2
      && ((Draws(rest[0], w, 0) && Draws(rest[1], w, 9)) || (Draws(rest[0], w, 9) && Draws(rest[1], w, 0)))
  {
    assert Wiring(w) && |order| == 10 && forall i :: 0 <= i < |order| ==> order[i] < 10;
    hide Erase, Display, Distinct, Encode, Lit, Draws, Wiring, OfLength, FindLacking, DigitsOfLength;
    SixesDrawn(signals, w, order);
    var found := OfLength(signals, 6);
    var dl := DigitsOfLength(order, 6);
    SixFound(found, dl, w, one);
    k := FindLacking(found, one[0], one[1]);
    ZeroAndNine(found, dl, w, k);
  }

  /**
   * The six-segment patterns: six gives the two right-hand wires, and zero
   * and nine the upper left, middle and bottom left ones.
   */
  lemma SixSteps(signals: seq<string>, w: string, order: seq<nat>, one: string, four: string) returns (k: nat)
    requires Display(signals, w, order) && Draws(one, w, 1) && Draws(four, w, 4)
    ensures |one| == 2 && |OfLength(signals, 6)| == 3
    ensures FindLacking(OfLength(signals, 6), one[0], one[1]) == k < 3
    ensures var found := OfLength(signals, 6);
      && |Erase(found, k)| == 2
      && GetUpperBottomRightFromSixAndOne(one, found[k]) == (w[4], w[1])
    ensures var found := OfLength(signals, 6);
      var rest := Erase(found, k);
      SplitUpperLeftMid(GetUnCommonElements(rest[0], rest[1]), GetUnCommonElements(one, four)) == Some((w[5], w[3], w[2]))
  {
    assert Wiring(w) && w[2] != w[3] && w[3] != w[5] && w[2] != w[5];
    hide Erase, Display, Distinct, Encode, Lit, Draws, Wiring, GetUnCommonElements, OfLength, FindLacking, SplitUpperLeftMid, DigitsOfLength, GetUpperBottomRightFromSixAndOne;
    k := SixIndex(signals, w, order, one);
    var found := OfLength(signals, 6);
    var rest := Erase(found, k);
    OneFourUncommon(one, four, w);
    ZeroNineUncommon(rest[0], rest[1], w);
    SplitKnown(GetUnCommonElements(rest[0], rest[1]), GetUnCommonElements(one, four), w[5], w[3], w[2]);
    SixRightWires(one, found[k], w);
  }

  /** `MakeTemplateFromSignals` recovers the wiring of every display. */
  lemma Deduction(signals: seq<string>, w: string, order: seq<nat>)
    requires Display(signals, w, order)
    ensures MakeTemplateFromSignals(signals) == Some(TemplateOf(w))
  {
    assert |w| == 7;
    hide Erase, Encode, Lit, Draws, Wiring, GetUnCommonElements, FindLength, OfLength, FindLacking, SplitUpperLeftMid, CodeSum, Code, ByteChar, DigitsOfLength, MakeTemplateFromSignals, GetUpperBottomRightFromSixAndOne;
    SizedPatterns(signals, w, order);
    var one, seven, four, eight := signals[FindLength(signals, 2)], signals[FindLength(signals, 3)], signals[FindLength(signals, 4)], signals[FindLength(signals, 7)];
    OneSevenUncommon(one, seven, w);
    var k := SixSteps(signals, w, order, one, four);
    BottomWire(eight, w);
    TemplateSteps(signals, w, one, seven, four, eight, OfLength(signals, 6), k);
  }

  // ---------------------------------------------------------------------
  // Reading the digits back

  /** The `bitset<7>` value of the segments a digit lights. */
  function LitMask(k: nat): nat
    requires k < 10
  {
    (if 6 in Lit(k) then 64 else 0) + (if 5 in Lit(k) then 32 else 0) + (if 4 in Lit(k) then 16 else 0)
    + (if 3 in Lit(k) then 8 else 0) + (if 2 in Lit(k) then 4 else 0) + (if 1 in Lit(k) then 2 else 0)
    + (if 0 in Lit(k) then 1 else 0)
  }

  /** Under the right template, a pattern sets exactly the bits of the segments its digit lights. */
  lemma MaskOfDrawn(s: string, w: string, k: nat)
    requires Wiring(w) && k < 10 && Draws(s, w, k)
    ensures Mask(TemplateOf(w), s) == LitMask(k)
  {
    WireIn(s, w, k, 6);
    WireIn(s, w, k, 5);
    WireIn(s, w, k, 4);
    WireIn(s, w, k, 3);
    WireIn(s, w, k, 2);
    WireIn(s, w, k, 1);
    WireIn(s, w, k, 0);
  }

  /** The bitsets of the digits `template_map` holds. */
  lemma LitMasks()
    ensures LitMask(0) == 0x77 && LitMask(2) == 0x5D && LitMask(3) == 0x5B
    ensures LitMask(5) == 0x6B && LitMask(6) == 0x6F && LitMask(9) == 0x7B
  {
    LitMaskIs(0, 0x77);
    LitMaskIs(2, 0x5D);
    LitMaskIs(3, 0x5B);
    LitMaskIs(5, 0x6B);
    LitMaskIs(6, 0x6F);
    LitMaskIs(9, 0x7B);
  }

  lemma LitMaskIs(k: nat, m: nat)
    requires (k, m) in {(0, 0x77), (2, 0x5D), (3, 0x5B), (5, 0x6B), (6, 0x6F), (9, 0x7B)}
    ensures LitMask(k) == m
  {
  }

  /** `template_map` holds every digit whose size does not name it, under its segments. */
  lemma TemplateMapLit(k: nat)
    requires k < 10 && !Special(|Lit(k)|)
    ensures TemplateMapAt(LitMask(k)) == Some(DigitChar(k))
  {
    LitMasks();
    UniqueSizes();
    hide LitMask, Lit;
    assert k != 1 && k != 4 && k != 7 && k != 8;
  }

  /** `CalculateDigit` reads a pattern drawn through the wiring as its digit. */
  lemma DecodeDigit(s: string, w: string, k: nat)
    requires Wiring(w) && k < 10 && Draws(s, w, k)
    ensures CalculateDigit(TemplateOf(w), s) == Some(DigitChar(k))
  {
    DrawsLength(s, w, k);
    if !Special(|s|) {
      MaskOfDrawn(s, w, k);
      TemplateMapLit(k);
    }
  }

  /** Every pattern drawn through the wiring is read as its digit. */
  lemma DecodedDigits(w: string, encoded: seq<string>, ks: seq<nat>)
    requires Wiring(w) && |ks| == |encoded|
    requires forall j :: 0 <= j < |ks| ==> ks[j] < 10 && Draws(encoded[j], w, ks[j])
    ensures DecodeAll(TemplateOf(w), encoded).Some?
    ensures forall j :: 0 <= j < |ks| ==> DecodeAll(TemplateOf(w), encoded).value[j] == DigitChar(ks[j])
  {
    var t := TemplateOf(w);
    forall j | 0 <= j < |ks|
      ensures CalculateDigit(t, encoded[j]) == Some(DigitChar(ks[j]))
    {
      DecodeDigit(encoded[j], w, ks[j]);
    }
  }

  /** The four digits of a line are read as the number they show. */
  lemma DecodeNumber(w: string, encoded: seq<string>, ks: seq<nat>)
    requires Wiring(w) && |encoded| == 4 && |ks| == 4
    requires forall j :: 0 <= j < 4 ==> ks[j] < 10 && Draws(encoded[j], w, ks[j])
    ensures DigitsToInt(TemplateOf(w), encoded) == Some(1000 * ks[0] + 100 * ks[1] + 10 * ks[2] + ks[3])
  {
    assert |w| == 7;
    hide *;
    DecodedDigits(w, encoded, ks);
    ValueOfDecoded(TemplateOf(w), encoded, ks);
  }

  /** Patterns decoded to the digit characters of `ks` make the number the digits show. */
  lemma ValueOfDecoded(t: SegmentTemplate, encoded: seq<string>, ks: seq<nat>)
    requires |encoded| == 4 && |ks| == 4 && DecodeAll(t, encoded).Some?
    requires forall j :: 0 <= j < 4 ==> ks[j] < 10 && DecodeAll(t, encoded).value[j] == DigitChar(ks[j])
    ensures DigitsToInt(t, encoded) == Some(1000 * ks[0] + 100 * ks[1] + 10 * ks[2] + ks[3])
  {
    hide CalculateDigit;
    var d := DecodeAll(t, encoded).value;
    assert DigitsToInt(t, encoded) == Some(DigitsValue(d));
    hide DigitsToInt, DecodeAll;
    ShownValue(d, ks);
  }

  /** Four digit characters showing the digits `ks` have the value the digits make. */
  lemma ShownValue(d: string, ks: seq<nat>)
    requires |d| == 4 && |ks| == 4
    requires forall j :: 0 <= j < 4 ==> ks[j] < 10 && d[j] == DigitChar(ks[j])
    ensures AllDigits(d) && DigitsValue(d) == 1000 * ks[0] + 100 * ks[1] + 10 * ks[2] + ks[3]
  {
    assert forall j :: 0 <= j < 4 ==> IsDigit(d[j]) && DigitValue(d[j]) == ks[j];
    FourDigits(d);
  }

  // ---------------------------------------------------------------------
  // Whole lines

  /**
   * One line of a puzzle input: the ten patterns, the four digits shown,
   * the wiring that draws them, the order of the ten patterns and the
   * digits the four patterns stand for.
   */
  datatype Entry = Entry(signals: seq<string>, digits: seq<string>, w: string, order: seq<nat>, ks: seq<nat>)

  /** The entry is a display whose four shown digits are drawn through its wiring, by wires that are not blanks. */
  predicate ValidEntry(e: Entry)
  {
    && Display(e.signals, e.w, e.order)
    && (forall i :: 0 <= i < 7 ==> !IsSpace(e.w[i]))
    && ShowsDigits(e)
  }

  /** The four shown patterns draw the digits `ks` through the wiring. */
  predicate ShowsDigits(e: Entry)
    requires |e.w| == 7
  {
    && |e.digits| == 4 && |e.ks| == 4
    && forall j :: 0 <= j < 4 ==> e.ks[j] < 10 && Draws(e.digits[j], e.w, e.ks[j])
  }

  /** The number the four digits of an entry show. */
  function EntryValue(e: Entry): nat
    requires |e.ks| == 4
  {
    1000 * e.ks[0] + 100 * e.ks[1] + 10 * e.ks[2] + e.ks[3]
  }

  /** The text of an entry: the patterns, a bar and the digits, one blank apart. */
  function EntryLine(e: Entry): string
  {
    Join(e.signals + ["|"] + e.digits, ' ')
  }

  /** The lines of a sequence of entries. */
  function EntryLines(es: seq<Entry>): (r: seq<string>)
  {
    seq(|es|, i requires 0 <= i < |es| => EntryLine(es[i]))
  }

  /** The numbers the entries show. */
  function EntryValues(es: seq<Entry>): (r: seq<int>)
    requires forall i :: 0 <= i < |es| ==> ValidEntry(es[i])
  {
    seq(|es|, i requires 0 <= i < |es| && ValidEntry(es[i]) => EntryValue(es[i]))
  }

  /** A pattern drawn by wires that are not blanks is read as one word. */
  lemma DrawnWord(s: string, w: string, k: nat)
    requires Wiring(w) && k < 10 && Draws(s, w, k)
    requires forall i :: 0 <= i < 7 ==> !IsSpace(w[i])
    ensures Word(s)
  {
    DrawsLength(s, w, k);
    assert |Lit(k)| > 0;
    forall j | 0 <= j < |s|
      ensures !IsSpace(s[j])
    {
      var e := Encode(w, k);
      assert s[j] in multiset(e);
      var m :| 0 <= m < |e| && e[m] == s[j];
      assert e[m] == w[Lit(k)[m]];
    }
  }

  /** Every pattern of an entry is one word of its line. */
  lemma EntryWords(e: Entry)
    requires ValidEntry(e)
    ensures forall k :: 0 <= k < 10 ==> Word(e.signals[k])
    ensures forall k :: 0 <= k < 4 ==> Word(e.digits[k])
  {
    forall k | 0 <= k < 10
      ensures Word(e.signals[k])
    {
      DrawnWord(e.signals[k], e.w, e.order[k]);
    }
    forall k | 0 <= k < 4
      ensures Word(e.digits[k])
    {
      DrawnWord(e.digits[k], e.w, e.ks[k]);
    }
  }

  /** The line of an entry is read back into its patterns and digits. */
  lemma EntryRead(e: Entry)
    requires ValidEntry(e)
    ensures FromString(EntryLine(e)) == Some(SignalsAndDigits(e.signals, e.digits))
  {
    EntryWords(e);
    assert |e.signals| == 10 && |e.digits| == 4 && Word("|");
    hide ValidEntry, Display, Draws, Wiring, Encode, Lit;
    FromStringShow(e.signals, "|", e.digits);
  }

  /** The four digits of an entry are read as the number they show. */
  lemma EntryDigits(e: Entry)
    requires Wiring(e.w) && ShowsDigits(e)
    ensures DigitsToInt(TemplateOf(e.w), e.digits) == Some(EntryValue(e))
  {
    hide CalculateDigit, Mask, TemplateMapAt, DecodeAll, Encode, Lit, TemplateOf;
    DecodeNumber(e.w, e.digits, e.ks);
  }

  /** The loop body reads the line of an entry as the number it shows. */
  lemma EntryNumber(e: Entry)
    requires ValidEntry(e)
    ensures LineNumber(EntryLine(e)) == Some(EntryValue(e))
  {
    assert Display(e.signals, e.w, e.order) && ShowsDigits(e);
    EntryRead(e);
    EntryDigits(e);
    hide FromString, MakeTemplateFromSignals, DigitsToInt, EntryLine, EntryValue, ValidEntry, Display, TemplateOf;
    Deduction(e.signals, e.w, e.order);
  }

  /** When every line shows a number, `TotalSum` is the sum of those numbers. */
  lemma {:induction false} TotalSumOfNumbers(lines: seq<string>, values: seq<int>)
    requires |lines| == |values|
    requires forall i :: 0 <= i < |lines| ==> LineNumber(lines[i]) == Some(values[i])
    ensures TotalSum(lines) == Some(Sum(values))
    decreases |lines|
  {
    hide LineNumber;
    if |lines| > 0 {
      TotalSumOfNumbers(lines[..|lines| - 1], values[..|values| - 1]);
    }
  }

  /** The program prints the sum of the numbers the entries show. */
  lemma LineSum(es: seq<Entry>)
    requires forall i :: 0 <= i < |es| ==> ValidEntry(es[i])
    ensures TotalSum(EntryLines(es)) == Some(Sum(EntryValues(es)))
  {
    var lines, values := EntryLines(es), EntryValues(es);
    forall i | 0 <= i < |es|
      ensures LineNumber(lines[i]) == Some(values[i])
    {
      EntryNumber(es[i]);
    }
    hide LineNumber, EntryLine, EntryValue, ValidEntry;
    TotalSumOfNumbers(lines, values);
  }
}
