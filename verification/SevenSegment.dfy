/**
 * Seven Segment Search (2021, day 8): every line of the input holds the
 * ten digit patterns of one scrambled display, a `|`, and four digits
 * shown on it.  The program deduces which wire drives which segment from
 * the ten patterns, then decodes the four digits into a number and sums
 * the numbers of all lines.
 *
 * Characters are taken by their unsigned code.  `char` is signed under
 * GCC, which orders and adds bytes above 0x7F differently; the puzzle's
 * wires are the letters `a` to `g`.  Every read the program makes past the
 * end of a container, and the exception `unordered_map::at` throws, make
 * the result `None`.
 */
module SevenSegment {

  import opened Common
  import opened Decimal

  // ---------------------------------------------------------------------
  // Reading a line

  /** The end of the run of non-space characters starting at `i`. */
  function WordEnd(s: string, i: nat): (j: nat)
    requires i <= |s|
    ensures i <= j <= |s|
    ensures forall k :: i <= k < j ==> !IsSpace(s[k])
    ensures j < |s| ==> IsSpace(s[j])
    decreases |s| - i
  {
    if i < |s| && !IsSpace(s[i]) then WordEnd(s, i + 1) else i
  }

  /** What `operator>>` reads into a `std::string`: a non-empty run without white space. */
  predicate Word(w: string)
  {
    |w| > 0 && forall k :: 0 <= k < |w| ==> !IsSpace(w[k])
  }

  /** The words an `istream_iterator<string>` yields from a string stream, in order. */
  function Words(s: string): (ws: seq<string>)
    ensures forall k :: 0 <= k < |ws| ==> Word(ws[k])
    decreases |s|
  {
    if |s| == 0 then []
    else if IsSpace(s[0]) then Words(s[1..])
    else
      var j := WordEnd(s, 0);
      [s[..j]] + Words(s[j..])
  }

  /** A word followed by white space or nothing is read whole. */
  lemma WordsCons(w: string, rest: string)
    requires Word(w)
    requires |rest| == 0 || IsSpace(rest[0])
    ensures Words(w + rest) == [w] + Words(rest)
  {
    var s := w + rest;
    assert forall k :: 0 <= k < |w| ==> s[k] == w[k];
    assert |rest| > 0 ==> s[|w|] == rest[0];
    WordEndAt(s, 0, |w|);
    assert s[..|w|] == w && s[|w|..] == rest;
    assert !IsSpace(s[0]);
  }

  lemma {:induction false} WordEndAt(s: string, i: nat, n: nat)
    requires i <= n <= |s|
    requires forall k :: i <= k < n ==> !IsSpace(s[k])
    requires n < |s| ==> IsSpace(s[n])
    ensures WordEnd(s, i) == n
    decreases n - i
  {
    if i < n {
      WordEndAt(s, i + 1, n);
    }
  }

  /** Words written with single spaces between them are read back as written. */
  lemma {:induction false} WordsJoin(ws: seq<string>)
    requires forall k :: 0 <= k < |ws| ==> Word(ws[k])
    ensures Words(Join(ws, ' ')) == ws
    decreases |ws|
  {
    if |ws| == 1 {
      WordsCons(ws[0], []);
      assert ws[0] + [] == ws[0];
    } else if |ws| > 1 {
      var rest := Join(ws[1..], ' ');
      JoinCons(ws[0], ws[1..], ' ');
      assert [ws[0]] + ws[1..] == ws;
      WordsCons(ws[0], [' '] + rest);
      assert ws[0] + [' '] + rest == ws[0] + ([' '] + rest);
      assert ([' '] + rest)[1..] == rest;
      WordsJoin(ws[1..]);
    }
  }

  datatype SignalsAndDigits = SignalsAndDigits(uniqueSignals: seq<string>, digits: seq<string>)

  /**
   * `SignalsAndDigits::fromString`: the first ten words are the patterns,
   * the eleventh (the `|`) is skipped, the next four are the digits and
   * the rest of the line is ignored.  A line with fewer words makes the
   * iterators read past the end.
   */
  function FromString(s: string): (r: Option<SignalsAndDigits>)
    ensures r.Some? <==> |Words(s)| >= 15
    ensures r.Some? ==> |r.value.uniqueSignals| == 10 && |r.value.digits| == 4
  {
    var ws := Words(s);
    if |ws| < 15 then None else Some(SignalsAndDigits(ws[..10], ws[11..15]))
  }

  /** A line written as the puzzle writes it is read back into its patterns and digits. */
  lemma FromStringShow(signals: seq<string>, bar: string, digits: seq<string>)
    requires |signals| == 10 && |digits| == 4 && Word(bar)
    requires forall k :: 0 <= k < 10 ==> Word(signals[k])
    requires forall k :: 0 <= k < 4 ==> Word(digits[k])
    ensures FromString(Join(signals + [bar] + digits, ' ')) == Some(SignalsAndDigits(signals, digits))
  {
    var ws := signals + [bar] + digits;
    WordsJoin(ws);
    assert ws[..10] == signals && ws[11..15] == digits;
  }

  // ---------------------------------------------------------------------
  // Sorting and the symmetric difference

  predicate SortedChars(s: string)
  {
    forall i, j :: 0 <= i < j < |s| ==> s[i] <= s[j]
  }

  function InsertChar(x: char, s: string): (r: string)
    requires SortedChars(s)
    ensures SortedChars(r)
    ensures multiset(r) == multiset(s) + multiset{x}
  {
    if |s| == 0 then [x]
    else if x <= s[0] then [x] + s
    else
      var t := InsertChar(x, s[1..]);
      InsertCharStep(x, s, t);
      [s[0]] + t
  }

  lemma InsertCharStep(x: char, s: string, t: string)
    requires SortedChars(s) && |s| > 0 && s[0] < x
    requires SortedChars(t) && multiset(t) == multiset(s[1..]) + multiset{x}
    ensures SortedChars([s[0]] + t)
    ensures multiset([s[0]] + t) == multiset(s) + multiset{x}
  {
    assert s == [s[0]] + s[1..];
    forall k | 0 <= k < |t|
      ensures s[0] <= t[k]
    {
      assert t[k] in multiset(t);
      if t[k] != x {
        assert t[k] in multiset(s[1..]);
      }
    }
  }

  /** `std::sort` on a string: its characters in ascending order. */
  function SortChars(s: string): (r: string)
    ensures SortedChars(r)
    ensures multiset(r) == multiset(s)
  {
    if |s| == 0 then []
    else
      assert s == [s[0]] + s[1..];
      InsertChar(s[0], SortChars(s[1..]))
  }

  /** How many more times one string holds `c` than the other, either way round. */
  function Excess(a: string, b: string, c: char): nat
  {
    Abs((multiset(a)[c] as int) - (multiset(b)[c] as int))
  }

  /**
   * `std::set_symmetric_difference` of two ascending ranges: the merge
   * that keeps what only one side holds.
   */
  function SymmetricDifference(a: string, b: string): (r: string)
    requires SortedChars(a) && SortedChars(b)
    ensures SortedChars(r)
    ensures forall k :: 0 <= k < |r| ==> r[k] in a || r[k] in b
    decreases |a| + |b|
  {
    if |a| == 0 then b
    else if |b| == 0 then a
    else if a[0] < b[0] then
      var t := SymmetricDifference(a[1..], b);
      assert forall k :: 0 <= k < |t| ==> a[0] <= t[k] by {
        forall k | 0 <= k < |t|
          ensures a[0] <= t[k]
        {
          if t[k] in b {
            var i :| 0 <= i < |b| && b[i] == t[k];
          } else {
            var i :| 0 <= i < |a[1..]| && a[1..][i] == t[k];
            assert a[i + 1] == t[k];
          }
        }
      }
      [a[0]] + t
    else if b[0] < a[0] then
      var t := SymmetricDifference(a, b[1..]);
      assert forall k :: 0 <= k < |t| ==> b[0] <= t[k] by {
        forall k | 0 <= k < |t|
          ensures b[0] <= t[k]
        {
          if t[k] in a {
            var i :| 0 <= i < |a| && a[i] == t[k];
          } else {
            var i :| 0 <= i < |b[1..]| && b[1..][i] == t[k];
            assert b[i + 1] == t[k];
          }
        }
      }
      [b[0]] + t
    else
      var t := SymmetricDifference(a[1..], b[1..]);
      assert forall k :: 0 <= k < |t| ==> t[k] in a || t[k] in b by {
        forall k | 0 <= k < |t|
          ensures t[k] in a || t[k] in b
        {
          assert t[k] in a[1..] || t[k] in b[1..];
        }
      }
      t
  }

  /** The merge keeps each character as often as one side holds it more often than the other. */
  lemma {:induction false} SymmetricDifferenceCounts(a: string, b: string)
    requires SortedChars(a) && SortedChars(b)
    ensures forall c :: multiset(SymmetricDifference(a, b))[c] == Excess(a, b, c)
    decreases |a| + |b|
  {
    if |a| > 0 && |b| > 0 {
      if a[0] < b[0] {
        SymmetricDifferenceCounts(a[1..], b);
        CountsAfterHead(a, b, SymmetricDifference(a[1..], b));
      } else if b[0] < a[0] {
        SymmetricDifferenceCounts(a, b[1..]);
        var t := SymmetricDifference(a, b[1..]);
        assert forall c :: Excess(a, b[1..], c) == Excess(b[1..], a, c);
        CountsAfterHead(b, a, t);
        assert forall c :: Excess(b, a, c) == Excess(a, b, c);
      } else {
        SymmetricDifferenceCounts(a[1..], b[1..]);
        CountsEqualHeads(a, b, SymmetricDifference(a[1..], b[1..]));
      }
    }
  }

  /** The smaller head is held by one side only and goes out in front. */
  lemma CountsAfterHead(a: string, b: string, t: string)
    requires SortedChars(b) && |a| > 0 && |b| > 0 && a[0] < b[0]
    requires forall c :: multiset(t)[c] == Excess(a[1..], b, c)
    ensures forall c :: multiset([a[0]] + t)[c] == Excess(a, b, c)
  {
    assert a == [a[0]] + a[1..];
    assert multiset(a) == multiset{a[0]} + multiset(a[1..]);
    assert multiset([a[0]] + t) == multiset{a[0]} + multiset(t);
    assert forall i :: 0 <= i < |b| ==> b[0] <= b[i];
    assert a[0] !in b;
  }

  /** Equal heads cancel. */
  lemma CountsEqualHeads(a: string, b: string, t: string)
    requires |a| > 0 && |b| > 0 && a[0] == b[0]
    requires forall c :: multiset(t)[c] == Excess(a[1..], b[1..], c)
    ensures forall c :: multiset(t)[c] == Excess(a, b, c)
  {
    assert a == [a[0]] + a[1..] && b == [b[0]] + b[1..];
    assert multiset(a) == multiset{a[0]} + multiset(a[1..]);
    assert multiset(b) == multiset{a[0]} + multiset(b[1..]);
  }

  lemma {:induction false} SymmetricDifferenceSwap(a: string, b: string)
    requires SortedChars(a) && SortedChars(b)
    ensures SymmetricDifference(a, b) == SymmetricDifference(b, a)
    decreases |a| + |b|
  {
    if |a| > 0 && |b| > 0 {
      if a[0] < b[0] {
        SymmetricDifferenceSwap(a[1..], b);
      } else if b[0] < a[0] {
        SymmetricDifferenceSwap(a, b[1..]);
      } else {
        SymmetricDifferenceSwap(a[1..], b[1..]);
      }
    }
  }

  /** `GetUnCommonElements`: the characters of one string not matched in the other, ascending. */
  function GetUnCommonElements(s1: string, s2: string): (r: string)
    ensures SortedChars(r)
    ensures forall c :: multiset(r)[c] == Excess(s1, s2, c)
  {
    SymmetricDifferenceCounts(SortChars(s1), SortChars(s2));
    SymmetricDifference(SortChars(s1), SortChars(s2))
  }

  /** The uncommon elements do not depend on the order of the two strings. */
  lemma UnCommonSymmetric(s1: string, s2: string)
    ensures GetUnCommonElements(s1, s2) == GetUnCommonElements(s2, s1)
  {
    SymmetricDifferenceSwap(SortChars(s1), SortChars(s2));
  }

  /**
   * Two strings made of a common part and two extra parts with nothing in
   * common: the uncommon elements are the two extra parts together.
   */
  lemma UnCommonOfExtensions(a: string, b: string, common: multiset<char>, ea: multiset<char>, eb: multiset<char>)
    requires multiset(a) == common + ea && multiset(b) == common + eb
    requires ea * eb == multiset{}
    ensures multiset(GetUnCommonElements(a, b)) == ea + eb
  {
    var r := GetUnCommonElements(a, b);
    forall c
      ensures multiset(r)[c] == (ea + eb)[c]
    {
      assert (ea * eb)[c] == 0;
    }
  }

  /** A string is as long as its multiset is large. */
  lemma SingleOf(r: string, x: char)
    requires multiset(r) == multiset{x}
    ensures r == [x]
  {
    assert |r| == |multiset(r)| == 1;
    assert r[0] in multiset(r);
  }

  /**
   * The upper segment: when `seven` holds the wires of `one` and one wire
   * more, the uncommon elements are exactly that wire.
   */
  lemma UpperSegment(one: string, seven: string, u: char)
    requires multiset(seven) == multiset(one) + multiset{u}
    ensures GetUnCommonElements(one, seven) == [u]
  {
    UnCommonOfExtensions(one, seven, multiset(one), multiset{}, multiset{u});
    SingleOf(GetUnCommonElements(one, seven), u);
  }

  // ---------------------------------------------------------------------
  // The right-hand segments

  /** `std::string::operator[]`: the terminating NUL sits just past the end. */
  function CharAt(s: string, i: nat): char
    requires i <= |s|
  {
    if i < |s| then s[i] else '\0'
  }

  /**
   * `GetUpperBottomRightFromSixAndOne`: the two wires of `one`, the one
   * missing from `six` first.
   */
  function GetUpperBottomRightFromSixAndOne(one: string, six: string): (r: (char, char))
    requires |one| >= 1
    ensures multiset{r.0, r.1} == multiset{one[0], CharAt(one, 1)}
    ensures one[0] !in six ==> r.0 == one[0]
  {
    if one[0] !in six then (one[0], CharAt(one, 1)) else (CharAt(one, 1), one[0])
  }

  /**
   * Of the two wires of `one`, when exactly one is missing from `six` (the
   * digit six lacks the upper right segment), that one comes out as the
   * upper right segment and the other as the bottom right.
   */
  lemma UpperRightFromSix(one: string, six: string)
    requires |one| == 2
    requires (one[0] in six) != (one[1] in six)
    ensures GetUpperBottomRightFromSixAndOne(one, six).0 !in six
    ensures GetUpperBottomRightFromSixAndOne(one, six).1 in six
  {
  }

  // ---------------------------------------------------------------------
  // The segment template

  /** Which wire drives each segment. */
  datatype SegmentTemplate = SegmentTemplate(upper: char, upperLt: char, upperRt: char, mid: char, bottomLt: char, bottomRt: char, bottom: char)

  /** The wire of the segment at bit `i` of the program's `bitset<7>`, bit 6 the upper segment down to bit 0 the bottom one. */
  function Seg(t: SegmentTemplate, i: int): char
    requires 0 <= i < 7
  {
    if i == 6 then t.upper
    else if i == 5 then t.upperLt
    else if i == 4 then t.upperRt
    else if i == 3 then t.mid
    else if i == 2 then t.bottomLt
    else if i == 1 then t.bottomRt
    else t.bottom
  }

  /** The first pattern of `n` wires, `find_if` on the size; `|ss|` when there is none. */
  function FindLength(ss: seq<string>, n: nat): (i: nat)
    ensures i <= |ss|
    ensures i < |ss| ==> |ss[i]| == n
    ensures forall j :: 0 <= j < i ==> |ss[j]| != n
    decreases |ss|
  {
    if |ss| == 0 then 0 else if |ss[0]| == n then 0 else 1 + FindLength(ss[1..], n)
  }

  /** The patterns of `n` wires in their order, `copy_if` on the size. */
  function OfLength(ss: seq<string>, n: nat): (r: seq<string>)
    ensures |r| <= |ss|
    ensures forall j :: 0 <= j < |r| ==> |r[j]| == n && r[j] in ss
    decreases |ss|
  {
    if |ss| == 0 then [] else (if |ss[0]| == n then [ss[0]] else []) + OfLength(ss[1..], n)
  }

  /** The first string that does not hold both `x` and `y`; `|ss|` when there is none. */
  function FindLacking(ss: seq<string>, x: char, y: char): (i: nat)
    ensures i <= |ss|
    ensures i < |ss| ==> !(x in ss[i] && y in ss[i])
    ensures forall j :: 0 <= j < i ==> x in ss[j] && y in ss[j]
    decreases |ss|
  {
    if |ss| == 0 then 0 else if !(x in ss[0] && y in ss[0]) then 0 else 1 + FindLacking(ss[1..], x, y)
  }

  /** `vector::erase` of one element. */
  function Erase<T>(s: seq<T>, k: nat): (r: seq<T>)
    requires k < |s|
    ensures |r| == |s| - 1
    ensures forall j :: 0 <= j < |r| ==> r[j] == if j < k then s[j] else s[j + 1]
  {
    s[..k] + s[k + 1..]
  }

  /**
   * The lambda of `MakeTemplateFromSignals` that splits the upper left and
   * middle wires: the candidate found among the wires where zero and nine
   * differ is the middle one, and the other wire where they differ is the
   * bottom left.  Returns (upper left, middle, bottom left).
   */
  function SplitUpperLeftMid(uncommon: string, possible: string): (r: Option<(char, char, char)>)
    ensures r.Some? ==> |possible| >= 2
    ensures r.Some? ==> multiset{r.value.0, r.value.1} == multiset{possible[0], possible[1]}
    ensures r.Some? ==> r.value.1 in uncommon && r.value.2 in uncommon
  {
    if |possible| < 2 then None
    else
      var pos0 := IndexOf(uncommon, possible[0]);
      var mid := if pos0 < |uncommon| then possible[0] else possible[1];
      var ul := if pos0 < |uncommon| then possible[1] else possible[0];
      var pos := if pos0 < |uncommon| then pos0 else IndexOf(uncommon, possible[1]);
      if pos == |uncommon| then None
      else
        var rest := Erase(uncommon, pos);
        if |rest| == 0 then None
        else
          assert rest[0] in uncommon by {
            if pos == 0 {
              assert rest[0] == uncommon[1];
            } else {
              assert rest[0] == uncommon[0];
            }
          }
          Some((ul, mid, rest[0]))
  }

  /** A character's code; `std::accumulate` adds these. */
  function Code(c: char): int
  {
    c as int
  }

  function CodeSum(s: string): int
  {
    if |s| == 0 then 0 else CodeSum(s[..|s| - 1]) + Code(s[|s| - 1])
  }

  /** The conversion of an `int` to `char`: the low byte. */
  function ByteChar(n: int): (c: char)
    ensures c as int == n % 256
  {
    (n % 256) as char
  }

  /**
   * `MakeTemplateFromSignals`: one, seven, four and eight are the patterns
   * of two, three, four and seven wires; six is the six-wire pattern not
   * holding both wires of one; zero and nine are the other two.
   */
  function MakeTemplateFromSignals(signals: seq<string>): Option<SegmentTemplate>
    requires |signals| == 10
  {
    var i1 := FindLength(signals, 2);
    var i7 := FindLength(signals, 3);
    var i4 := FindLength(signals, 4);
    if i1 == 10 || i7 == 10 || i4 == 10 then None
    else
      var one := signals[i1];
      var seven := signals[i7];
      var four := signals[i4];
      var ups := GetUnCommonElements(one, seven);
      if |ups| == 0 then None
      else
        var possible := GetUnCommonElements(one, four);
        var found := OfLength(signals, 6);
        if |found| > 3 then None
        else
          var sixes := found + seq(3 - |found|, _ => "");
          var k := FindLacking(sixes, one[0], one[1]);
          if k == 3 then None
          else
            var rest := Erase(sixes, k);
            var (ur, br) := GetUpperBottomRightFromSixAndOne(one, sixes[k]);
            match SplitUpperLeftMid(GetUnCommonElements(rest[0], rest[1]), possible)
            case None => None
            case Some((ul, mid, bl)) =>
              var i8 := FindLength(signals, 7);
              if i8 == 10 then None
              else
                var bottom := ByteChar(CodeSum(signals[i8]) - (Code(ups[0]) + Code(ur) + Code(ul) + Code(br) + Code(mid) + Code(bl)));
                Some(SegmentTemplate(ups[0], ul, ur, mid, bl, br, bottom))
  }

  // ---------------------------------------------------------------------
  // Decoding digits

  /** Whether a pattern's size alone names its digit. */
  predicate Special(n: nat)
  {
    n == 2 || n == 4 || n == 3 || n == 7
  }

  /** The loop of `CalculateDigit`: the `bitset<7>` of the segments whose wire is lit, as its `to_ulong` value. */
  function Mask(t: SegmentTemplate, ds: string): nat
  {
    (if t.upper in ds then 64 else 0) + (if t.upperLt in ds then 32 else 0) + (if t.upperRt in ds then 16 else 0)
    + (if t.mid in ds then 8 else 0) + (if t.bottomLt in ds then 4 else 0) + (if t.bottomRt in ds then 2 else 0)
    + (if t.bottom in ds then 1 else 0)
  }

  /** The value `bitset<N>` reads from a string of `0` and `1`: the last character is bit 0. */
  function BitsetValue(bits: string): nat
    decreases |bits|
  {
    if |bits| == 0 then 0
    else 2 * BitsetValue(bits[..|bits| - 1]) + (if bits[|bits| - 1] == '1' then 1 else 0)
  }

  function BitOf(c: char): nat
  {
    if c == '1' then 1 else 0
  }

  /** Seven characters read as a `bitset<7>`, weighted from 64 down to 1. */
  lemma BitsetValueSeven(bits: string)
    requires |bits| == 7
    ensures BitsetValue(bits) == 64 * BitOf(bits[0]) + 32 * BitOf(bits[1]) + 16 * BitOf(bits[2]) + 8 * BitOf(bits[3])
                                 + 4 * BitOf(bits[4]) + 2 * BitOf(bits[5]) + BitOf(bits[6])
  {
    var p1, p2, p3, p4, p5, p6 := bits[..1], bits[..2], bits[..3], bits[..4], bits[..5], bits[..6];
    assert p1[..0] == [] && p2[..1] == p1 && p3[..2] == p2 && p4[..3] == p3 && p5[..4] == p4 && p6[..5] == p5 && bits[..6] == p6;
    assert BitsetValue(p1) == BitOf(bits[0]);
    assert BitsetValue(p2) == 2 * BitOf(bits[0]) + BitOf(bits[1]);
    assert BitsetValue(p3) == 4 * BitOf(bits[0]) + 2 * BitOf(bits[1]) + BitOf(bits[2]);
    assert BitsetValue(p4) == 8 * BitOf(bits[0]) + 4 * BitOf(bits[1]) + 2 * BitOf(bits[2]) + BitOf(bits[3]);
    assert BitsetValue(p5) == 16 * BitOf(bits[0]) + 8 * BitOf(bits[1]) + 4 * BitOf(bits[2]) + 2 * BitOf(bits[3]) + BitOf(bits[4]);
  }

  /** `template_map`: the digits other than 1, 4, 7 and 8, keyed by their lit segments. */
  function TemplateMapAt(m: nat): (r: Option<char>)
    ensures r.Some? ==> IsDigit(r.value)
  {
    if m == 0x77 then Some('0')
    else if m == 0x5D then Some('2')
    else if m == 0x5B then Some('3')
    else if m == 0x6B then Some('5')
    else if m == 0x6F then Some('6')
    else if m == 0x7B then Some('9')
    else None
  }

  /** The keys of `template_map` are the bitsets the program spells out, and nothing else is a key. */
  lemma TemplateMapKeys(m: nat)
    ensures TemplateMapAt(m).Some? <==> m in {BitsetValue("1110111"), BitsetValue("1011101"), BitsetValue("1011011"), BitsetValue("1101011"), BitsetValue("1101111"), BitsetValue("1111011")}
    ensures TemplateMapAt(BitsetValue("1110111")) == Some('0') && TemplateMapAt(BitsetValue("1011101")) == Some('2')
    ensures TemplateMapAt(BitsetValue("1011011")) == Some('3') && TemplateMapAt(BitsetValue("1101011")) == Some('5')
    ensures TemplateMapAt(BitsetValue("1101111")) == Some('6') && TemplateMapAt(BitsetValue("1111011")) == Some('9')
  {
    BitsetValueSeven("1110111");
    BitsetValueSeven("1011101");
    BitsetValueSeven("1011011");
    BitsetValueSeven("1101011");
    BitsetValueSeven("1101111");
    BitsetValueSeven("1111011");
    assert BitsetValue("1110111") == 0x77;
    assert BitsetValue("1011101") == 0x5D;
    assert BitsetValue("1011011") == 0x5B;
    assert BitsetValue("1101011") == 0x6B;
    assert BitsetValue("1101111") == 0x6F;
    assert BitsetValue("1111011") == 0x7B;
  }

  /** `CalculateDigit`: the digit a pattern shows under the template; `None` where `unordered_map::at` throws. */
  function CalculateDigit(t: SegmentTemplate, ds: string): (r: Option<char>)
    ensures Special(|ds|) ==> r.Some?
    ensures r.Some? ==> IsDigit(r.value)
  {
    var sz := |ds|;
    if sz == 2 then Some('1')
    else if sz == 4 then Some('4')
    else if sz == 3 then Some('7')
    else if sz == 7 then Some('8')
    else TemplateMapAt(Mask(t, ds))
  }

  /** The digits told apart by size come out the same under every template. */
  lemma CalculateDigitBySize(t1: SegmentTemplate, t2: SegmentTemplate, ds: string)
    requires Special(|ds|)
    ensures CalculateDigit(t1, ds) == CalculateDigit(t2, ds)
    ensures CalculateDigit(t1, ds) == Some(if |ds| == 2 then '1' else if |ds| == 4 then '4' else if |ds| == 3 then '7' else '8')
  {
  }

  /** Otherwise the digit depends only on which wires are lit, not on their order or repeats. */
  lemma CalculateDigitBySet(t: SegmentTemplate, a: string, b: string)
    requires forall c :: c in a <==> c in b
    requires |a| == |b| || (!Special(|a|) && !Special(|b|))
    ensures CalculateDigit(t, a) == CalculateDigit(t, b)
  {
    if !Special(|a|) {
      assert Mask(t, a) == Mask(t, b);
    }
  }

  /** The four digits read as a decimal number by `from_chars`; `None` where a digit throws. */
  function DigitsToInt(t: SegmentTemplate, encoded: seq<string>): (r: Option<int>)
    requires |encoded| == 4
    ensures r.Some? <==> forall k :: 0 <= k < 4 ==> CalculateDigit(t, encoded[k]).Some?
    ensures r.Some? ==> 0 <= r.value <= 9999
  {
    match DecodeAll(t, encoded)
    case None => None
    case Some(s) => FourDigits(s); Some(DigitsValue(s))
  }

  /** The digit characters the patterns show, in order; `None` as soon as one of them throws. */
  function DecodeAll(t: SegmentTemplate, encoded: seq<string>): (r: Option<string>)
    ensures r.Some? <==> forall k :: 0 <= k < |encoded| ==> CalculateDigit(t, encoded[k]).Some?
    ensures r.Some? ==> |r.value| == |encoded| && AllDigits(r.value)
    ensures r.Some? ==> forall k :: 0 <= k < |encoded| ==> Some(r.value[k]) == CalculateDigit(t, encoded[k])
    decreases |encoded|
  {
    if |encoded| == 0 then Some([])
    else
      var last := |encoded| - 1;
      match (DecodeAll(t, encoded[..last]), CalculateDigit(t, encoded[last]))
      case (Some(s), Some(c)) =>
        assert forall k :: 0 <= k < last ==> encoded[..last][k] == encoded[k];
        Some(s + [c])
      case _ =>
        assert forall k :: 0 <= k < last ==> encoded[..last][k] == encoded[k];
        None
  }

  /** Four decimal digits, most significant first. */
  lemma FourDigits(s: string)
    requires |s| == 4 && AllDigits(s)
    ensures DigitsValue(s) == 1000 * DigitValue(s[0]) + 100 * DigitValue(s[1]) + 10 * DigitValue(s[2]) + DigitValue(s[3])
    ensures 0 <= DigitsValue(s) <= 9999
  {
    var s1, s2, s3 := s[..1], s[..2], s[..3];
    assert s1[..0] == [] && s2[..1] == s1 && s3[..2] == s2 && s[..3] == s3;
    assert DigitsValue(s1) == DigitValue(s[0]);
    assert DigitsValue(s2) == 10 * DigitValue(s[0]) + DigitValue(s[1]);
    assert DigitsValue(s3) == 100 * DigitValue(s[0]) + 10 * DigitValue(s[1]) + DigitValue(s[2]);
  }

  /** The body of the loop of `main`: the number one line shows, or `None` when reading it fails. */
  function LineNumber(line: string): (r: Option<int>)
    ensures r.Some? ==> 0 <= r.value <= 9999
  {
    match FromString(line)
    case None => None
    case Some(sd) =>
      match MakeTemplateFromSignals(sd.uniqueSignals)
      case None => None
      case Some(t) => DigitsToInt(t, sd.digits)
  }

  /** The whole program: the sum over the lines of the numbers they show. */
  function TotalSum(lines: seq<string>): Option<int>
    decreases |lines|
  {
    if |lines| == 0 then Some(0)
    else
      match (LineNumber(lines[|lines| - 1]), TotalSum(lines[..|lines| - 1]))
      case (Some(n), Some(s)) => Some(s + n)
      case _ => None
  }
}
