// Advent of Code 2021, day 3: the submarine's diagnostic report is a list of
// equal-width binary numbers. The life support rating is the product of the
// oxygen generator rating and the CO2 scrubber rating, each found by
// repeatedly keeping only the numbers whose bit in the current column is the
// most (respectively least) common one.

module BinaryDiagnostic {
  import opened Common

  type Bits = seq<bool>

  /** The largest value `stoi` returns (a 32-bit `int`). */
  const IntMax: nat := 0x7FFF_FFFF

  // ---------------------------------------------------------------------------
  // Single bit vectors
  // ---------------------------------------------------------------------------

  /** The bits of `vec` at `start`, `start + jump`, `start + 2 * jump`, ... */
  function GetSlice(vec: Bits, start: nat, jump: nat): Bits
    requires jump > 0
    decreases |vec| - start
  {
    if start >= |vec| then [] else [vec[start]] + GetSlice(vec, start + jump, jump)
  }

  /** The slice holds exactly the bits whose positions lie on the progression. */
  lemma {:induction false} SliceMeans(vec: Bits, start: nat, jump: nat)
    requires jump > 0
    ensures var r := GetSlice(vec, start, jump);
      (forall k :: 0 <= k < |r| ==> start + k * jump < |vec| && r[k] == vec[start + k * jump])
      && start + |r| * jump >= |vec|
    decreases |vec| - start
  {
    var r := GetSlice(vec, start, jump);
    if start < |vec| {
      var t := GetSlice(vec, start + jump, jump);
      SliceMeans(vec, start + jump, jump);
      assert r == [vec[start]] + t;
      forall k | 0 <= k < |r|
        ensures start + k * jump < |vec| && r[k] == vec[start + k * jump]
      {
        if k > 0 {
          StepMul(k, jump);
          assert r[k] == t[k - 1];
        }
      }
      StepMul(|r|, jump);
    }
  }

  lemma StepMul(k: int, jump: int)
    ensures (k - 1) * jump + jump == k * jump
  {
  }

  /**
   * The majority bit of `vec`, ties going to one; `None` where the program's
   * map lookup throws because one of the two bit values never occurs.
   */
  function MostCommon(vec: Bits): (r: Option<bool>)
    ensures r.None? <==> false !in vec || true !in vec
  {
    CountBound(vec, false);
    CountBound(vec, true);
    if Count(vec, false) == 0 || Count(vec, true) == 0 then None
    else Some(!(Count(vec, false) > Count(vec, true)))
  }

  /** Every bit is a one or a zero. */
  lemma {:induction false} OnesAndZeros(vec: Bits)
    ensures Count(vec, true) + Count(vec, false) == |vec|
    decreases |vec|
  {
    if |vec| > 0 {
      var front := vec[..|vec| - 1];
      OnesAndZeros(front);
      assert Count(vec, true) == Count(front, true) + (if vec[|vec| - 1] == true then 1 else 0);
      assert Count(vec, false) == Count(front, false) + (if vec[|vec| - 1] == false then 1 else 0);
    }
  }

  /** A one is reported exactly when at least half of the bits are ones. */
  lemma MostCommonMajority(vec: Bits)
    requires MostCommon(vec).Some?
    ensures MostCommon(vec).value <==> 2 * Count(vec, true) >= |vec|
    ensures !MostCommon(vec).value <==> 2 * Count(vec, false) > |vec|
  {
    OnesAndZeros(vec);
  }

  /** The counts of ones and of zeros, accumulated in one pass. */
  method CountDual(vec: Bits) returns (ones: nat, zeros: nat)
    ensures ones == Count(vec, true) && zeros == Count(vec, false)
    ensures ones + zeros == |vec|
  {
    ones, zeros := 0, 0;
    var k := 0;
    while k < |vec|
      invariant 0 <= k <= |vec|
      invariant ones == Count(vec[..k], true) && zeros == Count(vec[..k], false)
    {
      assert vec[..k + 1][..k] == vec[..k];
      if vec[k] {
        ones := ones + 1;
      } else {
        zeros := zeros + 1;
      }
      k := k + 1;
    }
    assert vec[..k] == vec;
    OnesAndZeros(vec);
  }

  // ---------------------------------------------------------------------------
  // Text and numeric values
  // ---------------------------------------------------------------------------

  /** The string of '0' and '1' characters spelling `vec`. */
  function BitStr(vec: Bits): (s: string)
    ensures |s| == |vec|
  {
    seq(|vec|, k requires 0 <= k < |vec| => if vec[k] then '1' else '0')
  }

  predicate BinaryDigits(s: string)
  {
    forall k :: 0 <= k < |s| ==> s[k] == '0' || s[k] == '1'
  }

  /** Reading a line: every character other than '0' becomes a one bit. */
  function ReadBits(s: string): (vec: Bits)
    ensures |vec| == |s|
  {
    seq(|s|, k requires 0 <= k < |s| => s[k] != '0')
  }

  /** Spelling a bit vector and reading it back gives the same bits. */
  lemma ReadBitStr(vec: Bits)
    ensures BinaryDigits(BitStr(vec))
    ensures ReadBits(BitStr(vec)) == vec
  {
  }

  /** A line of binary digits is spelled again by the bits read from it. */
  lemma BitStrRead(s: string)
    requires BinaryDigits(s)
    ensures BitStr(ReadBits(s)) == s
  {
  }

  /** The value of a string of binary digits, most significant digit first. */
  function BinaryDigitsValue(s: string): nat
    requires BinaryDigits(s)
  {
    if |s| == 0 then 0 else 2 * BinaryDigitsValue(s[..|s| - 1]) + (if s[|s| - 1] == '1' then 1 else 0)
  }

  /**
   * `stoi(s, nullptr, 2)` on a string of binary digits: it throws on an
   * empty string and on a value that does not fit an `int`.
   */
  function StoiBase2(s: string): Option<int>
    requires BinaryDigits(s)
  {
    if |s| == 0 || BinaryDigitsValue(s) > IntMax then None else Some(BinaryDigitsValue(s))
  }

  /** The value of `vec` read big-endian. */
  function BinaryValue(vec: Bits): nat
  {
    if |vec| == 0 then 0 else 2 * BinaryValue(vec[..|vec| - 1]) + (if vec[|vec| - 1] then 1 else 0)
  }

  /** The `w` low bits of `n`, most significant first. */
  function ToBits(n: nat, w: nat): (vec: Bits)
    ensures |vec| == w
  {
    if w == 0 then [] else ToBits(n / 2, w - 1) + [n % 2 == 1]
  }

  /** A `w`-bit vector is below `2^w`. */
  lemma {:induction false} BinaryValueBound(vec: Bits)
    ensures BinaryValue(vec) < Pow(2, |vec|)
    decreases |vec|
  {
    if |vec| > 0 {
      BinaryValueBound(vec[..|vec| - 1]);
    }
  }

  /** Reading the bits of a value gives them back. */
  lemma {:induction false} BitsOfValue(vec: Bits)
    ensures ToBits(BinaryValue(vec), |vec|) == vec
    decreases |vec|
  {
    if |vec| > 0 {
      var u := vec[..|vec| - 1];
      BitsOfValue(u);
      var n := BinaryValue(vec);
      var b := if vec[|vec| - 1] then 1 else 0;
      ModUnique(n, 2, BinaryValue(u), b);
      assert vec == u + [vec[|vec| - 1]];
    }
  }

  /** The bits of a value below `2^w` spell that value. */
  lemma {:induction false} ValueOfBits(n: nat, w: nat)
    requires n < Pow(2, w)
    ensures BinaryValue(ToBits(n, w)) == n
    decreases w
  {
    if w > 0 {
      var t := ToBits(n, w);
      assert t[..w - 1] == ToBits(n / 2, w - 1);
      DivBelow(n, 2, Pow(2, w - 1));
      ValueOfBits(n / 2, w - 1);
    }
  }

  lemma {:induction false} BinaryDigitsValueBits(vec: Bits)
    ensures BinaryDigitsValue(BitStr(vec)) == BinaryValue(vec)
    decreases |vec|
  {
    if |vec| > 0 {
      var u := vec[..|vec| - 1];
      BinaryDigitsValueBits(u);
      assert BitStr(vec)[..|vec| - 1] == BitStr(u);
    }
  }

  /** The decimal value of a bit vector, through its '0'/'1' spelling. */
  function BitVecToInt(vec: Bits): Option<int>
  {
    ReadBitStr(vec);
    StoiBase2(BitStr(vec))
  }

  /**
   * The conversion gives the big-endian value of a non-empty vector and throws
   * exactly when that value exceeds `IntMax`; vectors of at most 31 bits
   * always convert.
   */
  lemma BitVecToIntValue(vec: Bits)
    requires |vec| >= 1
    ensures BitVecToInt(vec).Some? <==> BinaryValue(vec) <= IntMax
    ensures BitVecToInt(vec).Some? ==> BitVecToInt(vec).value == BinaryValue(vec)
    ensures |vec| <= 31 ==> BitVecToInt(vec).Some?
  {
    BinaryDigitsValueBits(vec);
    if |vec| <= 31 {
      BinaryValueBound(vec);
      PowMono(|vec|, 31);
      PowThirtyOne();
    }
  }

  lemma PowFive()
    ensures Pow(2, 1) == 2 && Pow(2, 5) == 32
  {
    assert Pow(2, 2) == 4;
    assert Pow(2, 4) == 16;
  }

  lemma PowThirtyOne()
    ensures Pow(2, 31) == IntMax + 1
  {
    hide Pow;
    PowFive();
    PowAdd(2, 5, 5);
    PowAdd(2, 10, 5);
    PowAdd(2, 15, 15);
    PowAdd(2, 30, 1);
  }

  lemma {:induction false} PowMono(a: nat, b: nat)
    requires a <= b
    ensures Pow(2, a) <= Pow(2, b)
    decreases b
  {
    if a < b {
      PowMono(a, b - 1);
    }
  }

  // ---------------------------------------------------------------------------
  // The report as a table
  // ---------------------------------------------------------------------------

  /** Every number of `nums` has `w` bits. */
  predicate Width(nums: seq<Bits>, w: nat)
  {
    forall x :: x in nums ==> |x| == w
  }

  /**
   * What the ratings demand of the report: at least one number (the width is
   * read from the first), a common width, and no number twice (two equal
   * numbers would never be separated and the filtering would read past the
   * last column).
   */
  predicate Report(numbers: seq<Bits>)
  {
    |numbers| >= 1 && Width(numbers, |numbers[0]|) && Distinct(numbers)
  }

  /** Bit `idx` of every number, in order. */
  function GetColumn(nums: seq<Bits>, idx: nat): (r: Bits)
    requires forall x :: x in nums ==> idx < |x|
    ensures |r| == |nums|
  {
    seq(|nums|, k requires 0 <= k < |nums| => nums[k][idx])
  }

  /** The numbers as columns: the table turned so that each row holds one bit position. */
  method Transpose(numbers: seq<Bits>) returns (t: seq<Bits>)
    requires |numbers| >= 1 && Width(numbers, |numbers[0]|)
    ensures Rect(t, |numbers[0]|, |numbers|)
    ensures forall i, j :: 0 <= i < |numbers| && 0 <= j < |numbers[0]| ==> t[j][i] == numbers[i][j]
  {
    var rows, cols := |numbers|, |numbers[0]|;
    t := seq(cols, _ => seq(rows, _ => false));
    var i := 0;
    while i < rows
      invariant 0 <= i <= rows
      invariant Rect(t, cols, rows)
      invariant forall a, j :: 0 <= a < i && 0 <= j < cols ==> t[j][a] == numbers[a][j]
    {
      assert numbers[i] in numbers;
      var j := 0;
      while j < cols
        invariant 0 <= j <= cols
        invariant Rect(t, cols, rows)
        invariant forall a, b :: 0 <= a < i && 0 <= b < cols ==> t[b][a] == numbers[a][b]
        invariant forall b :: 0 <= b < j ==> t[b][i] == numbers[i][b]
      {
        t := t[j := t[j][i := numbers[i][j]]];
        j := j + 1;
      }
      i := i + 1;
    }
  }

  /** The rows of the turned table are the columns of the report. */
  lemma TransposeColumns(numbers: seq<Bits>, t: seq<Bits>)
    requires |numbers| >= 1 && Width(numbers, |numbers[0]|)
    requires Rect(t, |numbers[0]|, |numbers|)
    requires forall i, j :: 0 <= i < |numbers| && 0 <= j < |numbers[0]| ==> t[j][i] == numbers[i][j]
    ensures forall j :: 0 <= j < |t| ==> t[j] == GetColumn(numbers, j)
  {
    forall j | 0 <= j < |t|
      ensures t[j] == GetColumn(numbers, j)
    {
      forall i | 0 <= i < |numbers|
        ensures t[j][i] == GetColumn(numbers, j)[i]
      {
        assert numbers[i] in numbers;
      }
    }
  }

  // ---------------------------------------------------------------------------
  // One filtering round
  // ---------------------------------------------------------------------------

  /** The numbers whose bit `i` equals `bit`, in their original order. */
  function Keep(nums: seq<Bits>, i: nat, bit: bool): (r: seq<Bits>)
    requires forall x :: x in nums ==> i < |x|
    ensures forall x :: x in r ==> x in nums && x[i] == bit
  {
    if |nums| == 0 then []
    else Keep(nums[..|nums| - 1], i, bit) + (if nums[|nums| - 1][i] == bit then [nums[|nums| - 1]] else [])
  }

  /** A number survives the round exactly when it is in the list with the chosen bit. */
  lemma {:induction false} KeepMembers(nums: seq<Bits>, i: nat, bit: bool, x: Bits)
    requires forall y :: y in nums ==> i < |y|
    ensures x in Keep(nums, i, bit) <==> x in nums && x[i] == bit
    decreases |nums|
  {
    if |nums| > 0 {
      KeepMembers(nums[..|nums| - 1], i, bit, x);
      assert nums == nums[..|nums| - 1] + [nums[|nums| - 1]];
    }
  }

  /** As many numbers survive as the column holds copies of the chosen bit. */
  lemma {:induction false} KeepSize(nums: seq<Bits>, i: nat, bit: bool)
    requires forall x :: x in nums ==> i < |x|
    ensures |Keep(nums, i, bit)| == Count(GetColumn(nums, i), bit)
    decreases |nums|
  {
    if |nums| > 0 {
      var front := nums[..|nums| - 1];
      KeepSize(front, i, bit);
      assert GetColumn(nums, i)[..|nums| - 1] == GetColumn(front, i);
    }
  }

  /**
   * How a round picks the bit to keep: `Majority` is the oxygen generator's
   * rule (ties keep ones), `Minority` the CO2 scrubber's rule as the program
   * has it (ties keep zeros, and a uniform column keeps the absent value),
   * `MinorityOfPresent` the scrubber's rule with a uniform column keeping
   * every number.
   */
  datatype Criterion = Majority | Minority | MinorityOfPresent

  function Choose(nums: seq<Bits>, i: nat, c: Criterion): bool
    requires forall x :: x in nums ==> i < |x|
  {
    var column := GetColumn(nums, i);
    var ones, zeros := Count(column, true), Count(column, false);
    match c
    case Majority => ones >= zeros
    case Minority => !(zeros <= ones)
    case MinorityOfPresent => if zeros == 0 then true else if ones == 0 then false else !(zeros <= ones)
  }

  /** The oxygen and corrected scrubber rounds never empty a non-empty list. */
  lemma KeepChosenNonEmpty(nums: seq<Bits>, i: nat, c: Criterion)
    requires forall x :: x in nums ==> i < |x|
    requires |nums| >= 1 && c != Minority
    ensures |Keep(nums, i, Choose(nums, i, c))| >= 1
  {
    KeepSize(nums, i, Choose(nums, i, c));
    OnesAndZeros(GetColumn(nums, i));
  }

  /**
   * The scrubber round as the program has it empties a non-empty list exactly
   * when the column holds a single bit value.
   */
  lemma MinorityEmpties(nums: seq<Bits>, i: nat)
    requires forall x :: x in nums ==> i < |x|
    requires |nums| >= 1
    ensures Keep(nums, i, Choose(nums, i, Minority)) == []
        <==> (forall x, y :: x in nums && y in nums ==> x[i] == y[i])
  {
    hide Keep, GetColumn, Count;
    var column := GetColumn(nums, i);
    KeepSize(nums, i, Choose(nums, i, Minority));
    OnesAndZeros(column);
    CountBound(column, true);
    CountBound(column, false);
    ColumnUniform(nums, i);
  }

  /** A column holds a single bit value exactly when its numbers agree there. */
  lemma ColumnUniform(nums: seq<Bits>, i: nat)
    requires forall x :: x in nums ==> i < |x|
    ensures (forall x, y :: x in nums && y in nums ==> x[i] == y[i])
        <==> (true !in GetColumn(nums, i) || false !in GetColumn(nums, i))
  {
    var column := GetColumn(nums, i);
    if true in column && false in column {
      var a :| 0 <= a < |column| && column[a];
      var b :| 0 <= b < |column| && !column[b];
      assert nums[a] in nums && nums[b] in nums;
    } else {
      forall x, y | x in nums && y in nums
        ensures x[i] == y[i]
      {
        var a :| 0 <= a < |nums| && nums[a] == x;
        var b :| 0 <= b < |nums| && nums[b] == y;
        assert column[a] == x[i] && column[b] == y[i];
      }
    }
  }

  // ---------------------------------------------------------------------------
  // The filtering process
  // ---------------------------------------------------------------------------

  predicate StartsWith(x: Bits, pre: Bits)
  {
    |pre| <= |x| && x[..|pre|] == pre
  }

  /** The numbers starting with `pre`, in their original order. */
  function Agree(nums: seq<Bits>, pre: Bits): (r: seq<Bits>)
    ensures forall x :: x in r ==> x in nums && StartsWith(x, pre)
  {
    if |nums| == 0 then []
    else Agree(nums[..|nums| - 1], pre) + (if StartsWith(nums[|nums| - 1], pre) then [nums[|nums| - 1]] else [])
  }

  lemma {:induction false} AgreeEmpty(nums: seq<Bits>)
    ensures Agree(nums, []) == nums
    decreases |nums|
  {
    if |nums| > 0 {
      var front, x := nums[..|nums| - 1], nums[|nums| - 1];
      AgreeEmpty(front);
      assert StartsWith(x, []);
      assert nums == front + [x];
    }
  }

  lemma StartsWithNext(x: Bits, pre: Bits, b: bool)
    requires |pre| < |x|
    ensures StartsWith(x, pre + [b]) <==> StartsWith(x, pre) && x[|pre|] == b
  {
    var y := x[..|pre| + 1];
    assert y[..|pre|] == x[..|pre|] && y[|pre|] == x[|pre|];
    if y == pre + [b] {
      assert y[..|pre|] == pre;
    }
    if x[..|pre|] == pre && x[|pre|] == b {
      assert y == pre + [b];
    }
  }

  lemma KeepSnoc(a: seq<Bits>, x: Bits, i: nat, bit: bool)
    requires forall y :: y in a + [x] ==> i < |y|
    ensures Keep(a + [x], i, bit) == Keep(a, i, bit) + (if x[i] == bit then [x] else [])
  {
    assert (a + [x])[..|a|] == a;
  }

  /** Keeping the next bit of a prefix narrows the numbers to the longer prefix. */
  lemma {:induction false} AgreeStep(nums: seq<Bits>, w: nat, pre: Bits, b: bool)
    requires Width(nums, w) && |pre| < w
    ensures Agree(nums, pre + [b]) == Keep(Agree(nums, pre), |pre|, b)
    decreases |nums|
  {
    if |nums| > 0 {
      var front, x := nums[..|nums| - 1], nums[|nums| - 1];
      assert x in nums;
      assert forall y :: y in front ==> y in nums;
      AgreeStep(front, w, pre, b);
      var a := Agree(front, pre);
      StartsWithNext(x, pre, b);
      if StartsWith(x, pre) {
        assert Agree(nums, pre) == a + [x];
        KeepSnoc(a, x, |pre|, b);
      } else {
        assert Agree(nums, pre) == a;
        assert Agree(nums, pre + [b]) == Agree(front, pre + [b]) + [];
      }
    }
  }

  /** Among numbers of width `w`, those starting with a `w`-bit prefix are its copies. */
  lemma {:induction false} AgreeCount(nums: seq<Bits>, w: nat, pre: Bits)
    requires Width(nums, w) && |pre| == w
    ensures |Agree(nums, pre)| == Count(nums, pre)
    decreases |nums|
  {
    if |nums| > 0 {
      var front, x := nums[..|nums| - 1], nums[|nums| - 1];
      assert x in nums;
      assert forall y :: y in front ==> y in nums;
      AgreeCount(front, w, pre);
      assert x[..|pre|] == x;
    }
  }

  /** Distinct numbers cannot share a prefix as long as themselves. */
  lemma AgreeFull(nums: seq<Bits>, w: nat, pre: Bits)
    requires Width(nums, w) && Distinct(nums) && |pre| <= w
    ensures |pre| == w ==> |Agree(nums, pre)| <= 1
  {
    if |pre| == w {
      AgreeCount(nums, w, pre);
      DistinctCount(nums, pre);
    }
  }

  /**
   * Round `j` of the filtering: the numbers starting with the first `j` bits of
   * `p` are at least two (so the loop goes on), and `p[j]` is the bit the
   * criterion picks from their column `j`.
   */
  predicate Round(numbers: seq<Bits>, w: nat, p: Bits, j: nat, c: Criterion)
    requires Width(numbers, w) && j < |p| <= w
  {
    var s := Agree(numbers, p[..j]);
    |s| >= 2 && p[j] == Choose(s, j, c)
  }

  /** The bits of `p` are the ones the criterion kept, round after round. */
  predicate Path(numbers: seq<Bits>, w: nat, p: Bits, c: Criterion)
    requires Width(numbers, w) && |p| <= w
  {
    forall j :: 0 <= j < |p| ==> Round(numbers, w, p, j, c)
  }

  /** After `k` rounds exactly the number `x` is left. */
  predicate Survivor(numbers: seq<Bits>, w: nat, x: Bits, k: nat, c: Criterion)
    requires Width(numbers, w)
  {
    x in numbers && k <= w && Path(numbers, w, x[..k], c) && Agree(numbers, x[..k]) == [x]
  }

  /** The rounds along `p` leave no number at all. */
  predicate Emptied(numbers: seq<Bits>, w: nat, p: Bits, c: Criterion)
    requires Width(numbers, w)
  {
    |p| <= w && Path(numbers, w, p, c) && Agree(numbers, p) == []
  }

  lemma PathExtend(numbers: seq<Bits>, w: nat, p: Bits, b: bool, c: Criterion)
    requires Width(numbers, w) && |p| < w && Path(numbers, w, p, c)
    requires |Agree(numbers, p)| >= 2 && b == Choose(Agree(numbers, p), |p|, c)
    ensures Path(numbers, w, p + [b], c)
  {
    var q := p + [b];
    forall j | 0 <= j < |q|
      ensures Round(numbers, w, q, j, c)
    {
      assert q[..j] == p[..j];
      if j < |p| {
        assert Round(numbers, w, p, j, c);
      } else {
        assert q[..j] == p;
      }
    }
  }

  /** Two paths of the same criterion agree as far as both go. */
  lemma {:induction false} PathsAgree(numbers: seq<Bits>, w: nat, p: Bits, q: Bits, j: nat, c: Criterion)
    requires Width(numbers, w) && |p| <= w && |q| <= w
    requires Path(numbers, w, p, c) && Path(numbers, w, q, c)
    requires j <= |p| && j <= |q|
    ensures p[..j] == q[..j]
    decreases j
  {
    hide Agree, Choose;
    if j > 0 {
      PathsAgree(numbers, w, p, q, j - 1, c);
      assert Round(numbers, w, p, j - 1, c) && Round(numbers, w, q, j - 1, c);
      assert p[..j] == p[..j - 1] + [p[j - 1]];
      assert q[..j] == q[..j - 1] + [q[j - 1]];
    }
  }

  /** Every round of a path starts from at least two numbers. */
  lemma PathRoundsWide(numbers: seq<Bits>, w: nat, p: Bits, j: nat, c: Criterion)
    requires Width(numbers, w) && j < |p| <= w && Path(numbers, w, p, c)
    ensures |Agree(numbers, p[..j])| >= 2
  {
    assert Round(numbers, w, p, j, c);
  }

  /** The filtering has at most one survivor. */
  lemma SurvivorUnique(numbers: seq<Bits>, w: nat, x: Bits, k: nat, y: Bits, l: nat, c: Criterion)
    requires Width(numbers, w)
    requires Survivor(numbers, w, x, k, c) && Survivor(numbers, w, y, l, c)
    ensures x == y && k == l
  {
    var p, q := x[..k], y[..l];
    var m := if k <= l then k else l;
    PathsAgree(numbers, w, p, q, m, c);
    if k < l {
      assert q[..k] == p;
      PathRoundsWide(numbers, w, q, k, c);
    } else if l < k {
      assert p[..l] == q;
      PathRoundsWide(numbers, w, p, l, c);
    } else {
      assert p == q;
    }
  }

  /** A filtering that leaves a survivor never empties the list. */
  lemma SurvivorExcludesEmptied(numbers: seq<Bits>, w: nat, x: Bits, k: nat, p: Bits, c: Criterion)
    requires Width(numbers, w) && Survivor(numbers, w, x, k, c)
    ensures !Emptied(numbers, w, p, c)
  {
    if Emptied(numbers, w, p, c) {
      var q := x[..k];
      var m := if k <= |p| then k else |p|;
      PathsAgree(numbers, w, p, q, m, c);
      if k < |p| {
        assert p[..k] == q;
        PathRoundsWide(numbers, w, p, k, c);
      } else if |p| < k {
        assert q[..|p|] == p;
        PathRoundsWide(numbers, w, q, |p|, c);
      } else {
        WholePrefix(p, q);
      }
    }
  }

  lemma WholePrefix(p: Bits, q: Bits)
    requires |p| == |q| && p[..|p|] == q[..|q|]
    ensures p == q
  {
    assert p == p[..|p|] && q == q[..|q|];
  }

  /** The oxygen generator's filtering never empties the list. */
  lemma MajorityNeverEmpties(numbers: seq<Bits>, w: nat, p: Bits)
    requires Width(numbers, w) && |numbers| >= 1
    ensures !Emptied(numbers, w, p, Majority)
  {
    hide Keep, Choose;
    if |p| == 0 {
      AgreeEmpty(numbers);
    } else if |p| <= w && Path(numbers, w, p, Majority) {
      var j := |p| - 1;
      assert Round(numbers, w, p, j, Majority);
      AgreeStep(numbers, w, p[..j], p[j]);
      assert p[..j] + [p[j]] == p;
      KeepChosenNonEmpty(Agree(numbers, p[..j]), j, Majority);
    }
  }

  /** One more round along a path that has left at least two numbers. */
  lemma NarrowStep(numbers: seq<Bits>, w: nat, p: Bits, c: Criterion)
    requires Report(numbers) && w == |numbers[0]| && |p| <= w && Path(numbers, w, p, c)
    requires |Agree(numbers, p)| >= 2
    ensures |p| < w
    ensures var nums := Agree(numbers, p);
      var bit := Choose(nums, |p|, c);
      Agree(numbers, p + [bit]) == Keep(nums, |p|, bit) && Path(numbers, w, p + [bit], c)
      && (c != Minority ==> |Keep(nums, |p|, bit)| >= 1)
  {
    AgreeFull(numbers, w, p);
    var nums := Agree(numbers, p);
    var bit := Choose(nums, |p|, c);
    if c != Minority {
      KeepChosenNonEmpty(nums, |p|, c);
    }
    AgreeStep(numbers, w, p, bit);
    PathExtend(numbers, w, p, bit, c);
  }

  /** The bit a round keeps, from the counts of the column's ones and zeros. */
  method PickBit(nums: seq<Bits>, i: nat, c: Criterion) returns (bit: bool)
    requires forall x :: x in nums ==> i < |x|
    ensures bit == Choose(nums, i, c)
  {
    var column := GetColumn(nums, i);
    var ones, zeros := CountDual(column);
    match c
    case Majority =>
      bit := ones >= zeros;
    case Minority =>
      bit := !(zeros <= ones);
    case MinorityOfPresent =>
      bit := if zeros == 0 then true else if ones == 0 then false else !(zeros <= ones);
  }

  /** A path that leaves one number makes it the survivor. */
  lemma SurvivorAtEnd(numbers: seq<Bits>, w: nat, p: Bits, c: Criterion)
    requires Width(numbers, w) && |p| <= w && Path(numbers, w, p, c)
    requires |Agree(numbers, p)| == 1
    ensures Survivor(numbers, w, Agree(numbers, p)[0], |p|, c)
  {
    var x := Agree(numbers, p)[0];
    assert x in Agree(numbers, p);
    assert x[..|p|] == p;
    assert Agree(numbers, p) == [x];
  }

  /**
   * The filtering loop shared by both ratings: `None` where the list runs
   * empty, after which the program's loop never ends.
   */
  method Rate(numbers: seq<Bits>, c: Criterion) returns (r: Option<Bits>)
    requires Report(numbers)
    ensures r.Some? ==> exists k :: Survivor(numbers, |numbers[0]|, r.value, k, c)
    ensures r.None? <==> exists p :: Emptied(numbers, |numbers[0]|, p, c)
    ensures c != Minority ==> r.Some?
  {
    hide Keep, Choose;
    var w := |numbers[0]|;
    var nums := numbers;
    var i := 0;
    ghost var p: Bits := [];
    AgreeEmpty(numbers);
    while |nums| != 1
      invariant 0 <= i <= w && |p| == i
      invariant nums == Agree(numbers, p)
      invariant Path(numbers, w, p, c)
      invariant c != Minority ==> |nums| >= 1
      decreases w - i
    {
      if |nums| == 0 {
        assert Emptied(numbers, w, p, c);
        return None;
      }
      NarrowStep(numbers, w, p, c);
      var bit := PickBit(nums, i, c);
      nums := Keep(nums, i, bit);
      p := p + [bit];
      i := i + 1;
    }
    var x := nums[0];
    SurvivorAtEnd(numbers, w, p, c);
    r := Some(x);
    forall q
      ensures !Emptied(numbers, w, q, c)
    {
      SurvivorExcludesEmptied(numbers, w, x, i, q, c);
    }
  }

  // ---------------------------------------------------------------------------
  // The ratings
  // ---------------------------------------------------------------------------

  /** The oxygen generator rating: the value of the majority filtering's survivor. */
  method O2GeneratorRating(numbers: seq<Bits>) returns (r: Option<int>)
    requires Report(numbers)
    ensures exists x, k :: Survivor(numbers, |numbers[0]|, x, k, Majority) && r == BitVecToInt(x)
  {
    var s := Rate(numbers, Majority);
    r := BitVecToInt(s.value);
  }

  /**
   * The CO2 scrubber rating as the program computes it: `None` either where
   * the list runs empty (the loop then never ends) or where the survivor's
   * value does not fit an `int`.
   */
  method CO2ScrubberRatingAsWritten(numbers: seq<Bits>) returns (r: Option<int>)
    requires Report(numbers)
    ensures r.Some? ==> exists x, k :: Survivor(numbers, |numbers[0]|, x, k, Minority) && r == BitVecToInt(x)
    ensures (exists p :: Emptied(numbers, |numbers[0]|, p, Minority)) ==> r.None?
  {
    var s := Rate(numbers, Minority);
    if s.None? {
      r := None;
    } else {
      r := BitVecToInt(s.value);
    }
  }

  /** The CO2 scrubber rating with a uniform column keeping every number. */
  method CO2ScrubberRating(numbers: seq<Bits>) returns (r: Option<int>)
    requires Report(numbers)
    ensures exists x, k :: Survivor(numbers, |numbers[0]|, x, k, MinorityOfPresent) && r == BitVecToInt(x)
  {
    var s := Rate(numbers, MinorityOfPresent);
    r := BitVecToInt(s.value);
  }

  /** Two `[1, 0]`, `[1, 1]`: both numbers share their first bit. */
  const SharedFirstBit: seq<Bits> := [[true, false], [true, true]]

  lemma CountPair(a: bool, b: bool, v: bool)
    ensures Count([a, b], v) == (if a == v then 1 else 0) + (if b == v then 1 else 0)
  {
    assert [a, b][..1] == [a];
    assert [a][..0] == [];
    assert Count([a], v) == (if a == v then 1 else 0);
  }

  lemma AgreePair(u: Bits, v: Bits, pre: Bits)
    ensures Agree([u, v], pre) == (if StartsWith(u, pre) then [u] else []) + (if StartsWith(v, pre) then [v] else [])
  {
    assert [u, v][..1] == [u];
    assert [u][..0] == [];
    assert Agree([u], pre) == (if StartsWith(u, pre) then [u] else []);
  }

  /** On `SharedFirstBit` the program's scrubber round drops both numbers at once. */
  lemma MinorityLosesEverything()
    ensures Report(SharedFirstBit)
    ensures Emptied(SharedFirstBit, 2, [false], Minority)
    ensures forall x, k :: !Survivor(SharedFirstBit, 2, x, k, Minority)
  {
    hide Agree, Count;
    var ns := SharedFirstBit;
    var u, v: Bits := [true, false], [true, true];
    assert ns == [u, v];
    assert [false][..0] == [] && u[..0] == [] && v[..0] == [];
    AgreePair(u, v, []);
    assert GetColumn(ns, 0) == [true, true];
    CountPair(true, true, true);
    CountPair(true, true, false);
    assert Agree(ns, [false][..0]) == ns;
    assert Count(GetColumn(ns, 0), true) == 2;
    assert Choose(ns, 0, Minority) == false;
    assert Round(ns, 2, [false], 0, Minority);
    assert u[..1] == [true] && v[..1] == [true];
    AgreePair(u, v, [false]);
    forall x, k
      ensures !Survivor(ns, 2, x, k, Minority)
    {
      if Survivor(ns, 2, x, k, Minority) {
        SurvivorExcludesEmptied(ns, 2, x, k, [false], Minority);
      }
    }
  }

  /** On the same report the corrected rule keeps both and then picks `[1, 0]`. */
  lemma MinorityOfPresentSurvives()
    ensures Survivor(SharedFirstBit, 2, [true, false], 2, MinorityOfPresent)
  {
    hide Agree, Count;
    var ns := SharedFirstBit;
    var u, v: Bits := [true, false], [true, true];
    assert ns == [u, v];
    assert u[..2] == u && u[..1] == [true] && u[..0] == [] && v[..1] == [true] && v[..0] == [];
    AgreePair(u, v, []);
    AgreePair(u, v, [true]);
    AgreePair(u, v, u);
    assert GetColumn(ns, 0) == [true, true];
    assert GetColumn(ns, 1) == [false, true];
    CountPair(true, true, true);
    CountPair(true, true, false);
    CountPair(false, true, true);
    CountPair(false, true, false);
    assert Agree(ns, u[..0]) == ns && Agree(ns, u[..1]) == ns;
    assert Choose(ns, 0, MinorityOfPresent) == true;
    assert Choose(ns, 1, MinorityOfPresent) == false;
    assert Round(ns, 2, u, 0, MinorityOfPresent);
    assert Round(ns, 2, u, 1, MinorityOfPresent);
  }

  /** Product of two ratings, failing when either fails. */
  function Times(a: Option<int>, b: Option<int>): Option<int>
  {
    if a.Some? && b.Some? then Some(a.value * b.value) else None
  }

  /** The life support rating: oxygen generator rating times CO2 scrubber rating. */
  method LifeSupportRating(numbers: seq<Bits>) returns (r: Option<int>)
    requires Report(numbers)
    ensures exists x, k, y, l ::
      Survivor(numbers, |numbers[0]|, x, k, Majority) && Survivor(numbers, |numbers[0]|, y, l, MinorityOfPresent)
      && r == Times(BitVecToInt(x), BitVecToInt(y))
  {
    var o2 := O2GeneratorRating(numbers);
    var co2 := CO2ScrubberRating(numbers);
    r := Times(o2, co2);
  }

  /**
   * The life support rating as the program computes it, with the scrubber
   * round that may drop every number: no answer where that happens.
   */
  method LifeSupportRatingAsWritten(numbers: seq<Bits>) returns (r: Option<int>)
    requires Report(numbers)
    ensures r.Some? ==> exists x, k, y, l ::
      Survivor(numbers, |numbers[0]|, x, k, Majority) && Survivor(numbers, |numbers[0]|, y, l, Minority)
      && r == Times(BitVecToInt(x), BitVecToInt(y))
    ensures (exists p :: Emptied(numbers, |numbers[0]|, p, Minority)) ==> r.None?
  {
    var o2 := O2GeneratorRating(numbers);
    var co2 := CO2ScrubberRatingAsWritten(numbers);
    r := Times(o2, co2);
  }
}
