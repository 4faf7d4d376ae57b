/**
 * Bridge Repair (2024, day 7): each calibration line holds a test value
 * and a list of numbers; the line counts when operators placed between the
 * numbers, evaluated strictly left to right, give the test value.  Part 1
 * allows `+` and `*`, part 2 also `|`, which writes the digits of the next
 * number after those of the running value.
 *
 * The search tries every index below N^(k-1) and writes its base-N digits
 * into the operator string from the right; slots left of the highest digit
 * keep the string's initial fill.  The program fills with `'\0'`, an
 * operator that skips its number, so the strings starting with the first
 * operator are never tried: `Search` takes the fill as a parameter, and
 * both fills are modelled.
 */
module BridgeRepair {

  import opened Common
  import opened Decimal

  datatype CalibrationData = CalibrationData(testValue: nat, numbers: seq<int>)

  // ---------------------------------------------------------------------
  // Evaluation

  /** Ten to the number of decimal digits of `v`, and 1 for zero. */
  function ShiftFactor(v: int): (p: nat)
    ensures p >= 1
    decreases Abs(v)
  {
    if v == 0 then 1 else 10 * ShiftFactor(TDiv(v, 10))
  }

  /** A power of ten. */
  predicate PowerOfTen(p: nat)
    decreases p
  {
    p == 1 || (p >= 10 && p % 10 == 0 && PowerOfTen(p / 10))
  }

  /** For a positive value the factor is the smallest power of ten above it. */
  lemma {:induction false} ShiftFactorMeans(v: nat)
    requires v > 0
    ensures PowerOfTen(ShiftFactor(v)) && v < ShiftFactor(v) <= 10 * v
    decreases v
  {
    if v >= 10 {
      ShiftFactorMeans(v / 10);
      assert TDiv(v, 10) == v / 10;
    } else {
      assert TDiv(v, 10) == 0;
    }
  }

  /** A negative value shifts like its magnitude. */
  lemma {:induction false} ShiftFactorNegative(v: int)
    ensures ShiftFactor(-v) == ShiftFactor(v)
    decreases Abs(v)
  {
    if v != 0 {
      assert TDiv(-v, 10) == -TDiv(v, 10);
      ShiftFactorNegative(TDiv(v, 10));
    }
  }

  /** Writing a number of two or more digits is writing its tens, then its last digit. */
  lemma ShowNatStep(n: nat, q: nat, r: nat)
    requires n == 10 * q + r && q > 0 && r < 10
    ensures ShowNat(n) == ShowNat(q) + [DigitChar(r)]
  {
    ModUnique(n, 10, q, r);
  }

  lemma ShiftFactorStep(b: nat)
    requires b > 0
    ensures ShiftFactor(b) == 10 * ShiftFactor(b / 10)
  {
    assert TDiv(b, 10) == b / 10;
  }

  /** `|` on positive numbers writes the digits of `b` after those of `a`. */
  lemma {:induction false} ConcatDigits(a: nat, b: nat)
    requires a > 0 && b > 0
    ensures a * ShiftFactor(b) + b >= 0
    ensures ShowNat(a * ShiftFactor(b) + b) == ShowNat(a) + ShowNat(b)
    decreases b
  {
    var q, r := b / 10, b % 10;
    assert b == 10 * q + r && r < 10;
    ShiftFactorStep(b);
    var sq := ShiftFactor(q);
    var n, m := a * ShiftFactor(b) + b, a * sq + q;
    Regroup(a, sq, q, r);
    assert n == 10 * m + r;
    assert q == 0 ==> sq == 1 && m == a && ShowNat(b) == [DigitChar(r)];
    hide ShowNat, ShiftFactor;
    if q == 0 {
      ShowNatStep(n, a, r);
    } else {
      ConcatDigits(a, q);
      ShowNatStep(n, m, r);
      ShowNatStep(b, q, r);
    }
  }

  lemma Regroup(a: nat, sq: nat, q: nat, r: nat)
    ensures a * (10 * sq) + (10 * q + r) == 10 * (a * sq + q) + r
  {
  }

  /** One operator applied to the running value: an unknown character leaves it unchanged. */
  function Apply(acc: int, op: char, x: int): int
  {
    if op == '+' then acc + x
    else if op == '*' then acc * x
    else if op == '|' then acc * ShiftFactor(x) + x
    else acc
  }

  /** The value of the numbers with `ops[j]` between number `j` and `j + 1`, left to right. */
  function Eval(numbers: seq<int>, ops: string): int
    requires |numbers| >= 1 && |ops| >= |numbers| - 1
    decreases |numbers|
  {
    if |numbers| == 1 then numbers[0]
    else Apply(Eval(numbers[..|numbers| - 1], ops), ops[|numbers| - 2], numbers[|numbers| - 1])
  }

  /** `EvaluateExpression`: a loop over the numbers after the first. */
  method EvaluateExpression(numbers: seq<int>, ops: string) returns (sum: int)
    requires |numbers| >= 1 && |ops| >= |numbers| - 1
    ensures sum == Eval(numbers, ops)
  {
    sum := numbers[0];
    var j := 1;
    while j < |numbers|
      invariant 1 <= j <= |numbers|
      invariant sum == Eval(numbers[..j], ops)
    {
      assert numbers[..j + 1][..j] == numbers[..j];
      sum := Apply(sum, ops[j - 1], numbers[j]);
      j := j + 1;
    }
    assert numbers[..j] == numbers;
  }

  /** A single number is its own value. */
  lemma EvalSingle(x: int, ops: string)
    ensures Eval([x], ops) == x
  {
  }

  /** No precedence: `2 + 3 * 4` is 20. */
  lemma EvalLeftToRight()
    ensures Eval([2, 3, 4], "+*") == 20
  {
    assert [2, 3, 4][..2] == [2, 3] && [2, 3][..1] == [2];
  }

  /** An operator outside `+`, `*` and `|` skips its number. */
  lemma EvalSkips(numbers: seq<int>, x: int, ops: string)
    requires |numbers| >= 1 && |ops| >= |numbers| && ops[|numbers| - 1] !in "+*|"
    ensures Eval(numbers + [x], ops) == Eval(numbers, ops)
  {
    assert (numbers + [x])[..|numbers|] == numbers;
  }

  /** With only `+` the value is the sum of the numbers. */
  lemma {:induction false} EvalAllPlus(numbers: seq<int>, ops: string)
    requires |numbers| >= 1 && |ops| >= |numbers| - 1
    requires forall j :: 0 <= j < |numbers| - 1 ==> ops[j] == '+'
    ensures Eval(numbers, ops) == Sum(numbers)
    decreases |numbers|
  {
    if |numbers| == 1 {
      assert numbers[..0] == [];
    } else {
      EvalAllPlus(numbers[..|numbers| - 1], ops);
      if |numbers| == 2 {
        assert numbers[..1][..0] == [];
      }
    }
  }

  /** The decimal digits of a list of positive numbers written one after another. */
  function Digits(numbers: seq<nat>): string
  {
    if |numbers| == 0 then [] else Digits(numbers[..|numbers| - 1]) + ShowNat(numbers[|numbers| - 1])
  }

  /** With only `|` between positive numbers the value is written as their digits in a row. */
  lemma {:induction false} EvalAllConcat(numbers: seq<nat>, ops: string)
    requires |numbers| >= 1 && |ops| >= |numbers| - 1
    requires forall j :: 0 <= j < |numbers| ==> numbers[j] > 0
    requires forall j :: 0 <= j < |numbers| - 1 ==> ops[j] == '|'
    ensures Eval(numbers, ops) > 0 && ShowNat(Eval(numbers, ops)) == Digits(numbers)
    decreases |numbers|
  {
    if |numbers| == 1 {
      assert numbers[..0] == [];
    } else {
      var front := numbers[..|numbers| - 1];
      EvalAllConcat(front, ops);
      ConcatDigits(Eval(front, ops), numbers[|numbers| - 1]);
    }
  }

  // ---------------------------------------------------------------------
  // The operator strings the search writes

  /**
   * The operator string of length `len` for index `i`: the base-N digits
   * of `i`, least significant in the last slot, each naming an operator of
   * `valid`; slots past the highest digit hold `fill`.
   */
  function Written(i: nat, len: nat, valid: seq<char>, fill: char): (s: string)
    requires |valid| >= 2
    ensures |s| == len
    decreases len
  {
    if len == 0 then []
    else if i == 0 then Written(0, len - 1, valid, fill) + [fill]
    else Written(i / |valid|, len - 1, valid, fill) + [valid[i % |valid|]]
  }

  /** The number of base-N digits of `i`; none for zero. */
  function DigitCount(i: nat, n: nat): nat
    requires n >= 2
    decreases i
  {
    if i == 0 then 0 else 1 + DigitCount(i / n, n)
  }

  lemma DigitCountZero(i: nat, n: nat)
    requires n >= 2
    ensures DigitCount(i, n) == 0 <==> i == 0
  {
  }

  lemma {:induction false} DigitCountMono(a: nat, b: nat, n: nat)
    requires n >= 2 && a <= b
    ensures DigitCount(a, n) <= DigitCount(b, n)
    decreases b
  {
    if a > 0 {
      DivMono(a, b, n);
      DigitCountMono(a / n, b / n, n);
    }
  }

  /** An index below N^len has at most `len` digits. */
  lemma {:induction false} DigitCountBound(i: nat, n: nat, len: nat)
    requires n >= 2 && i < Pow(n, len)
    ensures DigitCount(i, n) <= len
    decreases len
  {
    if len > 0 && i > 0 {
      DivBelow(i, n, Pow(n, len - 1));
      DigitCountBound(i / n, n, len - 1);
    }
  }

  function Fill(len: nat, c: char): (s: string)
    ensures |s| == len && forall j :: 0 <= j < len ==> s[j] == c
  {
    seq(len, _ => c)
  }

  /** Dropping the last slot is writing the index with its lowest digit removed. */
  lemma WrittenPeel(i: nat, len: nat, valid: seq<char>, fill: char)
    requires |valid| >= 2 && len >= 1
    ensures Written(i, len, valid, fill)[..len - 1] == Written(i / |valid|, len - 1, valid, fill)
    ensures Written(i, len, valid, fill)[len - 1] == if i == 0 then fill else valid[i % |valid|]
  {
  }

  /** Zero writes nothing: every slot keeps the fill. */
  lemma {:induction false} WrittenZero(len: nat, valid: seq<char>, fill: char)
    requires |valid| >= 2
    ensures Written(0, len, valid, fill) == Fill(len, fill)
    decreases len
  {
    if len > 0 {
      WrittenZero(len - 1, valid, fill);
    }
  }

  /** Slots left of the `k` lowest ones hold the fill when the index has at most `k` digits. */
  lemma {:induction false} WrittenShort(i: nat, len: nat, k: nat, valid: seq<char>, fill: char)
    requires |valid| >= 2 && DigitCount(i, |valid|) <= k <= len
    ensures Written(i, len, valid, fill)[..len - k] == Fill(len - k, fill)
    decreases len
  {
    if k == 0 {
      assert i == 0;
      WrittenZero(len, valid, fill);
    } else {
      WrittenPeel(i, len, valid, fill);
      WrittenShort(i / |valid|, len - 1, k - 1, valid, fill);
      assert Written(i, len, valid, fill)[..len - k] == Written(i, len, valid, fill)[..len - 1][..len - k];
    }
  }

  /** Every slot of a string written with a fill from `valid` names an operator of `valid`. */
  lemma {:induction false} WrittenOver(i: nat, len: nat, valid: seq<char>)
    requires |valid| >= 2
    ensures forall j :: 0 <= j < len ==> Written(i, len, valid, valid[0])[j] in valid
    decreases len
  {
    if len > 0 {
      WrittenOver(i / |valid|, len - 1, valid);
      WrittenPeel(i, len, valid, valid[0]);
      if i == 0 {
        WrittenOver(0, len - 1, valid);
      }
    }
  }

  /** The index whose digits name the operators of `ops`, last slot lowest. */
  function Encode(ops: string, valid: seq<char>): nat
    requires |valid| >= 2
    decreases |ops|
  {
    if |ops| == 0 then 0
    else Index(ops[|ops| - 1], valid) + |valid| * Encode(ops[..|ops| - 1], valid)
  }

  function Index(c: char, valid: seq<char>): nat
  {
    if c in valid then IndexOf(valid, c) else 0
  }

  /** The index of a string of `len` operators from `valid` is below N^len. */
  lemma {:induction false} EncodeBound(ops: string, valid: seq<char>)
    requires |valid| >= 2
    ensures Encode(ops, valid) < Pow(|valid|, |ops|)
    decreases |ops|
  {
    if |ops| > 0 {
      var n, len := |valid|, |ops|;
      var front := ops[..len - 1];
      EncodeBound(front, valid);
      var k, e' := Index(ops[len - 1], valid), Encode(front, valid);
      assert k < n;
      assert Encode(ops, valid) == n * e' + k;
      assert Pow(n, len) == n * Pow(n, len - 1);
      hide Encode, Pow;
      MulMono(n, Pow(n, len - 1), e' + 1);
      assert n * (e' + 1) == n * e' + n;
    }
  }

  /** Every string over `valid` is what its index writes with the first operator as fill. */
  lemma {:induction false} EncodeWritten(ops: string, valid: seq<char>)
    requires |valid| >= 2 && forall j :: 0 <= j < |ops| ==> ops[j] in valid
    ensures Written(Encode(ops, valid), |ops|, valid, valid[0]) == ops
    decreases |ops|
  {
    if |ops| > 0 {
      var n, len := |valid|, |ops|;
      var front, c := ops[..len - 1], ops[len - 1];
      EncodeWritten(front, valid);
      var k, e', e := Index(c, valid), Encode(front, valid), Encode(ops, valid);
      assert k < n && valid[k] == c;
      assert e == n * e' + k;
      hide Encode, Written;
      WrittenPeel(e, len, valid, valid[0]);
      if e == 0 {
        if e' > 0 {
          MulMono(n, e', 1);
        }
        assert k == 0 && e' == 0;
      } else {
        ModUnique(e, n, e', k);
      }
      var w := Written(e, len, valid, valid[0]);
      assert w[..len - 1] == front && w[len - 1] == c;
      assert w == w[..len - 1] + [w[len - 1]];
      assert ops == front + [c];
    }
  }

  // ---------------------------------------------------------------------
  // The search

  /** The operators index `i` writes give the test value. */
  predicate Matches(test: nat, numbers: seq<int>, valid: seq<char>, fill: char, i: nat)
    requires |numbers| >= 1 && |valid| >= 2
  {
    Eval(numbers, Written(i, |numbers| - 1, valid, fill)) == test
  }

  /**
   * The loop of `CanEquationBeSolved`, with the operator string first
   * filled with `fill`.  The string is not cleared between indices; since
   * the indices grow, every slot an earlier index wrote is written again.
   */
  method Search(test: nat, numbers: seq<int>, valid: seq<char>, fill: char) returns (result: bool)
    requires |numbers| >= 1 && |valid| >= 2
    ensures result <==> exists i :: 0 <= i < Pow(|valid|, |numbers| - 1) && Matches(test, numbers, valid, fill, i)
  {
    var n, len := |valid|, |numbers| - 1;
    var count := Pow(n, len);
    var ops := Fill(len, fill);
    ghost var last := 0;
    WrittenZero(len, valid, fill);
    result := false;
    var i := 0;
    while i < count
      invariant 0 <= i <= count && last <= i
      invariant ops == Written(last, len, valid, fill)
      invariant forall j :: 0 <= j < i ==> !Matches(test, numbers, valid, fill, j)
    {
      ops := WriteIndex(i, ops, last, len, valid, fill);
      last := i;
      var value := EvaluateExpression(numbers, ops);
      if value == test {
        assert Matches(test, numbers, valid, fill, i);
        result := true;
        return;
      }
      i := i + 1;
    }
  }

  /** The inner loop: the digits of `i` written over the string of a smaller index. */
  method WriteIndex(i: nat, ops: string, ghost last: nat, len: nat, valid: seq<char>, fill: char)
    returns (ops': string)
    requires |valid| >= 2 && last <= i < Pow(|valid|, len)
    requires ops == Written(last, len, valid, fill)
    ensures ops' == Written(i, len, valid, fill)
  {
    var n := |valid|;
    ghost var target := Written(i, len, valid, fill);
    DigitCountBound(i, n, len);
    hide Written, Fill, Pow, DigitCount;
    ops' := ops;
    var num: nat, t: nat := i, 0;
    while num != 0
      invariant t + DigitCount(num, n) == DigitCount(i, n) <= len
      invariant |ops'| == len
      invariant ops'[len - t..] == target[len - t..]
      invariant ops'[..len - t] == ops[..len - t]
      invariant target[..len - t] == Written(num, len - t, valid, fill)
      decreases DigitCount(num, n)
    {
      DigitCountZero(num, n);
      WriteStep(target, ops, ops', num, t, len, valid, fill);
      ops' := ops'[len - 1 - t := valid[Low(num, n)]];
      num := Drop(num, n);
      t := t + 1;
    }
    DigitCountZero(num, n);
    WriteDone(target, ops, ops', last, i, t, len, valid, fill);
  }

  /** Once the digits run out, the slots left of them still hold the fill, as they should. */
  lemma WriteDone(target: string, ops: string, cur: string, last: nat, i: nat, t: nat, len: nat, valid: seq<char>, fill: char)
    requires |valid| >= 2 && last <= i && t == DigitCount(i, |valid|) && t <= len
    requires |cur| == len && |target| == len && ops == Written(last, len, valid, fill)
    requires cur[len - t..] == target[len - t..] && cur[..len - t] == ops[..len - t]
    requires target[..len - t] == Written(0, len - t, valid, fill)
    ensures cur == target
  {
    DigitCountMono(last, i, |valid|);
    WrittenShort(last, len, t, valid, fill);
    WrittenZero(len - t, valid, fill);
    assert cur == cur[..len - t] + cur[len - t..];
    assert target == target[..len - t] + target[len - t..];
  }

  /** The lowest base-`n` digit of `num`. */
  function Low(num: nat, n: nat): (d: nat)
    requires n >= 2
    ensures d < n
  {
    num % n
  }

  /** `num` with its lowest base-`n` digit removed. */
  function Drop(num: nat, n: nat): nat
    requires n >= 2
  {
    num / n
  }

  /** Writing the lowest digit of `num` into slot `len - 1 - t` extends the written suffix by one. */
  lemma WriteStep(target: string, ops: string, cur: string, num: nat, t: nat, len: nat, valid: seq<char>, fill: char)
    requires |valid| >= 2 && num != 0 && t < len && |cur| == len && |ops| == len && |target| == len
    requires cur[len - t..] == target[len - t..] && cur[..len - t] == ops[..len - t]
    requires target[..len - t] == Written(num, len - t, valid, fill)
    ensures cur[len - 1 - t := valid[num % |valid|]][len - (t + 1)..] == target[len - (t + 1)..]
    ensures cur[len - 1 - t := valid[num % |valid|]][..len - (t + 1)] == ops[..len - (t + 1)]
    ensures target[..len - (t + 1)] == Written(num / |valid|, len - (t + 1), valid, fill)
    ensures DigitCount(num, |valid|) == DigitCount(num / |valid|, |valid|) + 1
  {
    WrittenPeel(num, len - t, valid, fill);
    assert target[..len - t - 1] == Written(num, len - t, valid, fill)[..len - t - 1];
    assert target[len - t - 1] == valid[num % |valid|];
    var c := cur[len - 1 - t := valid[num % |valid|]];
    assert c[len - (t + 1)..] == [target[len - t - 1]] + target[len - t..];
    assert target[len - (t + 1)..] == [target[len - t - 1]] + target[len - t..];
  }

  /**
   * `CanEquationBeSolved` as the program writes it: the string starts as
   * `'\0'` characters, so a slot left of the highest digit skips its number
   * where the first operator was meant.
   */
  method CanEquationBeSolvedAsWritten(test: nat, numbers: seq<int>, valid: seq<char>) returns (result: bool)
    requires |numbers| >= 1 && |valid| >= 2
    ensures result <==> exists i :: 0 <= i < Pow(|valid|, |numbers| - 1) && Matches(test, numbers, valid, '\0', i)
  {
    result := Search(test, numbers, valid, '\0');
  }

  /** The line can be made true with operators from `valid`. */
  ghost predicate Solvable(test: nat, numbers: seq<int>, valid: seq<char>)
    requires |numbers| >= 1
  {
    exists ops: string :: |ops| == |numbers| - 1 && (forall j :: 0 <= j < |ops| ==> ops[j] in valid) &&
      Eval(numbers, ops) == test
  }

  /** A match found with the first operator as fill is a solution. */
  lemma MatchSolves(test: nat, numbers: seq<int>, valid: seq<char>, i: nat)
    requires |numbers| >= 1 && |valid| >= 2 && Matches(test, numbers, valid, valid[0], i)
    ensures Solvable(test, numbers, valid)
  {
    WrittenOver(i, |numbers| - 1, valid);
    var ops := Written(i, |numbers| - 1, valid, valid[0]);
    assert |ops| == |numbers| - 1 && (forall j :: 0 <= j < |ops| ==> ops[j] in valid) && Eval(numbers, ops) == test;
  }

  /** Every solution is found at some index below N^(k-1) with the first operator as fill. */
  lemma SolutionIndex(test: nat, numbers: seq<int>, valid: seq<char>) returns (i: nat)
    requires |numbers| >= 1 && |valid| >= 2 && Solvable(test, numbers, valid)
    ensures i < Pow(|valid|, |numbers| - 1) && Matches(test, numbers, valid, valid[0], i)
  {
    var ops: string :| |ops| == |numbers| - 1 && (forall j :: 0 <= j < |ops| ==> ops[j] in valid) &&
                       Eval(numbers, ops) == test;
    hide Eval, Pow, Encode;
    EncodeBound(ops, valid);
    EncodeWritten(ops, valid);
    i := Encode(ops, valid);
  }

  /**
   * `CanEquationBeSolved` with the string first filled with the first
   * operator: true exactly when some choice of operators from `valid` gives
   * the test value.
   */
  method CanEquationBeSolved(test: nat, numbers: seq<int>, valid: seq<char>) returns (result: bool)
    requires |numbers| >= 1 && |valid| >= 2
    ensures result <==> Solvable(test, numbers, valid)
  {
    result := Search(test, numbers, valid, valid[0]);
    if result {
      var i :| 0 <= i < Pow(|valid|, |numbers| - 1) && Matches(test, numbers, valid, valid[0], i);
      MatchSolves(test, numbers, valid, i);
    } else if Solvable(test, numbers, valid) {
      var i := SolutionIndex(test, numbers, valid);
      assert false;
    }
  }

  /** `1 2` with test value 3 is solved by `+`, but the program never tries `+` there. */
  lemma MissedSolution()
    ensures Solvable(3, [1, 2], "+*")
    ensures !exists i :: 0 <= i < Pow(2, 1) && Matches(3, [1, 2], "+*", '\0', i)
  {
    assert [1, 2][..1] == [1];
    assert Eval([1, 2], "+") == 3;
    forall i | 0 <= i < Pow(2, 1)
      ensures !Matches(3, [1, 2], "+*", '\0', i)
    {
      if i == 0 {
        assert Written(0, 1, "+*", '\0') == ['\0'];
      } else {
        assert Written(1, 1, "+*", '\0') == ['*'];
      }
    }
  }

  /** `5 7` with test value 5 has no solution, but index 0 skips the 7 and matches. */
  lemma SpuriousSolution()
    ensures !Solvable(5, [5, 7], "+*")
    ensures Matches(5, [5, 7], "+*", '\0', 0)
  {
    assert [5, 7][..1] == [5];
    assert Written(0, 1, "+*", '\0') == ['\0'];
    forall ops: string | |ops| == 1 && (forall j :: 0 <= j < |ops| ==> ops[j] in "+*")
      ensures Eval([5, 7], ops) != 5
    {
      assert ops[0] in "+*";
    }
  }

  /** More operators can only solve more lines. */
  lemma SolvableWider(test: nat, numbers: seq<int>, valid: seq<char>, wider: seq<char>)
    requires |numbers| >= 1 && Solvable(test, numbers, valid)
    requires forall c :: c in valid ==> c in wider
    ensures Solvable(test, numbers, wider)
  {
    var ops: string :| |ops| == |numbers| - 1 && (forall j :: 0 <= j < |ops| ==> ops[j] in valid) &&
      Eval(numbers, ops) == test;
    assert forall j :: 0 <= j < |ops| ==> ops[j] in wider;
  }

  // ---------------------------------------------------------------------
  // The total

  /** Lines with at least one number, as every line of the input has. */
  predicate NonEmptyLines(data: seq<CalibrationData>)
  {
    forall k :: 0 <= k < |data| ==> |data[k].numbers| >= 1
  }

  /** The sum of the test values of the solvable lines. */
  ghost function Total(data: seq<CalibrationData>, valid: seq<char>): nat
    requires NonEmptyLines(data)
    decreases |data|
  {
    if |data| == 0 then 0
    else
      var d := data[|data| - 1];
      Total(data[..|data| - 1], valid) + (if Solvable(d.testValue, d.numbers, valid) then d.testValue else 0)
  }

  /** `AccumulateValidTestValues`: the test values of the lines the search solves, added up. */
  method AccumulateValidTestValues(data: seq<CalibrationData>, valid: seq<char>) returns (sum: nat)
    requires NonEmptyLines(data) && |valid| >= 2
    ensures sum == Total(data, valid)
  {
    sum := 0;
    var k := 0;
    while k < |data|
      invariant 0 <= k <= |data|
      invariant sum == Total(data[..k], valid)
    {
      assert data[..k + 1][..k] == data[..k];
      var ok := CanEquationBeSolved(data[k].testValue, data[k].numbers, valid);
      if ok {
        sum := sum + data[k].testValue;
      }
      k := k + 1;
    }
    assert data[..k] == data;
  }

  /** Adding `|` to `+` and `*` can only raise the total. */
  lemma {:induction false} Part1WithinPart2(data: seq<CalibrationData>)
    requires NonEmptyLines(data)
    ensures Total(data, "+*") <= Total(data, "+*|")
    decreases |data|
  {
    if |data| > 0 {
      var d := data[|data| - 1];
      Part1WithinPart2(data[..|data| - 1]);
      if Solvable(d.testValue, d.numbers, "+*") {
        SolvableWider(d.testValue, d.numbers, "+*", "+*|");
      }
    }
  }

  method Day7Part1(data: seq<CalibrationData>) returns (sum: nat)
    requires NonEmptyLines(data)
    ensures sum == Total(data, "+*")
  {
    sum := AccumulateValidTestValues(data, "+*");
  }

  method Day7Part2(data: seq<CalibrationData>) returns (sum: nat)
    requires NonEmptyLines(data)
    ensures sum == Total(data, "+*|")
  {
    sum := AccumulateValidTestValues(data, "+*|");
  }

  // ---------------------------------------------------------------------
  // The total as the program computes it

  /** The search as written accepts the line: some index matches with `'\0'` as fill. */
  ghost predicate AcceptedAsWritten(test: nat, numbers: seq<int>, valid: seq<char>)
    requires |numbers| >= 1 && |valid| >= 2
  {
    exists i :: 0 <= i < Pow(|valid|, |numbers| - 1) && Matches(test, numbers, valid, '\0', i)
  }

  /** The sum of the test values of the lines the search as written accepts. */
  ghost function TotalAsWritten(data: seq<CalibrationData>, valid: seq<char>): nat
    requires NonEmptyLines(data) && |valid| >= 2
    decreases |data|
  {
    if |data| == 0 then 0
    else
      var d := data[|data| - 1];
      TotalAsWritten(data[..|data| - 1], valid) + (if AcceptedAsWritten(d.testValue, d.numbers, valid) then d.testValue else 0)
  }

  /** `AccumulateValidTestValues` as the program runs it, with the `'\0'`-filled search. */
  method AccumulateValidTestValuesAsWritten(data: seq<CalibrationData>, valid: seq<char>) returns (sum: nat)
    requires NonEmptyLines(data) && |valid| >= 2
    ensures sum == TotalAsWritten(data, valid)
  {
    sum := 0;
    var k := 0;
    while k < |data|
      invariant 0 <= k <= |data|
      invariant sum == TotalAsWritten(data[..k], valid)
    {
      assert data[..k + 1][..k] == data[..k];
      var ok := CanEquationBeSolvedAsWritten(data[k].testValue, data[k].numbers, valid);
      if ok {
        sum := sum + data[k].testValue;
      }
      k := k + 1;
    }
    assert data[..k] == data;
  }

  /** The program's part 1 answer. */
  method Day7Part1AsWritten(data: seq<CalibrationData>) returns (sum: nat)
    requires NonEmptyLines(data)
    ensures sum == TotalAsWritten(data, "+*")
  {
    sum := AccumulateValidTestValuesAsWritten(data, "+*");
  }

  /** The program's part 2 answer. */
  method Day7Part2AsWritten(data: seq<CalibrationData>) returns (sum: nat)
    requires NonEmptyLines(data)
    ensures sum == TotalAsWritten(data, "+*|")
  {
    sum := AccumulateValidTestValuesAsWritten(data, "+*|");
  }

  /** On the single line `3: 1 2` the program's part 1 answer is 0 where the intended one is 3. */
  lemma TotalsDiffer()
    ensures TotalAsWritten([CalibrationData(3, [1, 2])], "+*") == 0
    ensures Total([CalibrationData(3, [1, 2])], "+*") == 3
  {
    var data := [CalibrationData(3, [1, 2])];
    assert data[..0] == [];
    MissedSolution();
  }
}
