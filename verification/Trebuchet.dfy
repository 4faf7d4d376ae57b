/**
 * 2023 day 1: the calibration value of a line is the number formed by its
 * first and its last decimal digit, and the document's value is the sum
 * over its whitespace-separated words.
 */
module Trebuchet {
  import opened Common
  import opened Decimal

  predicate HasDigit(s: string)
  {
    exists i :: 0 <= i < |s| && IsDigit(s[i])
  }

  /** Position of the first digit, where `find_first_of` stops. */
  function FirstDigitPos(s: string): (i: nat)
    requires HasDigit(s)
    ensures i < |s| && IsDigit(s[i])
    ensures forall k :: 0 <= k < i ==> !IsDigit(s[k])
  {
    if IsDigit(s[0]) then 0
    else
      var w :| 0 <= w < |s| && IsDigit(s[w]);
      assert IsDigit(s[1..][w - 1]);
      1 + FirstDigitPos(s[1..])
  }

  /** Position of the last digit, where `find_last_of` stops. */
  function LastDigitPos(s: string): (j: nat)
    requires HasDigit(s)
    ensures j < |s| && IsDigit(s[j])
    ensures forall k :: j < k < |s| ==> !IsDigit(s[k])
  {
    if IsDigit(s[|s| - 1]) then |s| - 1
    else
      var w :| 0 <= w < |s| && IsDigit(s[w]);
      assert IsDigit(s[..|s| - 1][w]);
      LastDigitPos(s[..|s| - 1])
  }

  /** The calibration value of one word; a word without a digit is outside what the program handles. */
  function LineValue(s: string): (r: nat)
    requires HasDigit(s)
    ensures r <= 99
  {
    10 * DigitValue(s[FirstDigitPos(s)]) + DigitValue(s[LastDigitPos(s)])
  }

  /**
   * The value is ten times the digit that no digit precedes plus the digit
   * that no digit follows, whichever positions those are.
   */
  lemma LineValueOfFirstAndLast(s: string, i: nat, j: nat)
    requires i < |s| && j < |s| && IsDigit(s[i]) && IsDigit(s[j])
    requires forall k :: 0 <= k < i ==> !IsDigit(s[k])
    requires forall k :: j < k < |s| ==> !IsDigit(s[k])
    ensures HasDigit(s) && LineValue(s) == 10 * DigitValue(s[i]) + DigitValue(s[j])
  {
    var f, l := FirstDigitPos(s), LastDigitPos(s);
    assert IsDigit(s[f]) && IsDigit(s[l]);
  }

  /** A word with a single digit `d` is worth `11 * d`. */
  lemma LineValueSingleDigit(s: string, i: nat)
    requires i < |s| && IsDigit(s[i])
    requires forall k :: 0 <= k < |s| && k != i ==> !IsDigit(s[k])
    ensures HasDigit(s) && LineValue(s) == 11 * DigitValue(s[i])
  {
    LineValueOfFirstAndLast(s, i, i);
  }

  /** The `accumulate` over the words, folded from the front. */
  function CalibrationSum(words: seq<string>): (r: int)
    requires forall k :: 0 <= k < |words| ==> HasDigit(words[k])
  {
    if |words| == 0 then 0 else LineValue(words[0]) + CalibrationSum(words[1..])
  }

  /** The document's value is the sum of the word values, each at most 99. */
  lemma {:induction false} CalibrationSumBounds(words: seq<string>)
    requires forall k :: 0 <= k < |words| ==> HasDigit(words[k])
    ensures 0 <= CalibrationSum(words) <= 99 * |words|
    decreases |words|
  {
    if |words| > 0 {
      CalibrationSumBounds(words[1..]);
    }
  }

  /** Splitting the document splits the sum. */
  lemma {:induction false} CalibrationSumAppend(a: seq<string>, b: seq<string>)
    requires forall k :: 0 <= k < |a| ==> HasDigit(a[k])
    requires forall k :: 0 <= k < |b| ==> HasDigit(b[k])
    ensures forall k :: 0 <= k < |a + b| ==> HasDigit((a + b)[k])
    ensures CalibrationSum(a + b) == CalibrationSum(a) + CalibrationSum(b)
    decreases |a|
  {
    assert forall k :: 0 <= k < |a + b| ==> HasDigit((a + b)[k]) by {
      forall k | 0 <= k < |a + b| ensures HasDigit((a + b)[k]) {
        if k < |a| { assert (a + b)[k] == a[k]; } else { assert (a + b)[k] == b[k - |a|]; }
      }
    }
    if |a| > 0 {
      assert (a + b)[1..] == a[1..] + b;
      CalibrationSumAppend(a[1..], b);
    } else {
      assert a + b == b;
    }
  }
}
