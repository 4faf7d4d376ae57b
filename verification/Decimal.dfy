/**
 * Decimal digits and the integer conversions the puzzle programs use:
 * `std::stoi` / `std::stoll` (leading white space, an optional sign, then
 * the longest run of digits; no digit at all throws) and the printing of a
 * number in decimal.
 */
module Decimal {
  import opened Common

  predicate IsDigit(c: char)
  {
    '0' <= c <= '9'
  }

  function DigitValue(c: char): (d: nat)
    requires IsDigit(c)
    ensures d < 10
  {
    c as nat - '0' as nat
  }

  function DigitChar(d: nat): (c: char)
    requires d < 10
    ensures IsDigit(c) && DigitValue(c) == d
  {
    ('0' as nat + d) as char
  }

  predicate AllDigits(s: string)
  {
    forall k :: 0 <= k < |s| ==> IsDigit(s[k])
  }

  /** The value of a run of digits, most significant first. */
  function DigitsValue(s: string): nat
    requires AllDigits(s)
    decreases |s|
  {
    if |s| == 0 then 0 else 10 * DigitsValue(s[..|s| - 1]) + DigitValue(s[|s| - 1])
  }

  /** `n` written in decimal, without leading zeros. */
  function ShowNat(n: nat): (s: string)
    ensures |s| >= 1 && AllDigits(s)
    decreases n
  {
    if n < 10 then [DigitChar(n)] else ShowNat(n / 10) + [DigitChar(n % 10)]
  }

  /** Reading back what was written gives the number. */
  lemma {:induction false} ShowNatValue(n: nat)
    ensures DigitsValue(ShowNat(n)) == n
    decreases n
  {
    if n >= 10 {
      ShowNatValue(n / 10);
      var s := ShowNat(n);
      assert s[..|s| - 1] == ShowNat(n / 10);
    }
  }

  /** The white space `std::isspace` accepts. */
  predicate IsSpace(c: char)
  {
    c == ' ' || c == '\t' || c == '\n' || c == '\r' || c as int == 11 || c as int == 12
  }

  /** The first position at or after `i` that is not white space. */
  function SkipSpaces(s: string, i: nat): (j: nat)
    requires i <= |s|
    ensures i <= j <= |s|
    ensures j < |s| ==> !IsSpace(s[j])
    ensures forall k :: i <= k < j ==> IsSpace(s[k])
    decreases |s| - i
  {
    if i < |s| && IsSpace(s[i]) then SkipSpaces(s, i + 1) else i
  }

  /** The end of the run of digits starting at `i`. */
  function DigitRunEnd(s: string, i: nat): (j: nat)
    requires i <= |s|
    ensures i <= j <= |s|
    ensures j < |s| ==> !IsDigit(s[j])
    ensures AllDigits(s[i..j])
    decreases |s| - i
  {
    if i < |s| && IsDigit(s[i]) then
      var j := DigitRunEnd(s, i + 1);
      assert s[i..j] == [s[i]] + s[i + 1..j];
      j
    else i
  }

  /**
   * `std::stoi` in unbounded integers: `None` where it throws
   * `invalid_argument`, because no digit follows the white space and sign.
   */
  function Stoi(s: string): Option<int>
  {
    var i := SkipSpaces(s, 0);
    var negative := i < |s| && s[i] == '-';
    var start := if i < |s| && (s[i] == '-' || s[i] == '+') then i + 1 else i;
    var end := DigitRunEnd(s, start);
    if end == start then None
    else
      var v: int := DigitsValue(s[start..end]);
      Some(if negative then -v else v)
  }

  /** `n` written in decimal, with a minus sign when negative. */
  function ShowInt(n: int): (s: string)
    ensures |s| >= 1
  {
    if n < 0 then "-" + ShowNat(-n) else ShowNat(n)
  }

  /** A printed number holds only digits and, in front, a minus sign. */
  lemma ShowIntSymbols(n: int)
    ensures forall j :: 0 <= j < |ShowInt(n)| ==> ShowInt(n)[j] == '-' || IsDigit(ShowInt(n)[j])
  {
    var m := if n < 0 then -n else n;
    assert AllDigits(ShowNat(m));
  }

  /** The run of digits starting at `i` in `p + d + rest` is exactly `d`. */
  lemma {:induction false} DigitRunEndOf(p: string, d: string, rest: string, i: nat)
    requires AllDigits(d) && i == |p|
    requires |rest| == 0 || !IsDigit(rest[0])
    ensures DigitRunEnd(p + d + rest, i) == |p| + |d|
    decreases |d|
  {
    var t := p + d + rest;
    if |d| > 0 {
      assert t == (p + [d[0]]) + d[1..] + rest;
      DigitRunEndOf(p + [d[0]], d[1..], rest, i + 1);
    } else {
      assert t == p + rest;
    }
  }

  /** `std::stoi` reads back a printed number, whatever non-digit text follows it. */
  lemma StoiShowInt(n: int, rest: string)
    requires |rest| == 0 || !IsDigit(rest[0])
    ensures Stoi(ShowInt(n) + rest) == Some(n)
  {
    var m := if n < 0 then -n else n;
    var digits := ShowNat(m);
    ShowNatValue(m);
    if n < 0 {
      var t := "-" + digits + rest;
      assert ShowInt(n) + rest == t;
      DigitRunEndOf("-", digits, rest, 1);
      assert t[1..1 + |digits|] == digits;
      StoiAt(t, 1, digits);
    } else {
      var t := [] + digits + rest;
      assert ShowInt(n) + rest == t;
      DigitRunEndOf([], digits, rest, 0);
      assert t[0..|digits|] == digits;
      StoiAt(t, 0, digits);
    }
  }

  /** The reading of `t` when it starts with an optional minus and then the run `digits`. */
  lemma StoiAt(t: string, start: nat, digits: string)
    requires start <= 1 && start + |digits| <= |t| && |digits| >= 1
    requires start == 1 <==> t[0] == '-'
    requires IsDigit(t[start]) && AllDigits(digits)
    requires DigitRunEnd(t, start) == start + |digits| && t[start..start + |digits|] == digits
    ensures var v: int := DigitsValue(digits); Stoi(t) == Some(if start == 1 then -v else v)
  {
    assert !IsSpace(t[0]) && t[0] != '+';
    assert SkipSpaces(t, 0) == 0;
  }

  /** A run of digits on its own is read as its value. */
  lemma StoiDigits(d: string)
    requires AllDigits(d) && |d| >= 1
    ensures Stoi(d) == Some(DigitsValue(d) as int)
  {
    assert !IsSpace(d[0]) && d[0] != '-' && d[0] != '+';
    assert SkipSpaces(d, 0) == 0;
    DigitRunEndOf([], d, [], 0);
    assert [] + d + [] == d && d[0..|d|] == d;
  }

  /** Nothing is read from the empty string. */
  lemma StoiEmpty()
    ensures Stoi("") == None
  {
  }

  /** The first digit at or after `i`, where `std::find_if` with `isdigit` stops. */
  function FindDigit(s: string, i: nat): (j: nat)
    requires i <= |s|
    ensures i <= j <= |s|
    ensures j < |s| ==> IsDigit(s[j])
    ensures forall k :: i <= k < j ==> !IsDigit(s[k])
    decreases |s| - i
  {
    if i < |s| && !IsDigit(s[i]) then FindDigit(s, i + 1) else i
  }

  /** The search stops at the first digit after a stretch of non-digits. */
  lemma {:induction false} FindDigitAt(s: string, i: nat, j: nat)
    requires i <= j <= |s|
    requires forall k :: i <= k < j ==> !IsDigit(s[k])
    requires j == |s| || IsDigit(s[j])
    ensures FindDigit(s, i) == j
    decreases j - i
  {
    if i < j {
      FindDigitAt(s, i + 1, j);
    }
  }

  /** The digit run starting at `i` ends at the first non-digit. */
  lemma {:induction false} DigitRunEndAt(s: string, i: nat, j: nat)
    requires i <= j <= |s|
    requires forall k :: i <= k < j ==> IsDigit(s[k])
    requires j == |s| || !IsDigit(s[j])
    ensures DigitRunEnd(s, i) == j
    decreases j - i
  {
    if i < j {
      DigitRunEndAt(s, i + 1, j);
    }
  }
}
