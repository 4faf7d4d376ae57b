/**
 * Chronospatial Computer (2024, day 17), as the program was decoded by
 * hand: each pass of the loop emits one 3-bit value computed from register
 * A and then divides A by 8.  Part 1 runs it from a seed; part 2 rebuilds,
 * one octal digit at a time from the last output backwards, the values of A
 * that make the program print a given list, and takes the least.
 */
module Chronospatial {

  // ---------------------------------------------------------------------
  // Arithmetic

  function Pow8(n: nat): (p: nat)
    ensures p >= 1
  {
    if n == 0 then 1 else 8 * Pow8(n - 1)
  }

  /** `a / 2^b`, the exact shift right by `b` bits. */
  function Shr(a: nat, b: nat): nat
  {
    if b == 0 then a else Shr(a / 2, b - 1)
  }

  /** `a / 8^k`: `a` with its `k` lowest octal digits dropped. */
  function Shift8(a: nat, k: nat): nat
  {
    if k == 0 then a else Shift8(a / 8, k - 1)
  }

  /** Bitwise exclusive or of two naturals, bit by bit from the lowest. */
  function Xor(a: nat, b: nat): nat
    decreases a + b
  {
    if a == 0 then b
    else if b == 0 then a
    else 2 * Xor(a / 2, b / 2) + (if a % 2 == b % 2 then 0 else 1)
  }

  /** Shifting with `k` digits first and one more after is shifting by `k + 1`. */
  lemma {:induction false} Shift8Last(a: nat, k: nat)
    ensures Shift8(Shift8(a, k), 1) == Shift8(a, k + 1)
    decreases k
  {
    if k > 0 {
      Shift8Last(a / 8, k - 1);
    }
  }

  /** Dropping `k` octal digits leaves nothing exactly when `a < 8^k`. */
  lemma {:induction false} Shift8Zero(a: nat, k: nat)
    ensures Shift8(a, k) == 0 <==> a < Pow8(k)
    decreases k
  {
    if k > 0 {
      Shift8Zero(a / 8, k - 1);
    }
  }

  // ---------------------------------------------------------------------
  // Part 1

  /**
   * `CalculateRegisterB`: register B after one pass of the loop started
   * with A, the shift `A / 2^B` taken exactly.
   */
  function RegisterB(a: nat): nat
  {
    var b := Xor(a % 8, 5);
    var c := Shr(a, b);
    Xor(Xor(b, c), 6)
  }

  /**
   * `Day17Part1`: the values the program prints from the seed.  There is one
   * per octal digit of the seed (none for 0), each in `0..7`, and the `k`-th
   * is the low three bits of register B computed from `seed / 8^k`.
   */
  method Day17Part1(seed: nat) returns (out: seq<int>)
    ensures seed < Pow8(|out|) && (|out| > 0 ==> Pow8(|out| - 1) <= seed)
    ensures forall k :: 0 <= k < |out| ==> 0 <= out[k] < 8 && out[k] == RegisterB(Shift8(seed, k)) % 8
  {
    var a := seed;
    out := [];
    while a != 0
      invariant a == Shift8(seed, |out|)
      invariant |out| > 0 ==> Pow8(|out| - 1) <= seed
      invariant forall k :: 0 <= k < |out| ==> 0 <= out[k] < 8 && out[k] == RegisterB(Shift8(seed, k)) % 8
      decreases a
    {
      var b := a % 8;
      b := Xor(b, 5);
      var c := Shr(a, b);
      Shift8Zero(seed, |out|);
      Shift8Last(seed, |out|);
      a := a / 8;
      b := Xor(b, c);
      b := Xor(b, 6);
      out := out + [b % 8];
    }
    Shift8Zero(seed, |out|);
  }

  // ---------------------------------------------------------------------
  // Part 2

  predicate Ascending(s: seq<nat>)
  {
    forall i, j :: 0 <= i < j < |s| ==> s[i] < s[j]
  }

  /** `std::binary_search` over an ascending list: whether `x` is in it. */
  method BinarySearch(s: seq<nat>, x: nat) returns (found: bool)
    requires Ascending(s)
    ensures found <==> x in s
  {
    var lo, hi := 0, |s|;
    while lo < hi
      invariant 0 <= lo <= hi <= |s|
      invariant forall i :: 0 <= i < lo ==> s[i] < x
      invariant forall i :: hi <= i < |s| ==> x < s[i]
      decreases hi - lo
    {
      var mid := (lo + hi) / 2;
      if s[mid] < x {
        lo := mid + 1;
      } else if x < s[mid] {
        hi := mid;
      } else {
        return true;
      }
    }
    return false;
  }

  /** `x` extends a value of `all` by one octal digit and makes the program print `t` first. */
  predicate Qualifies(all: seq<nat>, x: nat, t: int)
  {
    RegisterB(x) % 8 == t && x / 8 in all
  }

  /** The qualifying values in `lo .. hi - 1`, in order. */
  function Range(all: seq<nat>, t: int, lo: nat, hi: nat): seq<nat>
    decreases hi - lo
  {
    if hi <= lo then []
    else Range(all, t, lo, hi - 1) + (if Qualifies(all, hi - 1, t) then [hi - 1] else [])
  }

  /** The qualifying values among `8 val .. 8 val + 7`, the starts grown from `val`. */
  function Block(all: seq<nat>, val: nat, t: int): seq<nat>
  {
    Range(all, t, 8 * val, 8 * val + 8)
  }

  /** The candidates grown from the first `n` values of `all`. */
  function Grown(all: seq<nat>, t: int, n: nat): seq<nat>
    requires n <= |all|
  {
    if n == 0 then [] else Grown(all, t, n - 1) + Block(all, all[n - 1], t)
  }

  /** One pass of the outer loop of `Day17Part2`: every previous value grown by the digit for `t`. */
  function Step(prev: seq<nat>, t: int): seq<nat>
  {
    Grown(prev, t, |prev|)
  }

  /** The list after the targets `ts`, taken in order. */
  function Search(prev: seq<nat>, ts: seq<int>): seq<nat>
    decreases |ts|
  {
    if |ts| == 0 then prev else Step(Search(prev, ts[..|ts| - 1]), ts[|ts| - 1])
  }

  /** Two ascending lists, every value of the first below every value of the second. */
  lemma ConcatAscending(a: seq<nat>, b: seq<nat>)
    requires Ascending(a) && Ascending(b)
    requires forall x, y :: x in a && y in b ==> x < y
    ensures Ascending(a + b)
  {
    forall i, j | 0 <= i < j < |a + b|
      ensures (a + b)[i] < (a + b)[j]
    {
      if j < |a| {
        assert (a + b)[i] == a[i] && (a + b)[j] == a[j];
      } else if i < |a| {
        assert (a + b)[i] == a[i] && (a + b)[j] == b[j - |a|];
        assert a[i] in a && b[j - |a|] in b;
      } else {
        assert (a + b)[i] == b[i - |a|] && (a + b)[j] == b[j - |a|];
      }
    }
  }

  lemma {:induction false} RangeMeans(all: seq<nat>, t: int, lo: nat, hi: nat)
    ensures forall x :: x in Range(all, t, lo, hi) <==> lo <= x < hi && Qualifies(all, x, t)
    ensures Ascending(Range(all, t, lo, hi))
    decreases hi - lo
  {
    hide RegisterB;
    if lo < hi {
      RangeMeans(all, t, lo, hi - 1);
      var last := if Qualifies(all, hi - 1, t) then [hi - 1] else [];
      assert Range(all, t, lo, hi) == Range(all, t, lo, hi - 1) + last;
      ConcatAscending(Range(all, t, lo, hi - 1), last);
    }
  }

  lemma BlockMeans(all: seq<nat>, val: nat, t: int)
    ensures forall x :: x in Block(all, val, t) <==> x / 8 == val && Qualifies(all, x, t)
    ensures Ascending(Block(all, val, t))
  {
    RangeMeans(all, t, 8 * val, 8 * val + 8);
  }

  lemma {:induction false} GrownMeans(all: seq<nat>, t: int, n: nat)
    requires n <= |all|
    ensures forall x :: x in Grown(all, t, n) <==> (exists i :: 0 <= i < n && all[i] == x / 8) && Qualifies(all, x, t)
    decreases n
  {
    if n > 0 {
      GrownMeans(all, t, n - 1);
      BlockMeans(all, all[n - 1], t);
      forall x | (exists i :: 0 <= i < n && all[i] == x / 8) && Qualifies(all, x, t)
        ensures x in Grown(all, t, n)
      {
        var i :| 0 <= i < n && all[i] == x / 8;
      }
    }
  }

  /** The next list holds exactly the values one digit below a previous value that print `t` first. */
  lemma StepMeans(prev: seq<nat>, t: int)
    ensures forall x :: x in Step(prev, t) <==> x / 8 in prev && RegisterB(x) % 8 == t
  {
    GrownMeans(prev, t, |prev|);
    forall x
      ensures x / 8 in prev <==> exists i :: 0 <= i < |prev| && prev[i] == x / 8
    {
      if x / 8 in prev {
        var i :| 0 <= i < |prev| && prev[i] == x / 8;
      }
    }
  }

  lemma {:induction false} GrownAscending(all: seq<nat>, t: int, n: nat)
    requires n <= |all| && Ascending(all)
    ensures Ascending(Grown(all, t, n))
    ensures n > 0 ==> forall i :: 0 <= i < |Grown(all, t, n)| ==> Grown(all, t, n)[i] < 8 * all[n - 1] + 8
    decreases n
  {
    if n > 0 {
      GrownAscending(all, t, n - 1);
      BlockMeans(all, all[n - 1], t);
      var a, b := Grown(all, t, n - 1), Block(all, all[n - 1], t);
      assert n > 1 ==> all[n - 2] < all[n - 1];
      assert forall y :: y in b ==> 8 * all[n - 1] <= y < 8 * all[n - 1] + 8;
      assert forall x :: x in a ==> x < 8 * all[n - 1];
      ConcatAscending(a, b);
      assert forall i :: 0 <= i < |a + b| ==> (a + b)[i] in a + b;
    }
  }

  /** The list stays strictly ascending, as `binary_search` needs. */
  lemma StepAscending(prev: seq<nat>, t: int)
    requires Ascending(prev)
    ensures Ascending(Step(prev, t))
  {
    GrownAscending(prev, t, |prev|);
  }

  lemma {:induction false} SearchAscending(prev: seq<nat>, ts: seq<int>)
    requires Ascending(prev)
    ensures Ascending(Search(prev, ts))
    decreases |ts|
  {
    if |ts| > 0 {
      SearchAscending(prev, ts[..|ts| - 1]);
      StepAscending(Search(prev, ts[..|ts| - 1]), ts[|ts| - 1]);
    }
  }

  /**
   * `x` lies `|ts|` octal digits below a value of `prev`, and the program
   * run from `x` prints the targets in reverse: the `k`-th value printed is
   * `ts[|ts| - 1 - k]`.
   */
  predicate Produces(prev: seq<nat>, ts: seq<int>, x: nat)
  {
    Shift8(x, |ts|) in prev && forall k :: 0 <= k < |ts| ==> RegisterB(Shift8(x, k)) % 8 == ts[|ts| - 1 - k]
  }

  /** Producing the targets is producing all but the last from `x / 8` and the last from `x`. */
  lemma ProducesStep(prev: seq<nat>, ts: seq<int>, x: nat)
    requires |ts| > 0
    ensures Produces(prev, ts, x) <==> Produces(prev, ts[..|ts| - 1], x / 8) && RegisterB(x) % 8 == ts[|ts| - 1]
  {
    hide RegisterB;
    var n, front := |ts|, ts[..|ts| - 1];
    assert Shift8(x, n) == Shift8(x / 8, n - 1);
    if Produces(prev, ts, x) {
      forall k | 0 <= k < n - 1
        ensures RegisterB(Shift8(x / 8, k)) % 8 == front[|front| - 1 - k]
      {
        assert Shift8(x, k + 1) == Shift8(x / 8, k);
      }
      assert RegisterB(Shift8(x, 0)) % 8 == ts[n - 1];
    }
    if Produces(prev, front, x / 8) && RegisterB(x) % 8 == ts[n - 1] {
      forall k | 0 <= k < n
        ensures RegisterB(Shift8(x, k)) % 8 == ts[n - 1 - k]
      {
        if k > 0 {
          assert RegisterB(Shift8(x / 8, k - 1)) % 8 == front[|front| - 1 - (k - 1)];
        }
      }
    }
  }

  /** The list after all targets holds exactly the values that produce them. */
  lemma {:induction false} SearchMeans(prev: seq<nat>, ts: seq<int>)
    ensures forall x :: x in Search(prev, ts) <==> Produces(prev, ts, x)
    decreases |ts|
  {
    if |ts| > 0 {
      var front := ts[..|ts| - 1];
      SearchMeans(prev, front);
      StepMeans(Search(prev, front), ts[|ts| - 1]);
      forall x: nat
        ensures x in Search(prev, ts) <==> Produces(prev, ts, x)
      {
        ProducesStep(prev, ts, x);
      }
    }
  }

  /** The candidates `8 val .. 8 val + 7` of one previous value, as the innermost loop finds them. */
  method BlockLoop(all: seq<nat>, val: nat, t: int) returns (found: seq<nat>)
    requires Ascending(all)
    ensures found == Block(all, val, t)
  {
    found := [];
    var start := val * 8;
    var end := 8 * (val + 1);
    while start < end
      invariant 8 * val <= start <= end
      invariant found == Range(all, t, 8 * val, start)
      decreases end - start
    {
      var known := BinarySearch(all, start / 8);
      if RegisterB(start) % 8 == t && known {
        found := found + [start];
      }
      start := start + 1;
    }
  }

  /** One pass of the outer loop: the previous values in order. */
  method StepLoop(prev: seq<nat>, t: int) returns (vec: seq<nat>)
    requires Ascending(prev)
    ensures vec == Step(prev, t)
  {
    vec := [];
    var i := 0;
    while i < |prev|
      invariant 0 <= i <= |prev|
      invariant vec == Grown(prev, t, i)
    {
      var block := BlockLoop(prev, prev[i], t);
      vec := vec + block;
      i := i + 1;
    }
  }

  /** `std::min_element`, dereferenced: the least value of a non-empty list. */
  method MinElement(s: seq<nat>) returns (m: nat)
    requires |s| > 0
    ensures m in s && forall y :: y in s ==> m <= y
  {
    m := s[0];
    var i := 1;
    while i < |s|
      invariant 1 <= i <= |s|
      invariant m in s[..i] && forall j :: 0 <= j < i ==> m <= s[j]
    {
      if s[i] < m {
        m := s[i];
      }
      assert s[..i + 1] == s[..i] + [s[i]];
      i := i + 1;
    }
    assert s[..i] == s;
  }

  /**
   * `Day17Part2`: from the previous values (ascending, as the single `3` of
   * the program is), the least value that produces the targets.  The
   * program dereferences the least element, so the final list must not be
   * empty.
   */
  method Day17Part2(ts: seq<int>, prev: seq<nat>) returns (least: nat)
    requires Ascending(prev) && |Search(prev, ts)| > 0
    ensures Produces(prev, ts, least)
    ensures forall x: nat :: Produces(prev, ts, x) ==> least <= x
  {
    var previous := prev;
    var i := 0;
    while i < |ts|
      invariant 0 <= i <= |ts|
      invariant previous == Search(prev, ts[..i]) && Ascending(previous)
    {
      assert ts[..i + 1][..i] == ts[..i];
      StepAscending(previous, ts[i]);
      previous := StepLoop(previous, ts[i]);
      i := i + 1;
    }
    assert ts[..i] == ts;
    SearchMeans(prev, ts);
    least := MinElement(previous);
  }
}
