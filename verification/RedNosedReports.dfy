/**
 * 2024 day 2: a report is safe when its levels all rise or all fall, by 1
 * to 3 at each step; with the problem dampener a report also counts when
 * removing one level makes it safe.
 */
module RedNosedReports {
  /** Every step from one level to the next falls by 1..3. */
  predicate AllDecreasing(r: seq<int>)
  {
    forall i :: 1 <= i < |r| ==> 1 <= r[i - 1] - r[i] <= 3
  }

  /** Every step from one level to the next rises by 1..3. */
  predicate AllIncreasing(r: seq<int>)
  {
    forall i :: 1 <= i < |r| ==> 1 <= r[i] - r[i - 1] <= 3
  }

  predicate Safe(r: seq<int>)
  {
    AllDecreasing(r) || AllIncreasing(r)
  }

  /** The report with the level at `k` taken out. */
  function Without(r: seq<int>, k: nat): (w: seq<int>)
    requires k < |r|
    ensures |w| == |r| - 1
    ensures forall i :: 0 <= i < |w| ==> w[i] == r[if i < k then i else i + 1]
  {
    r[..k] + r[k + 1..]
  }

  /** The steps before position `n` all fall by 1..3, or all rise by 1..3. */
  predicate DecreasingBefore(r: seq<int>, n: nat)
  {
    forall i :: 1 <= i < n && i < |r| ==> 1 <= r[i - 1] - r[i] <= 3
  }

  predicate IncreasingBefore(r: seq<int>, n: nat)
  {
    forall i :: 1 <= i < n && i < |r| ==> 1 <= r[i] - r[i - 1] <= 3
  }

  lemma BeforeStep(r: seq<int>, n: nat)
    requires 1 <= n < |r|
    ensures DecreasingBefore(r, n + 1) <==> DecreasingBefore(r, n) && 1 <= r[n - 1] - r[n] <= 3
    ensures IncreasingBefore(r, n + 1) <==> IncreasingBefore(r, n) && 1 <= r[n] - r[n - 1] <= 3
  {
  }

  lemma BeforeAll(r: seq<int>, n: nat)
    requires n >= |r|
    ensures DecreasingBefore(r, n) <==> AllDecreasing(r)
    ensures IncreasingBefore(r, n) <==> AllIncreasing(r)
  {
  }

  /** The two flags of the program, both and-ed over every step. */
  method IsSafe(r: seq<int>) returns (safe: bool)
    ensures safe <==> Safe(r)
    ensures |r| <= 1 ==> safe
  {
    var isDecreasing, isIncreasing := true, true;
    var idx := 1;
    while idx < |r|
      invariant 1 <= idx
      invariant idx <= |r| || idx == 1
      invariant isDecreasing <==> DecreasingBefore(r, idx)
      invariant isIncreasing <==> IncreasingBefore(r, idx)
    {
      BeforeStep(r, idx);
      var diff := r[idx - 1] - r[idx];
      isDecreasing := isDecreasing && diff >= 1 && diff <= 3;
      var diff2 := r[idx] - r[idx - 1];
      isIncreasing := isIncreasing && diff2 >= 1 && diff2 <= 3;
      idx := idx + 1;
    }
    BeforeAll(r, idx);
    safe := isDecreasing || isIncreasing;
  }

  /** The position list `0, 1, ..., n - 1` with `k` erased. */
  function IndicesWithout(n: nat, k: nat): (ix: seq<nat>)
    requires k < n
    ensures |ix| == n - 1
    ensures forall i :: 0 <= i < |ix| ==> ix[i] == if i < k then i else i + 1
  {
    seq(n - 1, i requires 0 <= i < n - 1 => if i < k then i else i + 1)
  }

  /**
   * The check with one position skipped, as the program does it: the
   * positions are listed, the one to skip erased, and the same two flags
   * computed over neighbouring positions of that list.  Skipping a position
   * past the end erases past the end of the list, outside what the program
   * handles.
   */
  method IsSafeWithout(r: seq<int>, k: nat) returns (safe: bool)
    requires k < |r|
    ensures safe <==> Safe(Without(r, k))
  {
    var ix := IndicesWithout(|r|, k);
    var w := Without(r, k);
    var isDecreasing, isIncreasing := true, true;
    var idx := 1;
    while idx < |ix|
      invariant 1 <= idx
      invariant idx <= |ix| || idx == 1
      invariant isDecreasing <==> DecreasingBefore(w, idx)
      invariant isIncreasing <==> IncreasingBefore(w, idx)
    {
      BeforeStep(w, idx);
      var previous := r[ix[idx - 1]];
      var next := r[ix[idx]];
      assert previous == w[idx - 1] && next == w[idx];
      var diff := previous - next;
      isDecreasing := isDecreasing && diff >= 1 && diff <= 3;
      var diff2 := next - previous;
      isIncreasing := isIncreasing && diff2 >= 1 && diff2 <= 3;
      idx := idx + 1;
    }
    BeforeAll(w, idx);
    safe := isDecreasing || isIncreasing;
  }

  /** Some single removal makes the report safe. */
  predicate SafeAfterOneRemoval(r: seq<int>)
  {
    exists k :: 0 <= k < |r| && Safe(Without(r, k))
  }

  /** The dampener: try each position in turn and stop at the first removal that makes the report safe. */
  method IsSafeDampened(r: seq<int>) returns (safe: bool)
    ensures safe <==> SafeAfterOneRemoval(r)
  {
    safe := false;
    var idx := 0;
    while idx < |r| && !safe
      invariant 0 <= idx <= |r|
      invariant safe <==> exists k :: 0 <= k < idx && Safe(Without(r, k))
    {
      var s := IsSafeWithout(r, idx);
      if s {
        safe := true;
      }
      idx := idx + 1;
    }
  }

  /** A safe report with at least one level stays safe with its first level removed, so the dampener never loses a safe report. */
  lemma SafeKeepsSafeWithoutFirst(r: seq<int>)
    requires Safe(r) && |r| >= 1
    ensures SafeAfterOneRemoval(r)
  {
    var w := Without(r, 0);
    assert forall i :: 0 <= i < |w| ==> w[i] == r[i + 1];
    assert Safe(w);
  }

  function CountSafe(reports: seq<seq<int>>): nat
  {
    if |reports| == 0 then 0 else (if Safe(reports[0]) then 1 else 0) + CountSafe(reports[1..])
  }

  function CountDampened(reports: seq<seq<int>>): nat
  {
    if |reports| == 0 then 0
    else (if Safe(reports[0]) || SafeAfterOneRemoval(reports[0]) then 1 else 0) + CountDampened(reports[1..])
  }

  /** Part 1 is at most part 2, which is at most the number of reports. */
  lemma {:induction false} PartsOrdered(reports: seq<seq<int>>)
    ensures CountSafe(reports) <= CountDampened(reports) <= |reports|
    decreases |reports|
  {
    if |reports| > 0 {
      PartsOrdered(reports[1..]);
    }
  }

  /** Part 1, counting as `count_if` does. */
  method Part1(reports: seq<seq<int>>) returns (n: nat)
    ensures n == CountSafe(reports)
  {
    n := 0;
    var i := |reports|;
    while i > 0
      invariant 0 <= i <= |reports|
      invariant n == CountSafe(reports[i..])
    {
      i := i - 1;
      var s := IsSafe(reports[i]);
      assert reports[i..][1..] == reports[i + 1..];
      if s {
        n := n + 1;
      }
    }
  }

  /** Part 2: a report counts when it is safe or the dampener makes it safe. */
  method Part2(reports: seq<seq<int>>) returns (n: nat)
    ensures n == CountDampened(reports)
  {
    n := 0;
    var i := |reports|;
    while i > 0
      invariant 0 <= i <= |reports|
      invariant n == CountDampened(reports[i..])
    {
      i := i - 1;
      var s := IsSafe(reports[i]);
      var d := IsSafeDampened(reports[i]);
      assert reports[i..][1..] == reports[i + 1..];
      if s || d {
        n := n + 1;
      }
    }
  }
}
