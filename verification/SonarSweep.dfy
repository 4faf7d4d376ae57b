/**
 * 2021 day 1: count the depth readings larger than the one before, and the
 * same over the sums of three-reading sliding windows.
 */
module SonarSweep {
  /** How many of the positions `1 <= i < n` hold a reading larger than the one before. */
  function Increases(v: seq<int>, n: nat): nat
    requires n <= |v|
  {
    if n <= 1 then 0 else Increases(v, n - 1) + (if v[n - 1] > v[n - 2] then 1 else 0)
  }

  lemma {:induction false} IncreasesBound(v: seq<int>, n: nat)
    requires 1 <= n <= |v|
    ensures Increases(v, n) <= n - 1
    decreases n
  {
    if n > 1 {
      IncreasesBound(v, n - 1);
    }
  }

  /**
   * The `inner_product` of each reading with the one before under `>`,
   * added up.  An empty list is outside what the program handles.
   */
  method CountValueIncrease(v: seq<int>) returns (count: nat)
    requires |v| >= 1
    ensures count == Increases(v, |v|)
    ensures count <= |v| - 1
    ensures |v| == 1 ==> count == 0
  {
    count := 0;
    var i := 1;
    while i < |v|
      invariant 1 <= i <= |v|
      invariant count == Increases(v, i)
    {
      if v[i] > v[i - 1] {
        count := count + 1;
      }
      i := i + 1;
    }
    IncreasesBound(v, |v|);
  }

  /** The sum of the three readings from position `k`. */
  function Window(v: seq<int>, k: nat): int
    requires k + 3 <= |v|
  {
    v[k] + v[k + 1] + v[k + 2]
  }

  /**
   * The running window sums as the program builds them: the first three
   * readings added up, then for each later reading the one three back
   * taken away and the new one added.
   */
  method WindowSums(v: seq<int>) returns (w: seq<int>)
    requires |v| >= 3
    ensures |w| == |v| - 2
    ensures forall k :: 0 <= k < |w| ==> w[k] == Window(v, k)
  {
    var sum := v[0] + v[1] + v[2];
    w := [sum];
    var i := 3;
    while i < |v|
      invariant 3 <= i <= |v|
      invariant |w| == i - 2
      invariant sum == Window(v, i - 3)
      invariant forall k :: 0 <= k < |w| ==> w[k] == Window(v, k)
    {
      sum := sum - v[i - 3];
      sum := sum + v[i];
      w := w + [sum];
      i := i + 1;
    }
  }

  /** Part 2: the increases between consecutive window sums; fewer than three readings is outside what the program handles. */
  method Part2(v: seq<int>) returns (count: nat)
    requires |v| >= 3
    ensures count == WindowIncreases(v, |v|)
    ensures count <= |v| - 3
  {
    var w := WindowSums(v);
    count := CountValueIncrease(w);
    IncreasesOfWindows(v, w, |w|);
  }

  /** How many of the positions `3 <= i < n` hold a reading larger than the one three before. */
  function WindowIncreases(v: seq<int>, n: nat): nat
    requires n <= |v|
  {
    if n <= 3 then 0 else WindowIncreases(v, n - 1) + (if v[n - 1] > v[n - 4] then 1 else 0)
  }

  /**
   * One window's sum exceeds the previous one exactly when the reading it
   * gains exceeds the reading it loses, so the window increases count the
   * readings larger than the one three before.
   */
  lemma {:induction false} IncreasesOfWindows(v: seq<int>, w: seq<int>, m: nat)
    requires |v| >= 3 && |w| == |v| - 2
    requires forall k :: 0 <= k < |w| ==> w[k] == Window(v, k)
    requires 1 <= m <= |w|
    ensures Increases(w, m) == WindowIncreases(v, m + 2)
    decreases m
  {
    if m > 1 {
      IncreasesOfWindows(v, w, m - 1);
      assert w[m - 1] - w[m - 2] == v[m + 1] - v[m - 2];
    }
  }
}
