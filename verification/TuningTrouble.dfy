/**
 * 2022 day 6: the start-of-packet marker is the first window of `n`
 * characters that are pairwise different, and the answer is the number of
 * characters read once that window is complete.
 */
module TuningTrouble {
  import opened Common

  /** The characters of `w` are pairwise different. */
  predicate AllDistinct(w: string)
  {
    forall i, j :: 0 <= i < j < |w| ==> w[i] != w[j]
  }

  /**
   * The check on one window as the program does it: every character is
   * counted, and the window passes when each count it holds is exactly 1.
   */
  predicate AreAllCharactersDifferent(w: string)
  {
    forall k :: 0 <= k < |w| ==> Count(w, w[k]) == 1
  }

  lemma CountPositive(w: string, k: nat)
    requires k < |w|
    ensures Count(w, w[k]) >= 1
  {
    assert w == w[..k] + [w[k]] + w[k + 1..];
    CountAppend(w[..k] + [w[k]], w[k + 1..], w[k]);
    CountAppend(w[..k], [w[k]], w[k]);
    assert Count([w[k]], w[k]) == Count([], w[k]) + 1;
  }

  lemma CountTwo(w: string, i: nat, j: nat)
    requires i < j < |w| && w[i] == w[j]
    ensures Count(w, w[i]) >= 2
  {
    var c := w[i];
    assert w == w[..j] + [c] + w[j + 1..];
    CountAppend(w[..j] + [c], w[j + 1..], c);
    CountAppend(w[..j], [c], c);
    assert Count([c], c) == Count([], c) + 1;
    assert w[..j][i] == c;
    CountPositive(w[..j], i);
  }

  /** A character that occurs only at position `k` is counted once. */
  lemma {:induction false} CountOnce(w: string, k: nat)
    requires k < |w|
    requires forall i :: 0 <= i < |w| && i != k ==> w[i] != w[k]
    ensures Count(w, w[k]) == 1
    decreases |w|
  {
    var c := w[k];
    var front := w[..|w| - 1];
    assert w == front + [w[|w| - 1]];
    CountAppend(front, [w[|w| - 1]], c);
    assert Count([w[|w| - 1]], c) == Count([], c) + (if w[|w| - 1] == c then 1 else 0);
    if k == |w| - 1 {
      assert forall i :: 0 <= i < |front| ==> front[i] == w[i];
      CountAbsent(front, c);
    } else {
      assert front[k] == c;
      assert forall i :: 0 <= i < |front| ==> front[i] == w[i];
      CountOnce(front, k);
    }
  }

  lemma {:induction false} CountAbsent(w: string, c: char)
    requires forall i :: 0 <= i < |w| ==> w[i] != c
    ensures Count(w, c) == 0
    decreases |w|
  {
    if |w| > 0 {
      var front := w[..|w| - 1];
      assert w == front + [w[|w| - 1]];
      CountAppend(front, [w[|w| - 1]], c);
      assert Count([w[|w| - 1]], c) == Count([], c);
      CountAbsent(front, c);
    }
  }

  /** Counting the characters decides exactly pairwise difference. */
  lemma CountingDecidesDistinct(w: string)
    ensures AreAllCharactersDifferent(w) <==> AllDistinct(w)
  {
    if AllDistinct(w) {
      forall k | 0 <= k < |w| ensures Count(w, w[k]) == 1 {
        forall i | 0 <= i < |w| && i != k ensures w[i] != w[k] {
          if i < k { assert w[i] != w[k]; } else { assert w[k] != w[i]; }
        }
        CountOnce(w, k);
      }
    }
    if !AllDistinct(w) {
      var i, j :| 0 <= i < j < |w| && w[i] == w[j];
      CountTwo(w, i, j);
    }
  }

  function Window(data: string, start: nat, n: nat): string
    requires start + n <= |data|
  {
    data[start..start + n]
  }

  /**
   * The search as written: the iterator runs from the first character up to
   * but not including the one `n` from the end, so the last window that
   * fits is never examined; when no examined window passes the result is
   * the length of the data.  Data shorter than `n` is outside what the
   * program handles.
   */
  function GetMarkerPosition(data: string, n: nat): (pos: nat)
    requires n <= |data|
    ensures pos <= |data|
    ensures pos == |data| || pos < |data| - n
    ensures pos < |data| - n ==> AreAllCharactersDifferent(Window(data, pos, n))
    ensures forall s :: 0 <= s < pos && s < |data| - n ==> !AreAllCharactersDifferent(Window(data, s, n))
    ensures pos == |data| ==> forall s :: 0 <= s < |data| - n ==> !AreAllCharactersDifferent(Window(data, s, n))
  {
    ScanWritten(data, n, 0)
  }

  function ScanWritten(data: string, n: nat, start: nat): (pos: nat)
    requires n <= |data| && start <= |data| - n
    ensures pos == |data| || start <= pos < |data| - n
    ensures pos < |data| - n ==> AreAllCharactersDifferent(Window(data, pos, n))
    ensures forall s :: start <= s < pos && s < |data| - n ==> !AreAllCharactersDifferent(Window(data, s, n))
    decreases |data| - start
  {
    if start == |data| - n then |data|
    else if AreAllCharactersDifferent(Window(data, start, n)) then start
    else ScanWritten(data, n, start + 1)
  }

  /** What the program reports: the marker position plus the window length. */
  function ReportedMarkerWritten(data: string, n: nat): nat
    requires n <= |data|
  {
    GetMarkerPosition(data, n) + n
  }

  /**
   * With "abcd" and a window of 4 the one window is distinct, yet it is
   * skipped and 8 is reported, past the end of the data; the corrected
   * search reports 4.
   */
  lemma MarkerSkipsLastWindow()
    ensures AllDistinct(Window("abcd", 0, 4))
    ensures ReportedMarkerWritten("abcd", 4) == 8
    ensures ReportedMarker("abcd", 4) == 4
  {
    var d := "abcd";
    assert ScanWritten(d, 4, 0) == 4;
    assert Scan(d, 4, 0) == 0;
  }

  /**
   * The search with every window that fits examined, including the last;
   * when none passes the result is still the length of the data.
   */
  function MarkerPosition(data: string, n: nat): (pos: nat)
    requires n <= |data|
    ensures pos <= |data|
  {
    Scan(data, n, 0)
  }

  function Scan(data: string, n: nat, start: nat): (pos: nat)
    requires n <= |data| && start <= |data| - n + 1
    ensures pos == |data| || start <= pos <= |data| - n
    decreases |data| - n + 1 - start
  {
    if start == |data| - n + 1 then |data|
    else if AllDistinct(Window(data, start, n)) then start
    else Scan(data, n, start + 1)
  }

  /** The window that fits nowhere earlier: the corrected search finds the least start of a distinct window. */
  predicate IsMarker(data: string, n: nat, pos: nat)
    requires n <= |data|
  {
    && pos <= |data| - n
    && AllDistinct(Window(data, pos, n))
    && forall s :: 0 <= s < pos ==> !AllDistinct(Window(data, s, n))
  }

  lemma {:induction false} ScanFinds(data: string, n: nat, start: nat)
    requires n <= |data| && start <= |data| - n + 1
    requires forall s :: 0 <= s < start ==> !AllDistinct(Window(data, s, n))
    ensures var pos := Scan(data, n, start);
      && (pos <= |data| - n ==> IsMarker(data, n, pos))
      && (pos > |data| - n ==> pos == |data| && forall s :: 0 <= s <= |data| - n ==> !AllDistinct(Window(data, s, n)))
    decreases |data| - n + 1 - start
  {
    if start == |data| - n + 1 {
    } else if AllDistinct(Window(data, start, n)) {
    } else {
      ScanFinds(data, n, start + 1);
    }
  }

  /**
   * The corrected search returns the least start whose window is distinct,
   * and the length of the data exactly when no window is.
   */
  lemma MarkerPositionIsFirstMarker(data: string, n: nat)
    requires n <= |data|
    ensures var pos := MarkerPosition(data, n);
      && (pos <= |data| - n <==> exists s :: 0 <= s <= |data| - n && AllDistinct(Window(data, s, n)))
      && (pos <= |data| - n ==> IsMarker(data, n, pos))
  {
    ScanFinds(data, n, 0);
  }

  /** Both searches agree on every window they both look at: they differ only when the first distinct window is the last. */
  lemma {:induction false} WrittenAgreesBeforeLast(data: string, n: nat, start: nat)
    requires n <= |data| && start <= |data| - n
    requires Scan(data, n, start) < |data| - n
    ensures ScanWritten(data, n, start) == Scan(data, n, start)
    decreases |data| - start
  {
    CountingDecidesDistinct(Window(data, start, n));
    if !AllDistinct(Window(data, start, n)) {
      WrittenAgreesBeforeLast(data, n, start + 1);
    }
  }

  /** What the corrected program reports: the position once the marker is complete. */
  function ReportedMarker(data: string, n: nat): nat
    requires n <= |data|
  {
    MarkerPosition(data, n) + n
  }
}
