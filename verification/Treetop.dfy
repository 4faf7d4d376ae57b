/**
 * Treetop Tree House (2022, day 8): a tree is visible when every tree
 * between it and some edge of the grid, along its row or its column, is
 * strictly shorter.  The program flags border trees, scans each interior
 * row from both ends and each interior column from both ends keeping the
 * tallest tree seen so far, and counts the flags.
 */
module Treetop {

  import opened Common

  type Heights = seq<seq<int>>
  type Flags = seq<seq<bool>>

  /**
   * The grids `CountNumberOfVisibleTrees` can run on: rectangular with a
   * first row, each scan it starts having a tree on both of its ends.
   */
  predicate Shape(g: Heights)
  {
    |g| >= 1 && |g[0]| >= 1 && Rect(g, |g|, |g[0]|) && (|g| >= 3 ==> |g[0]| >= 2) && (|g[0]| >= 3 ==> |g| >= 2)
  }

  /** Every value before position `j` is strictly below `s[j]`. */
  predicate ClearBefore(s: seq<int>, j: int)
    requires 0 <= j < |s|
  {
    forall k :: 0 <= k < j ==> s[k] < s[j]
  }

  /** Every value after position `j` is strictly below `s[j]`. */
  predicate ClearAfter(s: seq<int>, j: int)
    requires 0 <= j < |s|
  {
    forall k :: j < k < |s| ==> s[k] < s[j]
  }

  function Column(g: Heights, c: nat): seq<int>
    requires forall i :: 0 <= i < |g| ==> c < |g[i]|
  {
    seq(|g|, i requires 0 <= i < |g| => g[i][c])
  }

  /** Tree `(i, j)` is seen from the left, right, top or bottom edge. */
  predicate Visible(g: Heights, i: int, j: int)
    requires Shape(g) && 0 <= i < |g| && 0 <= j < |g[0]|
  {
    ClearBefore(g[i], j) || ClearAfter(g[i], j) || ClearBefore(Column(g, j), i) || ClearAfter(Column(g, j), i)
  }

  predicate Border(rows: int, cols: int, i: int, j: int)
  {
    i == 0 || i == rows - 1 || j == 0 || j == cols - 1
  }

  /** Nothing stands between a border tree and its edge. */
  lemma BorderVisible(g: Heights, i: int, j: int)
    requires Shape(g) && 0 <= i < |g| && 0 <= j < |g[0]|
    requires Border(|g|, |g[0]|, i, j)
    ensures Visible(g, i, j)
  {
    var col := Column(g, j);
    if i == |g| - 1 {
      assert ClearAfter(col, i);
    } else if j == 0 {
      assert ClearBefore(g[i], j);
    } else if j == |g[0]| - 1 {
      assert ClearAfter(g[i], j);
    } else {
      assert ClearBefore(col, i);
    }
  }

  function Rev<T>(s: seq<T>): seq<T>
  {
    seq(|s|, i requires 0 <= i < |s| => s[|s| - 1 - i])
  }

  /** Seen from the far end, the values before a position are those after it. */
  lemma ClearReversed(s: seq<int>, j: int)
    requires 0 <= j < |s|
    ensures ClearBefore(Rev(s), |s| - 1 - j) <==> ClearAfter(s, j)
  {
    var r := Rev(s);
    if ClearAfter(s, j) {
      forall k | 0 <= k < |s| - 1 - j
        ensures r[k] < r[|s| - 1 - j]
      {
        assert r[k] == s[|s| - 1 - k];
      }
    }
    if ClearBefore(r, |s| - 1 - j) {
      forall k | j < k < |s|
        ensures s[k] < s[j]
      {
        assert s[k] == r[|s| - 1 - k];
      }
    }
  }

  // ---------------------------------------------------------------------
  // Flagging the border

  /** `MarkCompleteRow` on row `i`. */
  function MarkCompleteRow(v: Flags, i: nat): (r: Flags)
    requires i < |v|
    ensures |r| == |v| && forall k :: 0 <= k < |v| ==> |r[k]| == |v[k]|
    ensures forall k, j :: 0 <= k < |v| && 0 <= j < |v[k]| ==> r[k][j] == (v[k][j] || k == i)
  {
    v[i := seq(|v[i]|, j => true)]
  }

  /** `row.front() = row.back() = 1` on every row. */
  function MarkEnds(v: Flags): (r: Flags)
    requires forall k :: 0 <= k < |v| ==> |v[k]| >= 1
    ensures |r| == |v| && forall k :: 0 <= k < |v| ==> |r[k]| == |v[k]|
    ensures forall k, j :: 0 <= k < |v| && 0 <= j < |v[k]| ==> r[k][j] == (v[k][j] || j == 0 || j == |v[k]| - 1)
  {
    seq(|v|, k requires 0 <= k < |v| => v[k][0 := true][|v[k]| - 1 := true])
  }

  /**
   * `InitializeVisibilty`: every border cell flagged, every other flag
   * left as it was.
   */
  function InitializeVisibility(v: Flags): (r: Flags)
    requires |v| >= 1 && forall k :: 0 <= k < |v| ==> |v[k]| >= 1
    ensures |r| == |v| && forall k :: 0 <= k < |v| ==> |r[k]| == |v[k]|
    ensures forall k, j :: 0 <= k < |v| && 0 <= j < |v[k]| ==> r[k][j] == (v[k][j] || Border(|v|, |v[k]|, k, j))
  {
    var top := MarkCompleteRow(v, 0);
    var sides := MarkEnds(top);
    var again := MarkCompleteRow(sides, 0);
    MarkCompleteRow(again, |v| - 1)
  }

  // ---------------------------------------------------------------------
  // Scans

  /**
   * `MarkVisibilityHorizontally`: from the first tree towards the last,
   * each tree strictly between them is flagged when it is taller than the
   * tallest before it; flags already set stay set.
   */
  method MarkVisibilityHorizontally(row: seq<int>, flags: seq<bool>) returns (out: seq<bool>)
    requires |row| >= 2 && |flags| == |row|
    ensures |out| == |flags|
    ensures forall j :: 0 <= j < |out| ==> out[j] == (flags[j] || (0 < j < |row| - 1 && ClearBefore(row, j)))
  {
    var tallest := row[0];
    out := flags;
    var j := 1;
    while j < |row| - 1
      invariant 1 <= j <= |row| - 1 && |out| == |flags|
      invariant (forall k :: 0 <= k < j ==> row[k] <= tallest) && (exists k :: 0 <= k < j && row[k] == tallest)
      invariant forall i :: 0 <= i < |out| ==> out[i] == (flags[i] || (0 < i < j && ClearBefore(row, i)))
    {
      var visible := tallest < row[j];
      tallest := if tallest < row[j] then row[j] else tallest;
      out := out[j := out[j] || visible];
      j := j + 1;
    }
  }

  /** `MarkVisibilityFromLeft`. */
  method MarkVisibilityFromLeft(row: seq<int>, flags: seq<bool>) returns (out: seq<bool>)
    requires |row| >= 2 && |flags| == |row|
    ensures |out| == |flags|
    ensures forall j :: 0 <= j < |out| ==> out[j] == (flags[j] || (0 < j < |row| - 1 && ClearBefore(row, j)))
  {
    out := MarkVisibilityHorizontally(row, flags);
  }

  /** `MarkVisibilityFromRight`: the same scan through reverse iterators. */
  method MarkVisibilityFromRight(row: seq<int>, flags: seq<bool>) returns (out: seq<bool>)
    requires |row| >= 2 && |flags| == |row|
    ensures |out| == |flags|
    ensures forall j :: 0 <= j < |out| ==> out[j] == (flags[j] || (0 < j < |row| - 1 && ClearAfter(row, j)))
  {
    var back := MarkVisibilityHorizontally(Rev(row), Rev(flags));
    out := Rev(back);
    forall j | 0 <= j < |out|
      ensures out[j] == (flags[j] || (0 < j < |row| - 1 && ClearAfter(row, j)))
    {
      ClearReversed(row, j);
    }
  }

  /**
   * `MarkVisibilityVertically`: the scan down column `c`, from the first
   * row towards the last.
   */
  method MarkVisibilityVertically(c: nat, g: Heights, v: Flags) returns (out: Flags)
    requires |g| >= 2 && |v| == |g|
    requires forall i :: 0 <= i < |g| ==> c < |g[i]| && c < |v[i]|
    ensures |out| == |v| && forall i :: 0 <= i < |v| ==> |out[i]| == |v[i]|
    ensures forall i, j :: 0 <= i < |v| && 0 <= j < |v[i]| ==> out[i][j] == (v[i][j] || (j == c && 0 < i < |g| - 1 && ClearBefore(Column(g, c), i)))
  {
    var col := Column(g, c);
    var tallest := col[0];
    out := v;
    var i := 1;
    while i < |g| - 1
      invariant 1 <= i <= |g| - 1
      invariant |out| == |v| && forall k :: 0 <= k < |v| ==> |out[k]| == |v[k]|
      invariant (forall k :: 0 <= k < i ==> col[k] <= tallest) && (exists k :: 0 <= k < i && col[k] == tallest)
      invariant forall k, j :: 0 <= k < |v| && 0 <= j < |v[k]| ==> out[k][j] == (v[k][j] || (j == c && 0 < k < i && ClearBefore(col, k)))
    {
      out := out[i := out[i][c := out[i][c] || tallest < col[i]]];
      tallest := if tallest < col[i] then col[i] else tallest;
      i := i + 1;
    }
  }

  /** `MarkVisibilityFromTop`. */
  method MarkVisibilityFromTop(c: nat, g: Heights, v: Flags) returns (out: Flags)
    requires |g| >= 2 && |v| == |g|
    requires forall i :: 0 <= i < |g| ==> c < |g[i]| && c < |v[i]|
    ensures |out| == |v| && forall i :: 0 <= i < |v| ==> |out[i]| == |v[i]|
    ensures forall i, j :: 0 <= i < |v| && 0 <= j < |v[i]| ==> out[i][j] == (v[i][j] || (j == c && 0 < i < |g| - 1 && ClearBefore(Column(g, c), i)))
  {
    out := MarkVisibilityVertically(c, g, v);
  }

  /** `MarkVisibilityFromBottom`: the column scan through reverse iterators. */
  method MarkVisibilityFromBottom(c: nat, g: Heights, v: Flags) returns (out: Flags)
    requires |g| >= 2 && |v| == |g|
    requires forall i :: 0 <= i < |g| ==> c < |g[i]| && c < |v[i]|
    ensures |out| == |v| && forall i :: 0 <= i < |v| ==> |out[i]| == |v[i]|
    ensures forall i, j :: 0 <= i < |v| && 0 <= j < |v[i]| ==> out[i][j] == (v[i][j] || (j == c && 0 < i < |g| - 1 && ClearAfter(Column(g, c), i)))
  {
    var rg, rv := Rev(g), Rev(v);
    var back := MarkVisibilityVertically(c, rg, rv);
    out := Rev(back);
    assert Column(rg, c) == Rev(Column(g, c));
    forall i, j | 0 <= i < |v| && 0 <= j < |v[i]|
      ensures out[i][j] == (v[i][j] || (j == c && 0 < i < |g| - 1 && ClearAfter(Column(g, c), i)))
    {
      assert out[i] == back[|g| - 1 - i] && rv[|g| - 1 - i] == v[i];
      ClearReversed(Column(g, c), i);
    }
  }

  // ---------------------------------------------------------------------
  // Counting

  /** `Count1s` over the first `n` rows: their flags added up. */
  function Count1sUpTo(v: Flags, n: nat): nat
    requires n <= |v|
  {
    if n == 0 then 0 else Count1sUpTo(v, n - 1) + Count(v[n - 1], true)
  }

  function Count1s(v: Flags): nat
  {
    Count1sUpTo(v, |v|)
  }

  function RowTrue(row: seq<bool>): set<int>
  {
    set j | 0 <= j < |row| && row[j]
  }

  /** The flagged cells of the first `n` rows. */
  function TrueCells(v: Flags, n: nat): set<(int, int)>
    requires n <= |v|
  {
    set i, j | 0 <= i < n && 0 <= j < |v[i]| && v[i][j] :: (i, j)
  }

  lemma {:induction false} RowTrueCount(row: seq<bool>)
    ensures |RowTrue(row)| == Count(row, true)
    decreases |row|
  {
    if |row| > 0 {
      var front := row[..|row| - 1];
      RowTrueCount(front);
      assert RowTrue(row) == RowTrue(front) + (if row[|row| - 1] then {|row| - 1} else {});
    }
  }

  lemma TrueCellsStep(v: Flags, n: nat)
    requires 0 < n <= |v|
    ensures TrueCells(v, n) == TrueCells(v, n - 1) + Tag(n - 1, RowTrue(v[n - 1]))
  {
    var a, b := TrueCells(v, n), TrueCells(v, n - 1) + Tag(n - 1, RowTrue(v[n - 1]));
    forall p | p in a
      ensures p in b
    {
      if p.0 == n - 1 {
        assert p.1 in RowTrue(v[n - 1]);
      }
    }
    forall p | p in b
      ensures p in a
    {
      if p in Tag(n - 1, RowTrue(v[n - 1])) {
        var j :| j in RowTrue(v[n - 1]) && p == (n - 1, j);
      }
    }
  }

  lemma Count1sStep(v: Flags, n: nat)
    requires 0 < n <= |v|
    ensures Count1sUpTo(v, n) == Count1sUpTo(v, n - 1) + Count(v[n - 1], true)
    ensures forall p :: p in TrueCells(v, n - 1) ==> p.0 != n - 1
  {
  }

  /** `Count1s` is the number of flagged cells. */
  lemma {:induction false} Count1sMeans(v: Flags, n: nat)
    requires n <= |v|
    ensures Count1sUpTo(v, n) == |TrueCells(v, n)|
    decreases n
  {
    hide *;
    if n == 0 {
      Count1sZero(v);
    } else {
      Count1sMeans(v, n - 1);
      RowTrueCount(v[n - 1]);
      TrueCellsStep(v, n);
      Count1sStep(v, n);
      AddDisjoint(TrueCells(v, n - 1), n - 1, RowTrue(v[n - 1]));
    }
  }

  lemma Count1sZero(v: Flags)
    ensures Count1sUpTo(v, 0) == |TrueCells(v, 0)| == 0
  {
    assert TrueCells(v, 0) == {};
  }

  /** A row of `cols` flags whose two ends are set holds at least two, or all when every flag is set. */
  lemma {:induction false} RowAtLeast(row: seq<bool>, full: bool)
    requires |row| >= 2 && row[0] && row[|row| - 1]
    requires full ==> forall j :: 0 <= j < |row| ==> row[j]
    ensures Count(row, true) >= if full then |row| else 2
    decreases |row|
  {
    var front := row[..|row| - 1];
    if full {
      FullCount(row);
    } else {
      assert front == [row[0]] + front[1..];
      CountAppend([row[0]], front[1..], true);
    }
  }

  lemma {:induction false} FullCount(row: seq<bool>)
    requires forall j :: 0 <= j < |row| ==> row[j]
    ensures Count(row, true) == |row|
    decreases |row|
  {
    if |row| > 0 {
      FullCount(row[..|row| - 1]);
    }
  }

  /** With every border cell flagged the count is at least the border, `2 R + 2 C - 4`. */
  lemma {:induction false} BorderCount(v: Flags, rows: nat, cols: nat, n: nat)
    requires rows >= 2 && cols >= 2 && Rect(v, rows, cols) && 1 <= n <= rows
    requires forall i, j :: 0 <= i < rows && 0 <= j < cols && Border(rows, cols, i, j) ==> v[i][j]
    ensures Count1sUpTo(v, n) >= cols + 2 * (n - 1) + (if n == rows then cols - 2 else 0)
    decreases n
  {
    RowAtLeast(v[n - 1], n == 1 || n == rows);
    if n > 1 {
      BorderCount(v, rows, cols, n - 1);
    }
  }

  // ---------------------------------------------------------------------
  // The whole grid

  /** The trees visible from some edge. */
  function VisibleCells(g: Heights): set<(int, int)>
    requires Shape(g)
  {
    set i, j | 0 <= i < |g| && 0 <= j < |g[0]| && Visible(g, i, j) :: (i, j)
  }

  /** The flags after the row scans of rows `1 .. done - 1`. */
  predicate AfterRows(g: Heights, v: Flags, done: int)
    requires Shape(g)
  {
    Rect(v, |g|, |g[0]|) &&
    forall i, j :: 0 <= i < |g| && 0 <= j < |g[0]| ==> v[i][j] == (Border(|g|, |g[0]|, i, j) || (i < done && (ClearBefore(g[i], j) || ClearAfter(g[i], j))))
  }

  /** The flags after all row scans and the column scans of columns `1 .. done - 1`. */
  predicate AfterColumns(g: Heights, v: Flags, done: int)
    requires Shape(g)
  {
    Rect(v, |g|, |g[0]|) &&
    forall i, j :: 0 <= i < |g| && 0 <= j < |g[0]| ==> v[i][j] == (Border(|g|, |g[0]|, i, j) || ClearBefore(g[i], j) || ClearAfter(g[i], j) || (j < done && (ClearBefore(Column(g, j), i) || ClearAfter(Column(g, j), i))))
  }

  /** Row `idx` scanned from the left and from the right. */
  method RowPass(g: Heights, v: Flags, idx: nat) returns (next: Flags)
    requires Shape(g) && 1 <= idx < |g| - 1 && AfterRows(g, v, idx)
    ensures AfterRows(g, next, idx + 1)
  {
    var left := MarkVisibilityFromLeft(g[idx], v[idx]);
    var both := MarkVisibilityFromRight(g[idx], left);
    next := v[idx := both];
    forall i, j | 0 <= i < |g| && 0 <= j < |g[0]|
      ensures next[i][j] == (Border(|g|, |g[0]|, i, j) || (i < idx + 1 && (ClearBefore(g[i], j) || ClearAfter(g[i], j))))
    {
      if i == idx && !Border(|g|, |g[0]|, i, j) {
        assert 0 < j < |g[idx]| - 1;
      }
    }
  }

  /** Column `idx` scanned from the top and from the bottom. */
  method ColumnPass(g: Heights, v: Flags, idx: nat) returns (next: Flags)
    requires Shape(g) && 1 <= idx < |g[0]| - 1 && AfterColumns(g, v, idx)
    ensures AfterColumns(g, next, idx + 1)
  {
    var top := MarkVisibilityFromTop(idx, g, v);
    next := MarkVisibilityFromBottom(idx, g, top);
  }

  /** Once every row and column is scanned, exactly the visible trees are flagged. */
  lemma ScannedMeansVisible(g: Heights, v: Flags)
    requires Shape(g) && AfterColumns(g, v, |g[0]|)
    ensures TrueCells(v, |v|) == VisibleCells(g)
  {
    forall i, j | 0 <= i < |g| && 0 <= j < |g[0]|
      ensures v[i][j] == Visible(g, i, j)
    {
      if Border(|g|, |g[0]|, i, j) {
        BorderVisible(g, i, j);
      }
    }
  }

  /**
   * `CountNumberOfVisibleTrees`: the number of trees visible from some
   * edge, which is at least the number of border trees.
   */
  method CountNumberOfVisibleTrees(g: Heights) returns (count: nat)
    requires Shape(g)
    ensures count == |VisibleCells(g)|
    ensures |g| >= 2 && |g[0]| >= 2 ==> count >= 2 * |g| + 2 * |g[0]| - 4
  {
    var rows, cols := |g|, |g[0]|;
    var v := seq(rows, i => seq(cols, j => false));
    v := InitializeVisibility(v);
    var idx := 1;
    while idx < rows - 1
      invariant 1 <= idx && (rows >= 2 ==> idx <= rows - 1)
      invariant AfterRows(g, v, idx)
    {
      v := RowPass(g, v, idx);
      idx := idx + 1;
    }
    assert AfterColumns(g, v, 1);
    idx := 1;
    while idx < cols - 1
      invariant 1 <= idx && (cols >= 2 ==> idx <= cols - 1)
      invariant AfterColumns(g, v, idx)
    {
      v := ColumnPass(g, v, idx);
      idx := idx + 1;
    }
    count := Count1s(v);
    Count1sMeans(v, |v|);
    ScannedMeansVisible(g, v);
    if rows >= 2 && cols >= 2 {
      BorderCount(v, rows, cols, rows);
    }
  }
}
