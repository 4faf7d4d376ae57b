/**
 * 2021 day 5: hydrothermal vents.  Every run of digits in the input is a
 * number; four numbers make a line segment `x1,y1 -> x2,y2`.  Segments
 * that are vertical, horizontal or (as the program decides) diagonal are
 * drawn on a square grid of counters, and the answer is the number of
 * cells covered at least twice.  The grid is indexed `grid[x][y]`.
 */
module Venture {
  import opened Common
  import opened Decimal

  // ---------------------------------------------------------------------
  // Reading the numbers

  /**
   * The end of the next digit run, and the number `ExtractIntger` stores:
   * the run's value, or -- when no digit is left -- the value it held
   * before, because `from_chars` on an empty range leaves it untouched.
   */
  function NextRun(s: string): (end: nat)
    requires |s| >= 1
    ensures 1 <= end <= |s|
  {
    var first := FindDigit(s, 0);
    var end := DigitRunEnd(s, first);
    assert first < |s| ==> IsDigit(s[first]) && end > first;
    end
  }

  function RunValue(s: string, last: int): int
    requires |s| >= 1
  {
    var first := FindDigit(s, 0);
    var end := DigitRunEnd(s, first);
    if first == end then last else DigitsValue(s[first..end])
  }

  /**
   * `ReadIntegers` as written: while text is left, `ExtractIntger` answers
   * true and its number is kept, even when the text left has no digit.
   */
  function ReadIntegers(s: string, last: int): (r: seq<int>)
    ensures |r| <= |s|
    ensures |s| > 0 ==> |r| > 0
    decreases |s|
  {
    if |s| == 0 then []
    else
      var v := RunValue(s, last);
      [v] + ReadIntegers(s[NextRun(s)..], v)
  }

  /** `ReadIntegers` as intended: a number for every digit run and nothing else. */
  function ReadIntegersIntended(s: string): seq<int>
    decreases |s|
  {
    if |s| == 0 then []
    else
      var first := FindDigit(s, 0);
      var end := NextRun(s);
      (if first == |s| then [] else [DigitsValue(s[first..end]) as int]) + ReadIntegersIntended(s[end..])
  }

  predicate NoDigits(s: string)
  {
    forall k :: 0 <= k < |s| ==> !IsDigit(s[k])
  }

  /** Where the next digit run of `p + d + rest` lies, for digit-free `p` and a run `d` that `rest` does not extend. */
  lemma NextRunOf(p: string, n: nat, rest: string)
    requires NoDigits(p) && (|rest| == 0 || !IsDigit(rest[0]))
    ensures var s := p + ShowNat(n) + rest;
      && FindDigit(s, 0) == |p| && NextRun(s) == |p| + |ShowNat(n)|
      && s[|p|..NextRun(s)] == ShowNat(n) && s[NextRun(s)..] == rest
  {
    var d := ShowNat(n);
    var s := p + d + rest;
    assert s[|p|] == d[0];
    FindDigitAt(s, 0, |p|);
    DigitRunEndOf(p, d, rest, |p|);
    assert s[|p|..|p| + |d|] == d;
    assert s[|p| + |d|..] == rest;
  }

  /** A number and the digit-free text before it: the intended reading gives the number, then reads on. */
  lemma IntendedCons(p: string, n: nat, rest: string)
    requires NoDigits(p) && (|rest| == 0 || !IsDigit(rest[0]))
    ensures ReadIntegersIntended(p + ShowNat(n) + rest) == [n] + ReadIntegersIntended(rest)
  {
    NextRunOf(p, n, rest);
    ShowNatValue(n);
  }

  /** Digit-free text holds no number. */
  lemma IntendedNoDigits(p: string)
    requires NoDigits(p)
    ensures ReadIntegersIntended(p) == []
  {
    if |p| > 0 {
      FindDigitAt(p, 0, |p|);
    }
  }

  /** The program reads a number the same way, remembering it for the next call. */
  lemma AsWrittenCons(p: string, n: nat, rest: string, last: int)
    requires NoDigits(p) && (|rest| == 0 || !IsDigit(rest[0]))
    ensures ReadIntegers(p + ShowNat(n) + rest, last) == [n] + ReadIntegers(rest, n)
  {
    NextRunOf(p, n, rest);
    ShowNatValue(n);
  }

  /** Digit-free text that is not empty makes the program repeat its last number once. */
  lemma AsWrittenNoDigits(p: string, last: int)
    requires NoDigits(p) && |p| >= 1
    ensures ReadIntegers(p, last) == [last]
  {
    FindDigitAt(p, 0, |p|);
    assert p[|p|..] == [];
  }

  /**
   * A file ending in a newline after its last number: the program reads
   * that number twice, the intended reading once.  The extra number makes
   * the count odd, so building the points reads past the end of `raw`.
   */
  lemma TrailingNewlineRepeats(n: nat, last: int)
    ensures ReadIntegers(ShowNat(n) + "\n", last) == [n, n]
    ensures ReadIntegersIntended(ShowNat(n) + "\n") == [n]
  {
    assert ShowNat(n) + "\n" == [] + ShowNat(n) + "\n";
    AsWrittenCons([], n, "\n", last);
    AsWrittenNoDigits("\n", n);
    IntendedCons([], n, "\n");
    IntendedNoDigits("\n");
  }

  // ---------------------------------------------------------------------
  // Points and lines

  datatype Point = Point(x: int, y: int)

  datatype Line = Line(pt1: Point, pt2: Point)

  /** Consecutive numbers pair up into points. */
  function Points(raw: seq<int>): (ps: seq<Point>)
    requires |raw| % 2 == 0
    ensures 2 * |ps| == |raw|
  {
    if |raw| == 0 then [] else [Point(raw[0], raw[1])] + Points(raw[2..])
  }

  /** Consecutive points pair up into lines. */
  function Lines(ps: seq<Point>): (ls: seq<Line>)
    requires |ps| % 2 == 0
    ensures 2 * |ls| == |ps|
  {
    if |ps| == 0 then [] else [Line(ps[0], ps[1])] + Lines(ps[2..])
  }

  /** The lines of the numbers, four numbers each. */
  function Segments(raw: seq<int>): (ls: seq<Line>)
    requires |raw| % 4 == 0
    ensures 4 * |ls| == |raw|
  {
    var quarter := |raw| / 4;
    assert |raw| == 4 * quarter;
    assert |Points(raw)| == 2 * quarter;
    Lines(Points(raw))
  }

  lemma PointsCons(raw: seq<int>)
    requires |raw| % 2 == 0 && |raw| >= 2
    ensures Points(raw) == [Point(raw[0], raw[1])] + Points(raw[2..])
  {
  }

  lemma LinesCons(ps: seq<Point>)
    requires |ps| % 2 == 0 && |ps| >= 2
    ensures Lines(ps) == [Line(ps[0], ps[1])] + Lines(ps[2..])
  {
  }

  lemma SegmentsMeans(raw: seq<int>)
    requires |raw| % 4 == 0
    ensures |Points(raw)| % 2 == 0 && Segments(raw) == Lines(Points(raw))
  {
  }

  /** Points and lines peel off four numbers at a time. */
  lemma SegmentsCons(raw: seq<int>)
    requires |raw| % 4 == 0 && |raw| >= 4
    ensures Segments(raw) == [Line(Point(raw[0], raw[1]), Point(raw[2], raw[3]))] + Segments(raw[4..])
  {
    hide *;
    var tail := raw[2..];
    assert tail[2..] == raw[4..] && tail[0] == raw[2] && tail[1] == raw[3];
    assert |raw[4..]| % 4 == 0;
    PointsCons(raw);
    PointsCons(tail);
    var ps := Points(raw);
    assert ps == [Point(raw[0], raw[1]), Point(raw[2], raw[3])] + Points(raw[4..]);
    SegmentsMeans(raw);
    SegmentsMeans(raw[4..]);
    LinesCons(ps);
    assert ps[2..] == Points(raw[4..]);
  }

  /** Line `k` is made of numbers `4k` to `4k + 3`, in the order `x1, y1, x2, y2`. */
  lemma {:induction false} SegmentsAt(raw: seq<int>, k: nat)
    requires |raw| % 4 == 0 && 4 * k < |raw|
    ensures Segments(raw)[k] == Line(Point(raw[4 * k], raw[4 * k + 1]), Point(raw[4 * k + 2], raw[4 * k + 3]))
    decreases k
  {
    SegmentsCons(raw);
    if k > 0 {
      SegmentsAt(raw[4..], k - 1);
    }
  }

  /** Numbers that are not negative put every end inside a grid one larger than the largest. */
  lemma SegmentsInside(raw: seq<int>)
    requires |raw| >= 1 && |raw| % 4 == 0
    requires forall k :: 0 <= k < |raw| ==> raw[k] >= 0
    ensures AllInside(Segments(raw), MaxOf(raw) + 1)
  {
    var lines := Segments(raw);
    forall k | 0 <= k < |lines| ensures Inside(lines[k].pt1, MaxOf(raw) + 1) && Inside(lines[k].pt2, MaxOf(raw) + 1) {
      SegmentsAt(raw, k);
    }
  }

  predicate IsHorizontal(l: Line)
  {
    l.pt1.y == l.pt2.y
  }

  predicate IsVertical(l: Line)
  {
    l.pt1.x == l.pt2.x
  }

  /**
   * `IsDiagonal` as written: `|dx| / |dy| == 1` in integer division, only
   * asked once `dy != 0`, so it holds for every run from the rise up to
   * less than twice the rise.
   */
  predicate IsDiagonal(l: Line): (b: bool)
    requires !IsHorizontal(l)
    ensures b <==> Abs(l.pt1.y - l.pt2.y) <= Abs(l.pt1.x - l.pt2.x) < 2 * Abs(l.pt1.y - l.pt2.y)
  {
    QuotientOne(Abs(l.pt1.x - l.pt2.x), Abs(l.pt1.y - l.pt2.y));
    Abs(l.pt1.x - l.pt2.x) / Abs(l.pt1.y - l.pt2.y) == 1
  }

  /** A 45-degree line: as far across as down. */
  predicate IsDiagonalIntended(l: Line)
  {
    Abs(l.pt1.x - l.pt2.x) == Abs(l.pt1.y - l.pt2.y)
  }

  lemma QuotientOne(a: nat, b: nat)
    requires b >= 1
    ensures a / b == 1 <==> b <= a < 2 * b
  {
    if b <= a < 2 * b {
      assert a == b * 1 + (a - b);
    }
  }

  /** The program's test accepts any slope whose run is at least the rise and less than twice it. */
  lemma IsDiagonalMeans(l: Line)
    requires !IsHorizontal(l)
    ensures IsDiagonal(l) <==> Abs(l.pt1.y - l.pt2.y) <= Abs(l.pt1.x - l.pt2.x) < 2 * Abs(l.pt1.y - l.pt2.y)
  {
    QuotientOne(Abs(l.pt1.x - l.pt2.x), Abs(l.pt1.y - l.pt2.y));
  }

  /** Every 45-degree line passes the program's test, but so does `0,0 -> 3,2`. */
  lemma IsDiagonalTooWide()
    ensures var l := Line(Point(0, 0), Point(3, 2)); !IsHorizontal(l) && IsDiagonal(l) && !IsDiagonalIntended(l)
    ensures forall l: Line :: !IsHorizontal(l) && IsDiagonalIntended(l) ==> IsDiagonal(l)
  {
    forall l: Line | !IsHorizontal(l) && IsDiagonalIntended(l) ensures IsDiagonal(l) {
      IsDiagonalMeans(l);
    }
    IsDiagonalMeans(Line(Point(0, 0), Point(3, 2)));
  }

  /** The lines the program keeps: vertical, horizontal or passing its diagonal test. */
  predicate Kept(l: Line)
  {
    IsVertical(l) || IsHorizontal(l) || IsDiagonal(l)
  }

  /** The lines with the others removed, in order. */
  function KeptLines(ls: seq<Line>): (r: seq<Line>)
    ensures forall k :: 0 <= k < |r| ==> Kept(r[k])
    ensures forall l :: l in r <==> l in ls && Kept(l)
  {
    if |ls| == 0 then []
    else
      var rest := KeptLines(ls[1..]);
      assert forall l :: l in ls <==> l == ls[0] || l in ls[1..];
      (if Kept(ls[0]) then [ls[0]] else []) + rest
  }

  // ---------------------------------------------------------------------
  // Drawing

  function Min(a: int, b: int): int
  {
    if a <= b then a else b
  }

  function Max(a: int, b: int): int
  {
    if a <= b then b else a
  }

  /** `k` steps from `a`, up or down. */
  function Along(a: int, k: int, up: bool): int
  {
    if up then a + k else a - k
  }

  /** The diagonal walk goes right unless `x1 > x2`, and down only when `y1 < y2`. */
  function Right(l: Line): bool
  {
    !(l.pt1.x > l.pt2.x)
  }

  function Down(l: Line): bool
  {
    l.pt1.y < l.pt2.y
  }

  /** The cells the diagonal walk visits: it stops as soon as either coordinate passes its end. */
  function DiagonalSteps(l: Line): nat
  {
    Min(Abs(l.pt1.x - l.pt2.x), Abs(l.pt1.y - l.pt2.y)) + 1
  }

  /** The cells `drawLineOnGrid` increments, each once. */
  predicate Covers(l: Line, r: int, c: int)
  {
    if IsVertical(l) then r == l.pt1.x && Min(l.pt1.y, l.pt2.y) <= c <= Max(l.pt1.y, l.pt2.y)
    else if IsHorizontal(l) then c == l.pt1.y && Min(l.pt1.x, l.pt2.x) <= r <= Max(l.pt1.x, l.pt2.x)
    else if IsDiagonal(l) then Walked(l, DiagonalSteps(l), r, c)
    else false
  }

  /** A 45-degree line covers its two ends, and `|dx| + 1` cells in all. */
  lemma DiagonalIntendedEnds(l: Line)
    requires !IsHorizontal(l) && !IsVertical(l) && IsDiagonalIntended(l)
    ensures IsDiagonal(l) && DiagonalSteps(l) == Abs(l.pt1.x - l.pt2.x) + 1
    ensures Covers(l, l.pt1.x, l.pt1.y) && Covers(l, l.pt2.x, l.pt2.y)
  {
    IsDiagonalTooWide();
  }

  predicate Square(grid: seq<seq<int>>, size: nat)
  {
    |grid| == size && forall r :: 0 <= r < size ==> |grid[r]| == size
  }

  predicate Inside(p: Point, size: nat)
  {
    0 <= p.x < size && 0 <= p.y < size
  }

  function Bump(grid: seq<seq<int>>, size: nat, r: int, c: int): (g: seq<seq<int>>)
    requires Square(grid, size) && 0 <= r < size && 0 <= c < size
    ensures Square(g, size)
    ensures forall r', c' :: 0 <= r' < size && 0 <= c' < size ==>
      g[r'][c'] == grid[r'][c'] + (if r' == r && c' == c then 1 else 0)
  {
    grid[r := grid[r][c := grid[r][c] + 1]]
  }

  /** The cells of column range `s..e` in row `row`, one more each. */
  method DrawColumns(grid: seq<seq<int>>, size: nat, row: int, s: int, e: int) returns (g: seq<seq<int>>)
    requires Square(grid, size) && 0 <= row < size && (s <= e ==> 0 <= s && e < size)
    ensures Square(g, size)
    ensures forall r, c :: 0 <= r < size && 0 <= c < size ==> g[r][c] == grid[r][c] + (if r == row && s <= c <= e then 1 else 0)
  {
    g := grid;
    var col := s;
    while col <= e
      invariant col == s || s <= col <= e + 1
      invariant Square(g, size)
      invariant forall r, c :: 0 <= r < size && 0 <= c < size ==> g[r][c] == grid[r][c] + (if r == row && s <= c < col then 1 else 0)
    {
      g := Bump(g, size, row, col);
      col := col + 1;
    }
  }

  /** The cells of row range `s..e` in column `col`, one more each. */
  method DrawRows(grid: seq<seq<int>>, size: nat, col: int, s: int, e: int) returns (g: seq<seq<int>>)
    requires Square(grid, size) && 0 <= col < size && (s <= e ==> 0 <= s && e < size)
    ensures Square(g, size)
    ensures forall r, c :: 0 <= r < size && 0 <= c < size ==> g[r][c] == grid[r][c] + (if c == col && s <= r <= e then 1 else 0)
  {
    g := grid;
    var row := s;
    while row <= e
      invariant row == s || s <= row <= e + 1
      invariant Square(g, size)
      invariant forall r, c :: 0 <= r < size && 0 <= c < size ==> g[r][c] == grid[r][c] + (if c == col && s <= r < row then 1 else 0)
    {
      g := Bump(g, size, row, col);
      row := row + 1;
    }
  }

  /** Cell `(r, c)` is among the first `k` cells of the diagonal walk. */
  predicate Walked(l: Line, k: int, r: int, c: int)
  {
    var j := if Right(l) then r - l.pt1.x else l.pt1.x - r;
    0 <= j < k && c == Along(l.pt1.y, j, Down(l))
  }

  /** The diagonal walk: from `pt1`, one step in x and one in y until either passes its end. */
  method DrawDiagonal(grid: seq<seq<int>>, size: nat, l: Line) returns (g: seq<seq<int>>)
    requires Square(grid, size) && Inside(l.pt1, size) && Inside(l.pt2, size) && !IsHorizontal(l)
    ensures Square(g, size)
    ensures forall r, c :: 0 <= r < size && 0 <= c < size ==> g[r][c] == grid[r][c] + (if Walked(l, DiagonalSteps(l), r, c) then 1 else 0)
  {
    g := grid;
    var right, down := Right(l), Down(l);
    var row, col := l.pt1.x, l.pt1.y;
    ghost var n := DiagonalSteps(l);
    ghost var k := 0;
    while row != Along(l.pt2.x, 1, right) && col != Along(l.pt2.y, 1, down)
      invariant 0 <= k <= n
      invariant row == Along(l.pt1.x, k, right) && col == Along(l.pt1.y, k, down)
      invariant Square(g, size)
      invariant forall r, c :: 0 <= r < size && 0 <= c < size ==> g[r][c] == grid[r][c] + (if Walked(l, k, r, c) then 1 else 0)
      decreases n - k
    {
      DiagonalWalk(l, k);
      g := Bump(g, size, row, col);
      row, col, k := Along(row, 1, right), Along(col, 1, down), k + 1;
    }
    DiagonalWalk(l, k);
  }

  /**
   * `drawLineOnGrid`: one more in every cell the line covers and no change
   * elsewhere.  The walks never leave the box spanned by the two ends, so
   * ends inside the grid keep every write inside it.
   */
  method DrawLineOnGrid(grid: seq<seq<int>>, size: nat, l: Line) returns (g: seq<seq<int>>)
    requires Square(grid, size) && Inside(l.pt1, size) && Inside(l.pt2, size)
    ensures Square(g, size)
    ensures forall r, c :: 0 <= r < size && 0 <= c < size ==> g[r][c] == grid[r][c] + (if Covers(l, r, c) then 1 else 0)
  {
    if IsVertical(l) {
      g := DrawColumns(grid, size, l.pt1.x, Min(l.pt1.y, l.pt2.y), Max(l.pt1.y, l.pt2.y));
    } else if IsHorizontal(l) {
      g := DrawRows(grid, size, l.pt1.y, Min(l.pt1.x, l.pt2.x), Max(l.pt1.x, l.pt2.x));
    } else if IsDiagonal(l) {
      g := DrawDiagonal(grid, size, l);
    } else {
      g := grid;
    }
  }

  /** The walk's loop test fails exactly after `DiagonalSteps` cells, each inside the box of the two ends. */
  lemma DiagonalWalk(l: Line, k: nat)
    requires !IsHorizontal(l) && k <= DiagonalSteps(l)
    ensures (Along(l.pt1.x, k, Right(l)) != Along(l.pt2.x, 1, Right(l)) && Along(l.pt1.y, k, Down(l)) != Along(l.pt2.y, 1, Down(l)))
      <==> k < DiagonalSteps(l)
    ensures k < DiagonalSteps(l) ==>
      && Min(l.pt1.x, l.pt2.x) <= Along(l.pt1.x, k, Right(l)) <= Max(l.pt1.x, l.pt2.x)
      && Min(l.pt1.y, l.pt2.y) <= Along(l.pt1.y, k, Down(l)) <= Max(l.pt1.y, l.pt2.y)
  {
  }

  // ---------------------------------------------------------------------
  // Counting overlaps

  /** How many of the lines cover cell `(r, c)`. */
  function Coverage(ls: seq<Line>, r: int, c: int): nat
  {
    if |ls| == 0 then 0
    else Coverage(ls[..|ls| - 1], r, c) + (if Covers(ls[|ls| - 1], r, c) then 1 else 0)
  }

  /** The cells of row `r` before column `c` that at least two lines cover. */
  function RowOverlaps(ls: seq<Line>, r: int, c: nat): nat
  {
    if c == 0 then 0 else RowOverlaps(ls, r, c - 1) + (if Coverage(ls, r, c - 1) >= 2 then 1 else 0)
  }

  /** The cells of the rows before `r` that at least two lines cover. */
  function Overlaps(ls: seq<Line>, size: nat, r: nat): nat
  {
    if r == 0 then 0 else Overlaps(ls, size, r - 1) + RowOverlaps(ls, r - 1, size)
  }

  predicate AllInside(ls: seq<Line>, size: nat)
  {
    forall k :: 0 <= k < |ls| ==> Inside(ls[k].pt1, size) && Inside(ls[k].pt2, size)
  }

  /** `count_if` of the cells holding at least 2. */
  function AtLeastTwo(row: seq<int>): nat
  {
    if |row| == 0 then 0 else AtLeastTwo(row[..|row| - 1]) + (if row[|row| - 1] >= 2 then 1 else 0)
  }

  method CountRow(row: seq<int>) returns (n: nat)
    ensures n == AtLeastTwo(row)
  {
    n := 0;
    var c := 0;
    while c < |row|
      invariant 0 <= c <= |row|
      invariant n == AtLeastTwo(row[..c])
    {
      assert row[..c + 1][..c] == row[..c];
      if row[c] >= 2 {
        n := n + 1;
      }
      c := c + 1;
    }
    assert row[..c] == row;
  }

  /** Every line drawn in order on a grid of zeros: each cell holds its coverage. */
  method DrawLines(ls: seq<Line>, size: nat) returns (grid: seq<seq<int>>)
    requires AllInside(ls, size)
    ensures Square(grid, size)
    ensures forall r, c :: 0 <= r < size && 0 <= c < size ==> grid[r][c] == Coverage(ls, r, c)
  {
    grid := seq(size, _ => seq(size, _ => 0));
    var i := 0;
    while i < |ls|
      invariant 0 <= i <= |ls|
      invariant Square(grid, size)
      invariant forall r, c :: 0 <= r < size && 0 <= c < size ==> grid[r][c] == Coverage(ls[..i], r, c)
    {
      grid := DrawLineOnGrid(grid, size, ls[i]);
      assert ls[..i + 1][..i] == ls[..i];
      i := i + 1;
    }
    assert ls[..i] == ls;
  }

  /**
   * The main program from the lines on: the kept lines drawn on a `size` x
   * `size` grid of zeros, then the cells holding at least 2 counted row by
   * row.
   */
  method CountOverlaps(lines: seq<Line>, size: nat) returns (total: nat)
    requires AllInside(lines, size)
    ensures total == Overlaps(KeptLines(lines), size, size)
  {
    var kept := KeptLines(lines);
    forall k | 0 <= k < |kept| ensures Inside(kept[k].pt1, size) && Inside(kept[k].pt2, size) {
      assert kept[k] in lines;
    }
    var grid := DrawLines(kept, size);
    total := 0;
    var r := 0;
    while r < size
      invariant 0 <= r <= size
      invariant total == Overlaps(kept, size, r)
    {
      var n := CountRow(grid[r]);
      RowOverlapsCount(kept, r, size, grid[r]);
      assert grid[r][..size] == grid[r];
      total := total + n;
      r := r + 1;
    }
  }

  /** `max_element` of the numbers. */
  function MaxOf(raw: seq<int>): (m: int)
    requires |raw| >= 1
    ensures m in raw && forall k :: 0 <= k < |raw| ==> raw[k] <= m
  {
    if |raw| == 1 then raw[0]
    else
      var m := MaxOf(raw[1..]);
      assert forall k :: 1 <= k < |raw| ==> raw[k] == raw[1..][k - 1];
      if raw[0] >= m then raw[0] else m
  }

  /**
   * `main` after reading: four numbers per line, the grid one larger than
   * the largest number on each side, and the overlaps of the kept lines.
   * The numbers are digit runs, so none is negative.
   */
  method Day5(raw: seq<int>) returns (total: nat)
    requires |raw| >= 1 && |raw| % 4 == 0
    requires forall k :: 0 <= k < |raw| ==> raw[k] >= 0
    ensures var size := MaxOf(raw) + 1; total == Overlaps(KeptLines(Segments(raw)), size, size)
  {
    var lines := Segments(raw);
    var size := MaxOf(raw) + 1;
    SegmentsInside(raw);
    total := CountOverlaps(lines, size);
  }

  /** Counting a row of the finished grid gives the row's overlaps. */
  lemma {:induction false} RowOverlapsCount(ls: seq<Line>, r: int, c: nat, row: seq<int>)
    requires c <= |row|
    requires forall c' :: 0 <= c' < |row| ==> row[c'] == Coverage(ls, r, c')
    ensures RowOverlaps(ls, r, c) == AtLeastTwo(row[..c])
    decreases c
  {
    if c > 0 {
      RowOverlapsCount(ls, r, c - 1, row);
      assert row[..c][..c - 1] == row[..c - 1];
    }
  }
}
