/**
 * Giant Squid (2021, day 4): bingo against a squid.  The first line holds
 * the numbers drawn, separated by commas; then come 5x5 boards.  A drawn
 * number is crossed off by overwriting it with -1, and a board wins when a
 * whole row or a whole column is crossed off.  Part 1 looks for the first
 * board to win; part 2 for the last.
 */
module GiantSquid {
  import opened Decimal

  // ---------------------------------------------------------------------
  // The line of numbers

  /** The string with every `a` replaced by `b`, as `std::replace` does. */
  function Replace(s: string, a: char, b: char): (r: string)
    ensures |r| == |s|
  {
    seq(|s|, k requires 0 <= k < |s| => if s[k] == a then b else s[k])
  }

  lemma ReplaceAppend(s: string, t: string, a: char, b: char)
    ensures Replace(s + t, a, b) == Replace(s, a, b) + Replace(t, a, b)
  {
  }

  /**
   * The integers `istream_iterator<int>` reads: white space is skipped, a
   * number is an optional sign and a run of digits, and the reading stops
   * for good at the first thing that is not a number.
   */
  function ReadInts(s: string): seq<int>
    decreases |s|
  {
    if |s| == 0 then []
    else if IsSpace(s[0]) then ReadInts(s[1..])
    else
      var start := if s[0] == '-' || s[0] == '+' then 1 else 0;
      var end := DigitRunEnd(s, start);
      if end == start then []
      else
        var v: int := DigitsValue(s[start..end]);
        [if s[0] == '-' then -v else v] + ReadInts(s[end..])
  }

  /** `ParseCSV`: the commas become separators and the integers are read in order. */
  function ParseCsv(s: string): seq<int>
  {
    ReadInts(Replace(s, ',', ' '))
  }

  /** The numbers written in decimal and separated by commas. */
  function Csv(ns: seq<int>): string
    decreases |ns|
  {
    if |ns| == 0 then ""
    else if |ns| == 1 then ShowInt(ns[0])
    else ShowInt(ns[0]) + "," + Csv(ns[1..])
  }

  lemma ShowIntNoComma(n: int)
    ensures Replace(ShowInt(n), ',', ' ') == ShowInt(n)
  {
    var m := if n < 0 then -n else n;
    assert AllDigits(ShowNat(m));
  }

  /** One number read off the front of `s`. */
  lemma ReadIntsAt(s: string, start: nat, end: nat)
    requires |s| > 0 && !IsSpace(s[0]) && start == (if s[0] == '-' || s[0] == '+' then 1 else 0)
    requires end == DigitRunEnd(s, start) && end > start
    ensures ReadInts(s) == [if s[0] == '-' then -(DigitsValue(s[start..end]) as int) else DigitsValue(s[start..end]) as int] + ReadInts(s[end..])
  {
  }

  /** A printed number: an optional minus, then the digits of its magnitude. */
  lemma ShowIntParts(n: int) returns (p: string, d: string)
    ensures ShowInt(n) == p + d && p == (if n < 0 then "-" else "")
    ensures |d| >= 1 && AllDigits(d) && DigitsValue(d) as int == (if n < 0 then -n else n)
  {
    var m := if n < 0 then -n else n;
    d := ShowNat(m);
    ShowNatValue(m);
    p := if n < 0 then "-" else "";
  }

  /** A printed number starts with neither white space nor a plus. */
  lemma SignNotSpace(p: string, d: string)
    requires p == "-" || p == ""
    requires |d| >= 1 && AllDigits(d)
    ensures !IsSpace((p + d)[0]) && (p + d)[0] != '+' && ((p + d)[0] == '-' <==> p == "-")
  {
  }

  /** A number, as written, is read back, and the reading goes on after it. */
  lemma ReadIntsShowInt(n: int, rest: string)
    requires |rest| == 0 || !IsDigit(rest[0])
    ensures ReadInts(ShowInt(n) + rest) == [n] + ReadInts(rest)
  {
    hide *;
    var p, d := ShowIntParts(n);
    var t := p + d + rest;
    assert ShowInt(n) + rest == t;
    DigitRunEndOf(p, d, rest, |p|);
    assert t[|p|..|p| + |d|] == d && t[|p| + |d|..] == rest;
    SignNotSpace(p, d);
    assert t[0] == (p + d)[0];
    ReadIntsAt(t, |p|, |p| + |d|);
  }

  lemma ReadIntsSpace(t: string)
    ensures ReadInts(" " + t) == ReadInts(t)
  {
    assert (" " + t)[1..] == t;
  }

  lemma CsvCons(ns: seq<int>)
    requires |ns| > 0
    ensures Csv(ns) == if |ns| == 1 then ShowInt(ns[0]) + "" else ShowInt(ns[0]) + "," + Csv(ns[1..])
  {
  }

  lemma ParseCsvDef(s: string)
    ensures ParseCsv(s) == ReadInts(Replace(s, ',', ' '))
  {
  }

  /** Reading the comma-separated line gives back the numbers written into it. */
  lemma {:induction false} ParseCsvOfCsv(ns: seq<int>)
    ensures ParseCsv(Csv(ns)) == ns
    decreases |ns|
  {
    if |ns| == 1 {
      hide *;
      ParseCsvDef(Csv(ns));
      CsvCons(ns);
      ShowIntNoComma(ns[0]);
      ReadIntsShowInt(ns[0], "");
      ReadIntsEmpty();
    } else if |ns| > 1 {
      ParseCsvOfCsv(ns[1..]);
      ParseCsvCons(ns);
    }
  }

  /** The first number and its comma are read off the front of the line. */
  lemma ParseCsvCons(ns: seq<int>)
    requires |ns| > 1 && ParseCsv(Csv(ns[1..])) == ns[1..]
    ensures ParseCsv(Csv(ns)) == ns
  {
    hide *;
    var u := Replace(Csv(ns[1..]), ',', ' ');
    ReplaceCsvCons(ns);
    ReadIntsNumberSpace(ns[0], u);
    ParseCsvDef(Csv(ns));
    ParseCsvDef(Csv(ns[1..]));
    assert [ns[0]] + ns[1..] == ns;
  }

  lemma ReplaceCsvCons(ns: seq<int>)
    requires |ns| > 1
    ensures Replace(Csv(ns), ',', ' ') == ShowInt(ns[0]) + (" " + Replace(Csv(ns[1..]), ',', ' '))
  {
    hide *;
    var head := ShowInt(ns[0]);
    var tail := Csv(ns[1..]);
    var u := Replace(tail, ',', ' ');
    CsvCons(ns);
    ShowIntNoComma(ns[0]);
    ReplaceAppend(head + ",", tail, ',', ' ');
    ReplaceAppend(head, ",", ',', ' ');
    ReplaceComma();
    assert (head + " ") + u == head + (" " + u);
  }

  lemma ReadIntsNumberSpace(n: int, u: string)
    ensures ReadInts(ShowInt(n) + (" " + u)) == [n] + ReadInts(u)
  {
    assert !IsDigit(' ');
    hide *;
    ReadIntsShowInt(n, " " + u);
    ReadIntsSpace(u);
  }

  lemma ReadIntsEmpty()
    ensures ReadInts("") == []
  {
  }

  lemma ReplaceComma()
    ensures Replace(",", ',', ' ') == " "
  {
  }

  // ---------------------------------------------------------------------
  // Boards

  /** A board, row by row; a crossed-off number is -1. */
  type Grid = seq<seq<int>>

  const Crossed: int := -1

  /**
   * Every row is at least as long as the board has rows: the column scan
   * of `HasGridWon` runs over as many columns as there are rows.  The 5x5
   * boards the input holds are such boards.
   */
  predicate Fits(g: Grid)
  {
    forall r :: 0 <= r < |g| ==> |g[r]| >= |g|
  }

  function MarkRow(row: seq<int>, num: int): (r: seq<int>)
    ensures |r| == |row|
    ensures forall j :: 0 <= j < |row| ==> r[j] == (if row[j] == num then Crossed else row[j])
  {
    seq(|row|, j requires 0 <= j < |row| => if row[j] == num then Crossed else row[j])
  }

  /**
   * `MarkGrid`: crosses off `num`.  Afterwards a cell is crossed off exactly
   * when it was before or held `num`; a cell left standing keeps its number.
   */
  function Mark(g: Grid, num: int): (r: Grid)
    ensures |r| == |g| && forall i :: 0 <= i < |g| ==> |r[i]| == |g[i]|
    ensures forall i, j :: 0 <= i < |g| && 0 <= j < |g[i]| ==> (r[i][j] == Crossed <==> g[i][j] == Crossed || g[i][j] == num)
    ensures forall i, j :: 0 <= i < |g| && 0 <= j < |g[i]| && r[i][j] != Crossed ==> r[i][j] == g[i][j]
  {
    seq(|g|, i requires 0 <= i < |g| => MarkRow(g[i], num))
  }

  /** The board after the numbers `xs` were drawn: a cell is crossed off when it was, or when its number was drawn. */
  function MarkedBy(g: Grid, xs: seq<int>): (r: Grid)
    ensures |r| == |g| && forall i :: 0 <= i < |g| ==> |r[i]| == |g[i]|
    ensures forall i, j :: 0 <= i < |g| && 0 <= j < |g[i]| ==> r[i][j] == (if g[i][j] in xs then Crossed else g[i][j])
  {
    seq(|g|, i requires 0 <= i < |g| => seq(|g[i]|, j requires 0 <= j < |g[i]| => if g[i][j] in xs then Crossed else g[i][j]))
  }

  /** Two boards of the same shape with the same cells are the same board. */
  lemma SameCells(a: Grid, b: Grid)
    requires |a| == |b| && forall i :: 0 <= i < |a| ==> |a[i]| == |b[i]|
    requires forall i, j :: 0 <= i < |a| && 0 <= j < |a[i]| ==> a[i][j] == b[i][j]
    ensures a == b
  {
    forall i | 0 <= i < |a|
      ensures a[i] == b[i]
    {
      assert forall j :: 0 <= j < |a[i]| ==> a[i][j] == b[i][j];
    }
  }

  /** Crossing off one more drawn number extends the numbers drawn by it. */
  lemma MarkStep(g: Grid, xs: seq<int>, x: int)
    ensures Mark(MarkedBy(g, xs), x) == MarkedBy(g, xs + [x])
  {
    var a := Mark(MarkedBy(g, xs), x);
    var b := MarkedBy(g, xs + [x]);
    forall i, j | 0 <= i < |g| && 0 <= j < |g[i]|
      ensures a[i][j] == b[i][j]
    {
      assert g[i][j] in xs + [x] <==> g[i][j] in xs || g[i][j] == x;
    }
    SameCells(a, b);
  }

  /** Nothing drawn, nothing crossed off. */
  lemma MarkedByNothing(g: Grid)
    ensures MarkedBy(g, []) == g
  {
    SameCells(MarkedBy(g, []), g);
  }

  /** Crossing off the same number twice is crossing it off once. */
  lemma MarkTwice(g: Grid, num: int)
    ensures Mark(Mark(g, num), num) == Mark(g, num)
  {
    var a := Mark(Mark(g, num), num);
    var b := Mark(g, num);
    forall i, j | 0 <= i < |g| && 0 <= j < |g[i]|
      ensures a[i][j] == b[i][j]
    {
    }
    SameCells(a, b);
  }

  /** The order in which two numbers are crossed off does not matter. */
  lemma MarkCommutes(g: Grid, x: int, y: int)
    ensures Mark(Mark(g, x), y) == Mark(Mark(g, y), x)
  {
    var a := Mark(Mark(g, x), y);
    var b := Mark(Mark(g, y), x);
    forall i, j | 0 <= i < |g| && 0 <= j < |g[i]|
      ensures a[i][j] == b[i][j]
    {
    }
    SameCells(a, b);
  }

  // ---------------------------------------------------------------------
  // Winning

  predicate RowDone(row: seq<int>)
  {
    forall j :: 0 <= j < |row| ==> row[j] == Crossed
  }

  predicate ColumnDone(g: Grid, c: nat)
    requires Fits(g) && c < |g|
  {
    forall r :: 0 <= r < |g| ==> g[r][c] == Crossed
  }

  /** A board has won when one of its rows or one of its first `|g|` columns is crossed off. */
  predicate Won(g: Grid)
    requires Fits(g)
  {
    (exists r :: 0 <= r < |g| && RowDone(g[r])) || (exists c: nat :: c < |g| && ColumnDone(g, c))
  }

  lemma MarkFits(g: Grid, num: int)
    requires Fits(g)
    ensures Fits(Mark(g, num))
  {
  }

  /** Crossing off more numbers never undoes a win. */
  lemma WonStaysWon(g: Grid, num: int)
    requires Fits(g) && Won(g)
    ensures Fits(Mark(g, num)) && Won(Mark(g, num))
  {
    var m := Mark(g, num);
    if r :| 0 <= r < |g| && RowDone(g[r]) {
      assert RowDone(m[r]);
    } else {
      var c: nat :| c < |g| && ColumnDone(g, c);
      assert ColumnDone(m, c);
    }
  }

  /** `all_of` over a row: whether every cell is crossed off. */
  method AllCrossed(row: seq<int>) returns (done: bool)
    ensures done <==> RowDone(row)
  {
    var j := 0;
    while j < |row|
      invariant 0 <= j <= |row|
      invariant forall k :: 0 <= k < j ==> row[k] == Crossed
    {
      if row[j] != Crossed {
        return false;
      }
      j := j + 1;
    }
    return true;
  }

  /** `HasGridWon`: the rows first, and only when none is done, the columns. */
  method HasGridWon(g: Grid) returns (won: bool)
    requires Fits(g)
    ensures won <==> Won(g)
  {
    var rows := false;
    var r := 0;
    while r < |g| && !rows
      invariant 0 <= r <= |g|
      invariant rows <==> exists k :: 0 <= k < r && RowDone(g[k])
    {
      rows := AllCrossed(g[r]);
      r := r + 1;
    }
    var cols := false;
    if !rows {
      assert forall k :: 0 <= k < |g| ==> !RowDone(g[k]);
      var i := 0;
      while i < |g|
        invariant 0 <= i <= |g|
        invariant forall c: nat :: c < i ==> !ColumnDone(g, c)
      {
        var j := 0;
        while j < |g| && g[j][i] == Crossed
          invariant 0 <= j <= |g|
          invariant forall k :: 0 <= k < j ==> g[k][i] == Crossed
        {
          j := j + 1;
        }
        if j == |g| {
          assert ColumnDone(g, i);
          cols := true;
          break;
        }
        i := i + 1;
      }
    }
    won := rows || cols;
  }

  // ---------------------------------------------------------------------
  // Playing

  predicate AllFit(gs: seq<Grid>)
  {
    forall k :: 0 <= k < |gs| ==> Fits(gs[k])
  }

  /** Every board after the numbers `xs` were drawn. */
  function MarkAll(gs: seq<Grid>, xs: seq<int>): (r: seq<Grid>)
    requires AllFit(gs)
    ensures |r| == |gs| && AllFit(r)
    ensures forall k :: 0 <= k < |gs| ==> r[k] == MarkedBy(gs[k], xs)
  {
    seq(|gs|, k requires 0 <= k < |gs| => MarkedBy(gs[k], xs))
  }

  /** Board `k` has won once the first `t + 1` numbers are drawn. */
  predicate WonAfter(gs: seq<Grid>, list: seq<int>, t: nat, k: nat)
    requires AllFit(gs) && t < |list| && k < |gs|
  {
    MarkAll(gs, list[..t + 1])[k] == MarkedBy(gs[k], list[..t + 1]) && Won(MarkAll(gs, list[..t + 1])[k])
  }

  /** No board has won after any of the first `n` draws. */
  predicate NoWinBefore(gs: seq<Grid>, list: seq<int>, n: nat)
    requires AllFit(gs) && n <= |list|
  {
    forall t: nat, k: nat :: t < n && k < |gs| ==> !WonAfter(gs, list, t, k)
  }

  /** Board `k` is the first to win, on draw `t`: no board won earlier, and no lower board on that draw. */
  predicate FirstWin(gs: seq<Grid>, list: seq<int>, t: nat, k: nat)
    requires AllFit(gs) && t < |list| && k < |gs|
  {
    NoWinBefore(gs, list, t) && WonAfter(gs, list, t, k) && forall k': nat :: k' < k ==> !WonAfter(gs, list, t, k')
  }

  /** `find_if(..., HasGridWon)`: the first board that has won, or `|grids|`. */
  method FindWinner(grids: seq<Grid>) returns (pos: nat)
    requires AllFit(grids)
    ensures pos <= |grids|
    ensures pos < |grids| ==> Won(grids[pos])
    ensures forall k :: 0 <= k < pos ==> !Won(grids[k])
  {
    pos := 0;
    while pos < |grids|
      invariant pos <= |grids|
      invariant forall k :: 0 <= k < pos ==> !Won(grids[k])
    {
      var won := HasGridWon(grids[pos]);
      if won {
        return;
      }
      pos := pos + 1;
    }
  }

  /** `for_each(..., MarkGrid)`: crosses off `num` on every board. */
  function MarkEach(grids: seq<Grid>, num: int): (r: seq<Grid>)
    requires AllFit(grids)
    ensures |r| == |grids| && AllFit(r)
    ensures forall k :: 0 <= k < |grids| ==> r[k] == Mark(grids[k], num)
  {
    seq(|grids|, k requires 0 <= k < |grids| => MarkFits(grids[k], num); Mark(grids[k], num))
  }

  /** Crossing a drawn number off every board extends the numbers drawn. */
  lemma MarkEachStep(gs: seq<Grid>, list: seq<int>, t: nat)
    requires AllFit(gs) && t < |list|
    ensures MarkEach(MarkAll(gs, list[..t]), list[t]) == MarkAll(gs, list[..t + 1])
  {
    assert list[..t + 1] == list[..t] + [list[t]];
    forall k | 0 <= k < |gs|
      ensures MarkEach(MarkAll(gs, list[..t]), list[t])[k] == MarkAll(gs, list[..t + 1])[k]
    {
      MarkStep(gs[k], list[..t], list[t]);
    }
  }

  datatype BingoResult = BingoResult(idx: int, lastNumberCalled: int)

  /**
   * `PlayBingo`: draws the numbers in turn, crossing each off every board,
   * and stops at the first draw after which some board has won.  It reports
   * the lowest such board and the number drawn; when no board ever wins, the
   * number of boards and -1.  The boards are returned as they were left.
   */
  method PlayBingo(gs: seq<Grid>, list: seq<int>) returns (result: BingoResult, grids: seq<Grid>)
    requires AllFit(gs)
    ensures 0 <= result.idx <= |gs|
    ensures result.idx < |gs| ==> exists t: nat :: t < |list| && result.lastNumberCalled == list[t] && FirstWin(gs, list, t, result.idx) && grids == MarkAll(gs, list[..t + 1])
    ensures result.idx == |gs| ==> result.lastNumberCalled == -1 && NoWinBefore(gs, list, |list|) && grids == MarkAll(gs, list)
  {
    result := BingoResult(|gs|, -1);
    grids := gs;
    assert forall k :: 0 <= k < |gs| ==> MarkedBy(gs[k], list[..0]) == gs[k] by {
      assert list[..0] == [];
      forall k | 0 <= k < |gs| {
        MarkedByNothing(gs[k]);
      }
    }
    var t := 0;
    while t < |list|
      invariant 0 <= t <= |list|
      invariant grids == MarkAll(gs, list[..t])
      invariant NoWinBefore(gs, list, t)
    {
      MarkEachStep(gs, list, t);
      grids := MarkEach(grids, list[t]);
      var pos := FindWinner(grids);
      if pos < |grids| {
        result := BingoResult(pos, list[t]);
        assert FirstWin(gs, list, t, pos);
        return;
      }
      t := t + 1;
    }
    assert list[..t] == list;
  }

  // ---------------------------------------------------------------------
  // The last board to win

  /** `remove_if(..., HasGridWon)`: the boards that have not won, in their order. */
  function Survivors(grids: seq<Grid>): (r: seq<Grid>)
    requires AllFit(grids)
    ensures AllFit(r) && |r| <= |grids|
    ensures forall q :: 0 <= q < |r| ==> r[q] in grids && !Won(r[q])
    ensures forall p :: 0 <= p < |grids| && !Won(grids[p]) ==> grids[p] in r
    decreases |grids|
  {
    if |grids| == 0 then []
    else
      var rest := Survivors(grids[1..]);
      assert forall p :: 1 <= p < |grids| ==> grids[p] == grids[1..][p - 1];
      if Won(grids[0]) then rest else [grids[0]] + rest
  }

  /** `HasGridWon` as the filter of a loop over the boards. */
  method RemoveWinners(grids: seq<Grid>) returns (kept: seq<Grid>)
    requires AllFit(grids)
    ensures kept == Survivors(grids)
  {
    kept := [];
    var p := |grids|;
    while p > 0
      invariant 0 <= p <= |grids|
      invariant kept == Survivors(grids[p..])
    {
      p := p - 1;
      var won := HasGridWon(grids[p]);
      assert grids[p..][1..] == grids[p + 1..];
      if !won {
        kept := [grids[p]] + kept;
      }
    }
  }

  /**
   * The boards in play are boards of the whole field `all`, and every board
   * of the field that has not won is in play.
   */
  predicate Tracks(all: seq<Grid>, grids: seq<Grid>)
    requires AllFit(all)
  {
    (forall q :: 0 <= q < |grids| ==> grids[q] in all)
    && (forall k :: 0 <= k < |all| && !Won(all[k]) ==> all[k] in grids)
  }

  /** Crossing a number off the boards in play and off the whole field keeps the tracking. */
  lemma TracksMark(all: seq<Grid>, grids: seq<Grid>, x: int)
    requires AllFit(all) && AllFit(grids) && Tracks(all, grids)
    ensures Tracks(MarkEach(all, x), MarkEach(grids, x))
  {
    var all' := MarkEach(all, x);
    var grids' := MarkEach(grids, x);
    forall q | 0 <= q < |grids'|
      ensures grids'[q] in all'
    {
      var k :| 0 <= k < |all| && all[k] == grids[q];
      assert all'[k] == grids'[q];
    }
    forall k | 0 <= k < |all'| && !Won(all'[k])
      ensures all'[k] in grids'
    {
      if Won(all[k]) {
        WonStaysWon(all[k], x);
      }
      var q :| 0 <= q < |grids| && grids[q] == all[k];
      assert grids'[q] == all'[k];
    }
  }

  /** Removing the boards that have won keeps the tracking. */
  lemma TracksSurvivors(all: seq<Grid>, grids: seq<Grid>)
    requires AllFit(all) && AllFit(grids) && Tracks(all, grids)
    ensures Tracks(all, Survivors(grids))
  {
    var kept := Survivors(grids);
    forall k | 0 <= k < |all| && !Won(all[k])
      ensures all[k] in kept
    {
      var q :| 0 <= q < |grids| && grids[q] == all[k];
    }
  }

  /**
   * Of the field `before` one draw earlier and `after` one draw later, `g`
   * is the last board to win: it is one of `after`, it had not won before,
   * and every board that had not won before is, after the draw, this board.
   */
  predicate LastAmong(before: seq<Grid>, after: seq<Grid>, g: Grid)
    requires AllFit(before) && |before| == |after|
  {
    (forall k :: 0 <= k < |before| && !Won(before[k]) ==> after[k] == g)
    && (exists k :: 0 <= k < |before| && after[k] == g && !Won(before[k]))
  }

  /**
   * The board `g` is the last to win, on draw `t`: it is one of the boards
   * after the first `t + 1` draws and, after more than one draw, the last of
   * them to win.
   */
  predicate LastWin(gs: seq<Grid>, list: seq<int>, t: nat, g: Grid)
    requires AllFit(gs) && t < |list|
  {
    g in MarkAll(gs, list[..t + 1]) && (t > 0 ==> LastAmong(MarkAll(gs, list[..t]), MarkAll(gs, list[..t + 1]), g))
  }

  /**
   * The boards in play before draw `t`: the whole field before the first
   * draw, and after it the boards of the field that have not won.
   */
  function InPlay(gs: seq<Grid>, list: seq<int>, t: nat): (r: seq<Grid>)
    requires AllFit(gs) && t <= |list|
    ensures AllFit(r)
  {
    if t == 0 then gs else Survivors(MarkAll(gs, list[..t]))
  }

  /** Draw `t` is the one the loop stops on: a single board is in play and this draw makes it win. */
  predicate SoleWinner(gs: seq<Grid>, list: seq<int>, t: nat)
    requires AllFit(gs) && t < |list|
  {
    var p := InPlay(gs, list, t);
    |p| == 1 && Won(MarkEach(p, list[t])[0])
  }

  /**
   * A single 1 by 1 board holding 7, with 7 drawn: the first draw is the
   * first `SoleWinner`, so `LastBoardToWin` must report 7, not -1.
   */
  lemma SoleWinnerExample()
    ensures AllFit([[[7]]]) && SoleWinner([[[7]]], [7], 0) && NoSoleBefore([[[7]]], [7], 0)
  {
    var gs: seq<Grid> := [[[7]]];
    var m := MarkEach(InPlay(gs, [7], 0), 7);
    assert m[0][0][0] == Crossed;
    assert RowDone(m[0][0]);
  }

  /** No draw before `n` is a `SoleWinner`. */
  predicate NoSoleBefore(gs: seq<Grid>, list: seq<int>, n: nat)
    requires AllFit(gs) && n <= |list|
  {
    forall u: nat :: u < n ==> !SoleWinner(gs, list, u)
  }

  lemma NoSoleStep(gs: seq<Grid>, list: seq<int>, t: nat)
    requires AllFit(gs) && t < |list|
    requires NoSoleBefore(gs, list, t) && !SoleWinner(gs, list, t)
    ensures NoSoleBefore(gs, list, t + 1)
  {
  }

  /** There is only one first `SoleWinner` draw. */
  lemma FirstSoleUnique(gs: seq<Grid>, list: seq<int>, t1: nat, t2: nat)
    requires AllFit(gs) && t1 < |list| && t2 < |list|
    requires SoleWinner(gs, list, t1) && NoSoleBefore(gs, list, t1)
    requires SoleWinner(gs, list, t2) && NoSoleBefore(gs, list, t2)
    ensures t1 == t2
  {
  }

  /**
   * `LastBoardtoWin`: while more than one board is left, the boards that
   * win are removed after each draw; once one board is left, the draw on
   * which it wins is reported, -1 when it never does.  The loop stops on
   * the first draw that is a `SoleWinner`, and on no other.
   */
  method LastBoardToWin(gs: seq<Grid>, list: seq<int>) returns (result: int, grids: seq<Grid>)
    requires AllFit(gs)
    ensures AllFit(grids)
    ensures result != -1 ==> |grids| == 1 && Won(grids[0])
    ensures result != -1 ==> exists t: nat :: t < |list| && list[t] == result && LastWin(gs, list, t, grids[0])
    ensures NoSoleBefore(gs, list, |list|) ==> result == -1 && grids == InPlay(gs, list, |list|)
    ensures forall t: nat :: t < |list| && SoleWinner(gs, list, t) && NoSoleBefore(gs, list, t) ==>
      result == list[t] && grids == MarkEach(InPlay(gs, list, t), list[t])
  {
    result := -1;
    grids := gs;
    TracksInitially(gs, list);
    assert grids == InPlay(gs, list, 0);
    assert NoSoleBefore(gs, list, 0);
    hide *;
    var t := 0;
    while t < |list|
      invariant 0 <= t <= |list|
      invariant AllFit(grids)
      invariant Tracks(MarkAll(gs, list[..t]), grids)
      invariant t > 0 ==> NoneWon(grids)
      invariant grids == InPlay(gs, list, t)
      invariant NoSoleBefore(gs, list, t)
    {
      var done;
      grids, done := Draw(gs, list, t, grids);
      if done {
        result := list[t];
        forall t': nat | t' < |list| && SoleWinner(gs, list, t') && NoSoleBefore(gs, list, t')
          ensures t' == t
        {
          FirstSoleUnique(gs, list, t', t);
        }
        return;
      }
      NoSoleStep(gs, list, t);
      t := t + 1;
    }
  }

  /**
   * One pass of the loop of `LastBoardtoWin`: draw `list[t]` on the boards
   * in play; with more than one board, remove the winners; with one, report
   * whether it has won.
   */
  method Draw(ghost gs: seq<Grid>, list: seq<int>, t: nat, grids: seq<Grid>) returns (next: seq<Grid>, done: bool)
    requires AllFit(gs) && t < |list| && AllFit(grids)
    requires Tracks(MarkAll(gs, list[..t]), grids) && (t > 0 ==> NoneWon(grids))
    requires grids == InPlay(gs, list, t)
    ensures AllFit(next)
    ensures done ==> |next| == 1 && Won(next[0]) && LastWin(gs, list, t, next[0])
    ensures !done ==> Tracks(MarkAll(gs, list[..t + 1]), next) && NoneWon(next)
    ensures done <==> SoleWinner(gs, list, t)
    ensures done ==> next == MarkEach(grids, list[t])
    ensures !done ==> next == InPlay(gs, list, t + 1)
  {
    InPlayStep(gs, list, t);
    hide *;
    ghost var field := MarkAll(gs, list[..t]);
    MarkEachStep(gs, list, t);
    TracksMark(field, grids, list[t]);
    next := MarkEach(grids, list[t]);
    if |grids| != 1 {
      TracksSurvivors(MarkAll(gs, list[..t + 1]), next);
      SurvivorsNoneWon(next);
      next := RemoveWinners(next);
      done := false;
    } else {
      OneBoard(grids, next, list[t], t > 0);
      done := HasGridWon(next[0]);
      if done {
        LastWinOf(field, MarkAll(gs, list[..t + 1]), grids, list[t], t > 0);
        LastWinFrom(gs, list, t, next[0]);
      }
    }
  }

  /**
   * What one draw does to the boards in play: with more than one board the
   * winners go and the rest are the boards in play before the next draw; a
   * single board that does not win stays in play; the draw is a
   * `SoleWinner` exactly when a single board wins.
   */
  lemma InPlayStep(gs: seq<Grid>, list: seq<int>, t: nat)
    requires AllFit(gs) && t < |list|
    ensures var p := InPlay(gs, list, t); var m := MarkEach(p, list[t]);
      (|p| != 1 ==> Survivors(m) == InPlay(gs, list, t + 1))
      && (|p| == 1 && !Won(m[0]) ==> m == InPlay(gs, list, t + 1))
      && (SoleWinner(gs, list, t) <==> |p| == 1 && Won(m[0]))
  {
    var p := InPlay(gs, list, t);
    var m := MarkEach(p, list[t]);
    MarkEachStep(gs, list, t);
    if t == 0 {
      MarkAllNothing(gs, list);
      assert m == MarkAll(gs, list[..t + 1]);
    } else {
      SurvivorsMark(MarkAll(gs, list[..t]), list[t]);
    }
    assert Survivors(m) == InPlay(gs, list, t + 1);
    if |p| == 1 && !Won(m[0]) {
      SurvivorsOfNoneWon(m);
    }
  }

  lemma MarkAllNothing(gs: seq<Grid>, list: seq<int>)
    requires AllFit(gs)
    ensures MarkAll(gs, list[..0]) == gs
  {
    assert list[..0] == [];
    forall k | 0 <= k < |gs|
      ensures MarkAll(gs, list[..0])[k] == gs[k]
    {
      MarkedByNothing(gs[k]);
    }
  }

  /** Boards that had won before a draw have still won after it, so removing them first changes nothing. */
  lemma {:induction false} SurvivorsMark(f: seq<Grid>, x: int)
    requires AllFit(f)
    ensures Survivors(MarkEach(Survivors(f), x)) == Survivors(MarkEach(f, x))
    decreases |f|
  {
    if |f| > 0 {
      var g, rest := f[0], f[1..];
      assert f == [g] + rest;
      SurvivorsMark(rest, x);
      SurvivorsCons(g, rest);
      MarkEachCons(g, rest, x);
      SurvivorsCons(Mark(g, x), MarkEach(rest, x));
      if Won(g) {
        WonStaysWon(g, x);
      } else {
        MarkEachCons(g, Survivors(rest), x);
        SurvivorsCons(Mark(g, x), MarkEach(Survivors(rest), x));
      }
    }
  }

  /** `Survivors` on a field with a first board. */
  lemma SurvivorsCons(g: Grid, rest: seq<Grid>)
    requires Fits(g) && AllFit(rest)
    ensures AllFit([g] + rest)
    ensures Survivors([g] + rest) == if Won(g) then Survivors(rest) else [g] + Survivors(rest)
  {
    assert ([g] + rest)[1..] == rest;
  }

  /** `MarkEach` on a field with a first board. */
  lemma MarkEachCons(g: Grid, rest: seq<Grid>, x: int)
    requires Fits(g) && AllFit(rest)
    ensures AllFit([g] + rest) && Fits(Mark(g, x))
    ensures MarkEach([g] + rest, x) == [Mark(g, x)] + MarkEach(rest, x)
  {
    MarkFits(g, x);
  }

  /** A field in which no board has won survives whole. */
  lemma {:induction false} SurvivorsOfNoneWon(g: seq<Grid>)
    requires AllFit(g) && NoneWon(g)
    ensures Survivors(g) == g
    decreases |g|
  {
    if |g| > 0 {
      SurvivorsOfNoneWon(g[1..]);
      assert [g[0]] + g[1..] == g;
    }
  }

  /** No board in play has won. */
  predicate NoneWon(grids: seq<Grid>)
    requires AllFit(grids)
  {
    forall q :: 0 <= q < |grids| ==> !Won(grids[q])
  }

  lemma SurvivorsNoneWon(grids: seq<Grid>)
    requires AllFit(grids)
    ensures AllFit(Survivors(grids)) && NoneWon(Survivors(grids))
  {
  }

  /** The sole board in play, crossed off once more. */
  lemma OneBoard(before: seq<Grid>, grids: seq<Grid>, x: int, later: bool)
    requires AllFit(before) && |before| == 1 && grids == MarkEach(before, x)
    requires later ==> NoneWon(before)
    ensures Fits(grids[0]) && grids == [grids[0]] && grids[0] == Mark(before[0], x)
    ensures later ==> !Won(before[0])
    ensures !Won(grids[0]) ==> NoneWon(grids)
  {
  }

  lemma TracksInitially(gs: seq<Grid>, list: seq<int>)
    requires AllFit(gs)
    ensures Tracks(MarkAll(gs, list[..0]), gs)
  {
    assert list[..0] == [];
    forall k | 0 <= k < |gs| {
      MarkedByNothing(gs[k]);
    }
    assert MarkAll(gs, list[..0]) == gs;
  }

  lemma LastWinFrom(gs: seq<Grid>, list: seq<int>, t: nat, g: Grid)
    requires AllFit(gs) && t < |list|
    requires g in MarkAll(gs, list[..t + 1])
    requires t > 0 ==> LastAmong(MarkAll(gs, list[..t]), MarkAll(gs, list[..t + 1]), g)
    ensures LastWin(gs, list, t, g)
  {
  }

  /** The sole board left wins on this draw: it is the last board to win. */
  lemma LastWinOf(field: seq<Grid>, after: seq<Grid>, before: seq<Grid>, x: int, later: bool)
    requires AllFit(field) && AllFit(before) && |before| == 1
    requires after == MarkEach(field, x) && Tracks(field, before)
    requires later ==> !Won(before[0])
    ensures Mark(before[0], x) in after
    ensures later ==> LastAmong(field, after, Mark(before[0], x))
  {
    var g := Mark(before[0], x);
    var k0 :| 0 <= k0 < |field| && field[k0] == before[0];
    assert after[k0] == g;
    forall k | 0 <= k < |field| && !Won(field[k])
      ensures after[k] == g
    {
      assert field[k] == before[0];
    }
  }
}
