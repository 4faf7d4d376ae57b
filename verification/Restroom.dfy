/**
 * Restroom Redoubt (2024, day 14): robots move in straight lines on a
 * grid that wraps around at its edges.  Part 1 multiplies the robot counts
 * of the four quadrants after 100 seconds, leaving out the middle row and
 * column; part 2 reports the first second, up to 10000, after which no two
 * robots share a cell.
 */
module Restroom {

  import opened Common
  import opened Decimal

  datatype XYPoint = XYPoint(x: int, y: int)

  datatype RobotInfo = RobotInfo(position: XYPoint, velocity: XYPoint)

  // ---------------------------------------------------------------------
  // Input lines

  /** `erase(0, 2)`: the first two characters go, or all of a shorter string. */
  function Erase2(s: string): string
  {
    if |s| <= 2 then [] else s[2..]
  }

  /**
   * The lines `ProcessString` can index: two space-separated tokens, each
   * holding two comma-separated numbers after its two-letter prefix.  On
   * any other line it reads past the end of a vector.
   */
  predicate WellFormed(line: string)
  {
    var t := Split(line, ' ');
    |t| >= 2 && |Split(Erase2(t[0]), ',')| >= 2 && |Split(Erase2(t[1]), ',')| >= 2
  }

  /** `ProcessString`: `p=x,y v=dx,dy`, or `None` where a `stoi` throws. */
  function ProcessString(line: string): Option<RobotInfo>
    requires WellFormed(line)
  {
    var t := Split(line, ' ');
    var position := Split(Erase2(t[0]), ',');
    var velocity := Split(Erase2(t[1]), ',');
    match (Stoi(position[0]), Stoi(position[1]), Stoi(velocity[0]), Stoi(velocity[1]))
    case (Some(px), Some(py), Some(vx), Some(vy)) => Some(RobotInfo(XYPoint(px, py), XYPoint(vx, vy)))
    case _ => None
  }

  function ShowPair(p: XYPoint): string
  {
    ShowInt(p.x) + "," + ShowInt(p.y)
  }

  /** A robot written the way the input writes it. */
  function ShowRobot(r: RobotInfo): string
  {
    "p=" + ShowPair(r.position) + " v=" + ShowPair(r.velocity)
  }

  lemma ShowPairSplit(p: XYPoint)
    ensures Split(ShowPair(p), ',') == [ShowInt(p.x), ShowInt(p.y)]
    ensures forall j :: 0 <= j < |ShowPair(p)| ==> ShowPair(p)[j] != ' '
  {
    ShowIntSymbols(p.x);
    ShowIntSymbols(p.y);
    var X, Y := ShowInt(p.x), ShowInt(p.y);
    hide ShowInt, Split;
    var ts := [X, Y];
    assert ShowPair(p) == X + [','] + Y;
    assert Join(ts, ',') == X + [','] + Join(ts[1..], ',');
    assert ts[1..] == [Y];
    SplitJoin(ts, ',');
    forall j | 0 <= j < |ShowPair(p)|
      ensures ShowPair(p)[j] != ' '
    {
      if j < |X| {
        assert ShowPair(p)[j] == X[j];
      } else if j > |X| {
        assert ShowPair(p)[j] == Y[j - |X| - 1];
      }
    }
  }

  lemma LineTokens(r: RobotInfo)
    ensures Split(ShowRobot(r), ' ') == ["p=" + ShowPair(r.position), "v=" + ShowPair(r.velocity)]
  {
    var P, V := ShowPair(r.position), ShowPair(r.velocity);
    ShowPairSplit(r.position);
    ShowPairSplit(r.velocity);
    hide ShowPair, ShowInt, Split;
    var a, b := "p=" + P, "v=" + V;
    var ts := [a, b];
    assert ShowRobot(r) == a + [' '] + b;
    assert Join(ts, ' ') == a + [' '] + Join(ts[1..], ' ');
    assert ts[1..] == [b];
    assert forall j :: 0 <= j < |a| ==> a[j] != ' ' by {
      assert forall j :: 2 <= j < |a| ==> a[j] == P[j - 2];
    }
    assert forall j :: 0 <= j < |b| ==> b[j] != ' ' by {
      assert forall j :: 2 <= j < |b| ==> b[j] == V[j - 2];
    }
    SplitJoin(ts, ' ');
  }

  lemma StoiShow(n: int)
    ensures Stoi(ShowInt(n)) == Some(n)
  {
    StoiShowInt(n, "");
    assert ShowInt(n) + "" == ShowInt(n);
  }

  /** A robot written out reads back as itself. */
  lemma ProcessShowRobot(r: RobotInfo)
    ensures WellFormed(ShowRobot(r)) && ProcessString(ShowRobot(r)) == Some(r)
  {
    LineTokens(r);
    ShowPairSplit(r.position);
    ShowPairSplit(r.velocity);
    StoiShow(r.position.x);
    StoiShow(r.position.y);
    StoiShow(r.velocity.x);
    StoiShow(r.velocity.y);
    hide ShowRobot, ShowPair, ShowInt, Split, Stoi;
    var t := ["p=" + ShowPair(r.position), "v=" + ShowPair(r.velocity)];
    assert Erase2(t[0]) == ShowPair(r.position);
    assert Erase2(t[1]) == ShowPair(r.velocity);
  }

  // ---------------------------------------------------------------------
  // Motion

  /**
   * `CalculateNewPosition`: the coordinate after `n` seconds on an axis
   * `m` long that wraps around; C++'s `%` can be negative, so `m` is added
   * and the remainder taken once more.  The result is the mathematical
   * remainder of `p + v * n`.
   */
  function CalculateNewPosition(p: int, v: int, n: int, m: int): (r: int)
    requires m > 0
    ensures r == (p + v * n) % m
  {
    var a := p + v * n;
    ModOfRem(a, m);
    TRem(TRem(a, m) + m, m)
  }

  /** Adding `m` to the C++ remainder and taking it again gives the Euclidean remainder. */
  lemma ModOfRem(a: int, m: int)
    requires m > 0
    ensures TRem(TRem(a, m) + m, m) == a % m
  {
    if a >= 0 {
      var t := a % m;
      ModUnique(t + m, m, 1, t);
    } else {
      var s := (-a) % m;
      var q := (-a) / m;
      assert -a == m * q + s;
      if s == 0 {
        ModUnique(a, m, -q, 0);
        ModUnique(m, m, 1, 0);
      } else {
        ModUnique(a, m, -q - 1, m - s);
        ModUnique(m - s, m, 0, m - s);
      }
    }
  }

  /** One more second after `n` seconds is `n + 1` seconds. */
  lemma NewPositionStep(p: int, v: int, n: int, m: int)
    requires m > 0
    ensures CalculateNewPosition(CalculateNewPosition(p, v, n, m), v, 1, m) == CalculateNewPosition(p, v, n + 1, m)
  {
    var a := p + v * n;
    var q, r := a / m, a % m;
    assert a + v == m * q + (r + v);
    var q2, r2 := (r + v) / m, (r + v) % m;
    assert a + v == m * (q + q2) + r2;
    assert p + v * (n + 1) == a + v;
    ModUnique(p + v * (n + 1), m, q + q2, r2);
  }

  /** Zero seconds leave an in-range coordinate where it is. */
  lemma NewPositionZero(p: int, v: int, m: int)
    requires m > 0 && 0 <= p < m
    ensures CalculateNewPosition(p, v, 0, m) == p
  {
    ModUnique(p, m, 0, p);
  }

  /** The robot after `n` seconds on a `rows` by `cols` grid: `x` wraps at `cols`, `y` at `rows`. */
  function Move(r: RobotInfo, n: int, rows: int, cols: int): (m: RobotInfo)
    requires rows > 0 && cols > 0
    ensures OnGrid(m.position, rows, cols) && m.velocity == r.velocity
  {
    RobotInfo(XYPoint(CalculateNewPosition(r.position.x, r.velocity.x, n, cols),
                      CalculateNewPosition(r.position.y, r.velocity.y, n, rows)), r.velocity)
  }

  /** Every robot after `n` seconds; none leaves the grid. */
  function MoveAll(rs: seq<RobotInfo>, n: int, rows: int, cols: int): (out: seq<RobotInfo>)
    requires rows > 0 && cols > 0
    ensures |out| == |rs| && InRange(out, rows, cols)
  {
    seq(|rs|, i requires 0 <= i < |rs| => Move(rs[i], n, rows, cols))
  }

  /** Moving one second at a time is moving the whole time at once. */
  lemma MoveAllStep(rs: seq<RobotInfo>, n: int, rows: int, cols: int)
    requires rows > 0 && cols > 0
    ensures MoveAll(MoveAll(rs, n, rows, cols), 1, rows, cols) == MoveAll(rs, n + 1, rows, cols)
  {
    forall i | 0 <= i < |rs|
      ensures Move(Move(rs[i], n, rows, cols), 1, rows, cols) == Move(rs[i], n + 1, rows, cols)
    {
      NewPositionStep(rs[i].position.x, rs[i].velocity.x, n, cols);
      NewPositionStep(rs[i].position.y, rs[i].velocity.y, n, rows);
    }
  }

  /** Robots on the grid are where they were after zero seconds. */
  lemma MoveAllZero(rs: seq<RobotInfo>, rows: int, cols: int)
    requires rows > 0 && cols > 0 && InRange(rs, rows, cols)
    ensures MoveAll(rs, 0, rows, cols) == rs
  {
    forall i | 0 <= i < |rs|
      ensures Move(rs[i], 0, rows, cols) == rs[i]
    {
      assert Positions(rs)[i] == rs[i].position;
      NewPositionZero(rs[i].position.x, rs[i].velocity.x, cols);
      NewPositionZero(rs[i].position.y, rs[i].velocity.y, rows);
    }
  }

  // ---------------------------------------------------------------------
  // The robot count of every cell

  type Grid = seq<seq<int>>

  function Positions(rs: seq<RobotInfo>): (ps: seq<XYPoint>)
    ensures |ps| == |rs| && forall i :: 0 <= i < |rs| ==> ps[i] == rs[i].position
  {
    seq(|rs|, i requires 0 <= i < |rs| => rs[i].position)
  }

  predicate OnGrid(p: XYPoint, rows: int, cols: int)
  {
    0 <= p.x < cols && 0 <= p.y < rows
  }

  /** Every point lies on a `rows` by `cols` grid. */
  predicate Within(ps: seq<XYPoint>, rows: int, cols: int)
  {
    forall i :: 0 <= i < |ps| ==> OnGrid(ps[i], rows, cols)
  }

  /** Every robot stands on a `rows` by `cols` grid. */
  predicate InRange(rs: seq<RobotInfo>, rows: int, cols: int)
  {
    Within(Positions(rs), rows, cols)
  }

  /** Row `y`, column `x` holds the number of points at `(x, y)`. */
  function Census(ps: seq<XYPoint>, rows: nat, cols: nat): (g: Grid)
    ensures Rect(g, rows, cols)
  {
    seq(rows, y requires 0 <= y < rows => seq(cols, x requires 0 <= x < cols => Count(ps, XYPoint(x, y))))
  }

  lemma CensusCells(ps: seq<XYPoint>, rows: nat, cols: nat)
    ensures forall y, x :: 0 <= y < rows && 0 <= x < cols ==> Census(ps, rows, cols)[y][x] == Count(ps, XYPoint(x, y))
  {
  }

  /** The cell at `p` changed by `d`. */
  function Bump(g: Grid, p: XYPoint, d: int): (h: Grid)
    requires 0 <= p.y < |g| && 0 <= p.x < |g[p.y]|
  {
    g[p.y := g[p.y][p.x := g[p.y][p.x] + d]]
  }

  lemma BumpCell(g: Grid, p: XYPoint, d: int, rows: int, cols: int)
    requires Rect(g, rows, cols) && OnGrid(p, rows, cols)
    ensures Rect(Bump(g, p, d), rows, cols)
    ensures forall y, x :: 0 <= y < rows && 0 <= x < cols ==>
      Bump(g, p, d)[y][x] == g[y][x] + (if XYPoint(x, y) == p then d else 0)
  {
  }

  /** One more point adds one to its own cell. */
  lemma CensusAdd(ps: seq<XYPoint>, p: XYPoint, rows: nat, cols: nat)
    requires OnGrid(p, rows, cols)
    ensures Census(ps + [p], rows, cols) == Bump(Census(ps, rows, cols), p, 1)
  {
    var a, b := Census(ps + [p], rows, cols), Bump(Census(ps, rows, cols), p, 1);
    BumpCell(Census(ps, rows, cols), p, 1, rows, cols);
    forall y, x | 0 <= y < rows && 0 <= x < cols
      ensures a[y][x] == b[y][x]
    {
      CountAppend(ps, [p], XYPoint(x, y));
      assert [p][..0] == [];
    }
    GridEq(a, b, rows, cols);
  }

  /**
   * `CreateGrid`: a `rows` by `cols` grid counting the robots in each cell,
   * or `None` when some robot stands outside it and `at` throws.
   */
  method CreateGrid(rows: nat, cols: nat, rs: seq<RobotInfo>) returns (r: Option<Grid>)
    ensures r.None? <==> !InRange(rs, rows, cols)
    ensures r.Some? ==> r.value == Census(Positions(rs), rows, cols)
  {
    var g := seq(rows, y => seq(cols, x => 0));
    GridEq(g, Census([], rows, cols), rows, cols);
    var i := 0;
    while i < |rs|
      invariant 0 <= i <= |rs|
      invariant Within(Positions(rs)[..i], rows, cols)
      invariant g == Census(Positions(rs)[..i], rows, cols)
    {
      var p := rs[i].position;
      if !OnGrid(p, rows, cols) {
        return None;
      }
      assert Positions(rs)[..i + 1] == Positions(rs)[..i] + [p];
      CensusAdd(Positions(rs)[..i], p, rows, cols);
      g := Bump(g, p, 1);
      i := i + 1;
    }
    assert rs[..i] == rs && Positions(rs)[..i] == Positions(rs);
    return Some(g);
  }

  /** The grid after one robot moved from `p` to `q`. */
  lemma MoveCell(h: Grid, p: XYPoint, q: XYPoint, ps: seq<XYPoint>, k: int, rows: int, cols: int)
    requires Rect(h, rows, cols) && OnGrid(p, rows, cols) && OnGrid(q, rows, cols)
    requires 0 <= k < |ps| && ps[k] == p
    ensures Rect(Bump(h, q, 1), rows, cols)
    ensures Rect(Bump(Bump(h, q, 1), p, -1), rows, cols)
    ensures forall y, x :: 0 <= y < rows && 0 <= x < cols ==>
      Bump(Bump(h, q, 1), p, -1)[y][x] - Count(ps[k := q], XYPoint(x, y)) == h[y][x] - Count(ps, XYPoint(x, y))
  {
    BumpCell(h, q, 1, rows, cols);
    BumpCell(Bump(h, q, 1), p, -1, rows, cols);
    forall y, x | 0 <= y < rows && 0 <= x < cols
      ensures Bump(Bump(h, q, 1), p, -1)[y][x] - Count(ps[k := q], XYPoint(x, y)) == h[y][x] - Count(ps, XYPoint(x, y))
    {
      CountUpdate(ps, k, q, XYPoint(x, y));
    }
  }

  /**
   * `Execute_N_Iterations`: every robot jumps `n` seconds ahead in turn, its
   * new cell gaining one and its old cell losing one; `None` when a robot's
   * old cell is off the grid and `at` throws.  Each cell changes by the
   * robots arriving minus those leaving, so a grid that counted the robots
   * before counts them after.
   */
  method ExecuteIterations(rs: seq<RobotInfo>, g: Grid, n: int) returns (r: Option<(seq<RobotInfo>, Grid)>)
    requires |g| >= 1 && |g[0]| >= 1 && Rect(g, |g|, |g[0]|)
    ensures r.None? <==> !InRange(rs, |g|, |g[0]|)
    ensures r.Some? ==> r.value.0 == MoveAll(rs, n, |g|, |g[0]|)
    ensures r.Some? ==> Rect(r.value.1, |g|, |g[0]|)
    ensures r.Some? ==> forall y, x :: 0 <= y < |g| && 0 <= x < |g[0]| ==>
      r.value.1[y][x] == g[y][x] + Count(Positions(r.value.0), XYPoint(x, y)) - Count(Positions(rs), XYPoint(x, y))
    ensures r.Some? && g == Census(Positions(rs), |g|, |g[0]|) ==>
      r.value.1 == Census(Positions(r.value.0), |g|, |g[0]|)
  {
    hide Census, Bump, Count, CalculateNewPosition, Move, Positions;
    var rows, cols := |g|, |g[0]|;
    var cur, h, i := rs, g, 0;
    while i < |rs|
      invariant 0 <= i <= |rs| && |cur| == |rs|
      invariant forall j :: 0 <= j < i ==> cur[j] == Move(rs[j], n, rows, cols)
      invariant forall j :: i <= j < |rs| ==> cur[j] == rs[j]
      invariant Within(Positions(rs)[..i], rows, cols)
      invariant Rect(h, rows, cols)
      invariant forall y, x :: 0 <= y < rows && 0 <= x < cols ==>
        h[y][x] - Count(Positions(cur), XYPoint(x, y)) == g[y][x] - Count(Positions(rs), XYPoint(x, y))
    {
      var p := cur[i].position;
      var moved := Move(cur[i], n, rows, cols);
      if !OnGrid(p, rows, cols) {
        return None;
      }
      MoveCell(h, p, moved.position, Positions(cur), i, rows, cols);
      assert Positions(cur[i := moved]) == Positions(cur)[i := moved.position];
      h := Bump(Bump(h, moved.position, 1), p, -1);
      cur := cur[i := moved];
      i := i + 1;
    }
    assert Positions(rs)[..i] == Positions(rs);
    assert cur == MoveAll(rs, n, rows, cols);
    if g == Census(Positions(rs), rows, cols) {
      CensusCells(Positions(rs), rows, cols);
      CensusCells(Positions(cur), rows, cols);
      GridEq(h, Census(Positions(cur), rows, cols), rows, cols);
    }
    return Some((cur, h));
  }

  // ---------------------------------------------------------------------
  // Quadrants

  /** The first half of a row added up, or its last half when reversed; an odd middle cell is in neither. */
  function HalfRow(row: seq<int>, reverse: bool): int
  {
    if reverse then Sum(row[|row| - |row| / 2..]) else Sum(row[..|row| / 2])
  }

  function HalfRows(t: Grid, reverse: bool): (h: seq<int>)
    ensures |h| == |t| && forall i :: 0 <= i < |t| ==> h[i] == HalfRow(t[i], reverse)
  {
    seq(|t|, i requires 0 <= i < |t| => HalfRow(t[i], reverse))
  }

  /** `CalculateRobotCountInQuadrant`: the half rows of a run of rows added up. */
  function QuadrantCount(t: Grid, reverse: bool): int
  {
    Sum(HalfRows(t, reverse))
  }

  /**
   * `CalculateRobotCountForEachQuadrant`: top left, top right, bottom left,
   * bottom right; an odd middle row is in none.  The bottom rows are read
   * from the last one up, which does not change a sum.
   */
  function Quadrants(g: Grid): (int, int, int, int)
  {
    var mid := |g| / 2;
    (QuadrantCount(g[..mid], false), QuadrantCount(g[..mid], true),
     QuadrantCount(g[|g| - mid..], false), QuadrantCount(g[|g| - mid..], true))
  }

  /** Columns `x0 <= x < x1` of rows `y0 <= y < y1`. */
  datatype Box = Box(x0: int, x1: int, y0: int, y1: int)

  predicate InBox(p: XYPoint, b: Box)
  {
    b.x0 <= p.x < b.x1 && b.y0 <= p.y < b.y1
  }

  /** Number of points inside `b`. */
  function CountIn(ps: seq<XYPoint>, b: Box): nat
  {
    if |ps| == 0 then 0 else CountIn(ps[..|ps| - 1], b) + (if InBox(ps[|ps| - 1], b) then 1 else 0)
  }

  /** The columns a half row covers. */
  function HalfBox(cols: int, reverse: bool, y0: int, y1: int): Box
  {
    if reverse then Box(cols - cols / 2, cols, y0, y1) else Box(0, cols / 2, y0, y1)
  }

  /** The four quadrants in the order the puzzle multiplies them. */
  function Quadrant(k: int, rows: int, cols: int): Box
  {
    if k == 0 then HalfBox(cols, false, 0, rows / 2)
    else if k == 1 then HalfBox(cols, true, 0, rows / 2)
    else if k == 2 then HalfBox(cols, false, rows - rows / 2, rows)
    else HalfBox(cols, true, rows - rows / 2, rows)
  }

  /** The safety factor: the product of the robot counts of the four quadrants. */
  function SafetyFactor(ps: seq<XYPoint>, rows: int, cols: int): int
  {
    CountIn(ps, Quadrant(0, rows, cols)) * CountIn(ps, Quadrant(1, rows, cols)) *
    CountIn(ps, Quadrant(2, rows, cols)) * CountIn(ps, Quadrant(3, rows, cols))
  }

  lemma HalfRowBump(row: seq<int>, x: int, reverse: bool, cols: int)
    requires |row| == cols && 0 <= x < cols
    ensures HalfRow(row[x := row[x] + 1], reverse) ==
      HalfRow(row, reverse) + (if HalfBox(cols, reverse, 0, 1).x0 <= x < HalfBox(cols, reverse, 0, 1).x1 then 1 else 0)
  {
    var row' := row[x := row[x] + 1];
    var a, b := HalfBox(cols, reverse, 0, 1).x0, HalfBox(cols, reverse, 0, 1).x1;
    assert HalfRow(row, reverse) == Sum(row[a..b]) && HalfRow(row', reverse) == Sum(row'[a..b]) by {
      if reverse {
        assert row[a..] == row[a..b] && row'[a..] == row'[a..b];
      } else {
        assert row[..b] == row[a..b] && row'[..b] == row'[a..b];
      }
    }
    if a <= x < b {
      assert row'[a..b] == row[a..b][x - a := row[x] + 1];
      SumUpdate(row[a..b], x - a, row[x] + 1);
    } else {
      assert row'[a..b] == row[a..b];
    }
  }

  /** The run of rows `t` with row `j` replaced by `row'`, one more robot at column `x`. */
  lemma QuadrantBumpRow(t: Grid, j: int, row': seq<int>, x: int, cols: int, reverse: bool)
    requires 0 <= j < |t| && |t[j]| == cols && 0 <= x < cols && row' == t[j][x := t[j][x] + 1]
    ensures QuadrantCount(t[j := row'], reverse) ==
      QuadrantCount(t, reverse) + (if HalfBox(cols, reverse, 0, 1).x0 <= x < HalfBox(cols, reverse, 0, 1).x1 then 1 else 0)
  {
    HalfRowBump(t[j], x, reverse, cols);
    hide HalfRow, Sum;
    var h, h' := HalfRows(t, reverse), HalfRows(t[j := row'], reverse);
    assert h' == h[j := HalfRow(row', reverse)];
    SumUpdate(h, j, HalfRow(row', reverse));
  }

  /** One more robot at `p` adds one to each quadrant sum whose area holds `p`. */
  lemma QuadrantBump(g: Grid, p: XYPoint, rows: int, cols: int, y0: int, y1: int, reverse: bool)
    requires Rect(g, rows, cols) && OnGrid(p, rows, cols) && 0 <= y0 <= y1 <= rows
    ensures QuadrantCount(Bump(g, p, 1)[y0..y1], reverse) ==
      QuadrantCount(g[y0..y1], reverse) + (if InBox(p, HalfBox(cols, reverse, y0, y1)) then 1 else 0)
  {
    var t, t' := g[y0..y1], Bump(g, p, 1)[y0..y1];
    var row' := g[p.y][p.x := g[p.y][p.x] + 1];
    assert Bump(g, p, 1) == g[p.y := row'];
    hide Bump, QuadrantCount;
    if y0 <= p.y < y1 {
      var j := p.y - y0;
      assert t' == t[j := row'];
      QuadrantBumpRow(t, j, row', p.x, cols, reverse);
      assert InBox(p, HalfBox(cols, reverse, y0, y1)) <==>
        HalfBox(cols, reverse, 0, 1).x0 <= p.x < HalfBox(cols, reverse, 0, 1).x1;
    } else {
      assert t' == t;
      assert !InBox(p, HalfBox(cols, reverse, y0, y1));
    }
  }

  /** Over a grid that counts the robots, a quadrant sum is the number of robots in that quadrant. */
  lemma {:induction false} QuadrantCensus(ps: seq<XYPoint>, rows: nat, cols: nat, y0: int, y1: int, reverse: bool)
    requires Within(ps, rows, cols) && 0 <= y0 <= y1 <= rows
    ensures QuadrantCount(Census(ps, rows, cols)[y0..y1], reverse) == CountIn(ps, HalfBox(cols, reverse, y0, y1))
    decreases |ps|
  {
    if |ps| == 0 {
      var t := Census(ps, rows, cols)[y0..y1];
      forall i | 0 <= i < |t|
        ensures HalfRows(t, reverse)[i] == 0
      {
        var row := t[i];
        assert forall k :: 0 <= k < cols ==> row[k] == 0;
        SumZero(row[..cols / 2]);
        SumZero(row[cols - cols / 2..]);
      }
      SumZero(HalfRows(t, reverse));
    } else {
      var front, p := ps[..|ps| - 1], ps[|ps| - 1];
      assert ps == front + [p];
      QuadrantCensus(front, rows, cols, y0, y1, reverse);
      CensusAdd(front, p, rows, cols);
      QuadrantBump(Census(front, rows, cols), p, rows, cols, y0, y1, reverse);
    }
  }

  /** The four sums over a grid that counts the robots are the robot counts of the four quadrants. */
  lemma QuadrantsCensus(ps: seq<XYPoint>, rows: nat, cols: nat)
    requires Within(ps, rows, cols)
    ensures var q := Quadrants(Census(ps, rows, cols));
      q.0 == CountIn(ps, Quadrant(0, rows, cols)) && q.1 == CountIn(ps, Quadrant(1, rows, cols)) &&
      q.2 == CountIn(ps, Quadrant(2, rows, cols)) && q.3 == CountIn(ps, Quadrant(3, rows, cols))
  {
    var g := Census(ps, rows, cols);
    hide Census, QuadrantCount, CountIn;
    assert g[..rows / 2] == g[0..rows / 2] && g[rows - rows / 2..] == g[rows - rows / 2..rows];
    QuadrantCensus(ps, rows, cols, 0, rows / 2, false);
    QuadrantCensus(ps, rows, cols, 0, rows / 2, true);
    QuadrantCensus(ps, rows, cols, rows - rows / 2, rows, false);
    QuadrantCensus(ps, rows, cols, rows - rows / 2, rows, true);
  }

  /** On the middle row or the middle column of an odd-sized grid. */
  predicate OnMiddle(p: XYPoint, rows: int, cols: int)
  {
    rows / 2 <= p.y < rows - rows / 2 || cols / 2 <= p.x < cols - cols / 2
  }

  function CountMiddle(ps: seq<XYPoint>, rows: int, cols: int): nat
  {
    if |ps| == 0 then 0 else CountMiddle(ps[..|ps| - 1], rows, cols) + (if OnMiddle(ps[|ps| - 1], rows, cols) then 1 else 0)
  }

  /** The quadrants and the middle lines split the grid: every robot on it is counted exactly once. */
  lemma {:induction false} QuadrantsPartition(ps: seq<XYPoint>, rows: int, cols: int)
    requires Within(ps, rows, cols)
    ensures CountIn(ps, Quadrant(0, rows, cols)) + CountIn(ps, Quadrant(1, rows, cols)) +
      CountIn(ps, Quadrant(2, rows, cols)) + CountIn(ps, Quadrant(3, rows, cols)) + CountMiddle(ps, rows, cols) == |ps|
    decreases |ps|
  {
    if |ps| > 0 {
      QuadrantsPartition(ps[..|ps| - 1], rows, cols);
    }
  }

  // ---------------------------------------------------------------------
  // The two parts

  /** `Day14Part1`: the safety factor after 100 seconds, or `None` where `CreateGrid` throws. */
  method Day14Part1(rs: seq<RobotInfo>, rows: nat, cols: nat) returns (r: Option<int>)
    requires rows >= 1 && cols >= 1
    ensures r.None? <==> !InRange(rs, rows, cols)
    ensures r.Some? ==> r.value == SafetyFactor(Positions(MoveAll(rs, 100, rows, cols)), rows, cols)
  {
    var c := CreateGrid(rows, cols, rs);
    if c.None? {
      return None;
    }
    var e := ExecuteIterations(rs, c.value, 100);
    assert e.Some?;
    var robots, g := e.value.0, e.value.1;
    QuadrantsCensus(Positions(robots), rows, cols);
    var q := Quadrants(g);
    return Some(q.0 * q.1 * q.2 * q.3);
  }

  /** No cell holds more than one robot. */
  predicate Sparse(g: Grid)
  {
    forall y, x :: 0 <= y < |g| && 0 <= x < |g[y]| ==> g[y][x] <= 1
  }

  /** A grid that counts the robots has no cell above one exactly when no two robots share a cell. */
  lemma SparseCensus(ps: seq<XYPoint>, rows: nat, cols: nat)
    requires Within(ps, rows, cols)
    ensures Sparse(Census(ps, rows, cols)) <==> Distinct(ps)
  {
    var g := Census(ps, rows, cols);
    CensusCells(ps, rows, cols);
    if !Distinct(ps) {
      var i, j :| 0 <= i < j < |ps| && ps[i] == ps[j];
      var q := ps[i];
      CountTwice(ps, q);
      assert g[q.y][q.x] >= 2;
    }
    if !Sparse(g) {
      var y, x :| 0 <= y < |g| && 0 <= x < |g[y]| && g[y][x] > 1;
      CountTwice(ps, XYPoint(x, y));
    }
  }

  /** One pass of the loop in `Day14Part2`: the robots one second further and whether they are all apart. */
  method Second(rs: seq<RobotInfo>, ii: nat, robots: seq<RobotInfo>, g: Grid, rows: nat, cols: nat)
    returns (robots': seq<RobotInfo>, g': Grid, apart: bool)
    requires rows >= 1 && cols >= 1
    requires robots == MoveAll(rs, ii, rows, cols) && g == Census(Positions(robots), rows, cols)
    ensures robots' == MoveAll(rs, ii + 1, rows, cols) && g' == Census(Positions(robots'), rows, cols)
    ensures apart <==> Distinct(Positions(robots'))
  {
    var e := ExecuteIterations(robots, g, 1);
    assert e.Some?;
    robots', g' := e.value.0, e.value.1;
    MoveAllStep(rs, ii, rows, cols);
    SparseCensus(Positions(robots'), rows, cols);
    apart := Sparse(g');
  }

  /**
   * `Day14Part2`: the first second, counting from one and at most 10000,
   * after which no two robots share a cell, or zero when there is none;
   * `None` where `CreateGrid` throws.
   */
  method Day14Part2(rs: seq<RobotInfo>, rows: nat, cols: nat) returns (r: Option<int>)
    requires rows >= 1 && cols >= 1
    ensures r.None? <==> !InRange(rs, rows, cols)
    ensures r.Some? ==> 0 <= r.value <= 10000
    ensures r.Some? && r.value > 0 ==> Distinct(Positions(MoveAll(rs, r.value, rows, cols)))
    ensures r.Some? ==> forall k :: 1 <= k <= 10000 && (r.value == 0 || k < r.value) ==>
      !Distinct(Positions(MoveAll(rs, k, rows, cols)))
  {
    var c := CreateGrid(rows, cols, rs);
    if c.None? {
      return None;
    }
    MoveAllZero(rs, rows, cols);
    hide MoveAll, Distinct, Census, Positions;
    var robots, g := rs, c.value;
    var ii := 0;
    while ii < 10000
      invariant 0 <= ii <= 10000
      invariant robots == MoveAll(rs, ii, rows, cols)
      invariant g == Census(Positions(robots), rows, cols)
      invariant forall k :: 1 <= k <= ii ==> !Distinct(Positions(MoveAll(rs, k, rows, cols)))
    {
      var apart;
      robots, g, apart := Second(rs, ii, robots, g, rows, cols);
      if apart {
        return Some(ii + 1);
      }
      ii := ii + 1;
    }
    return Some(0);
  }
}
