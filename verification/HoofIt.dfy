/**
 * 2024 day 10: a topographic map of digits.  A hiking trail starts at a
 * `0`, climbs by exactly one at each step to one of the four neighbours and
 * ends at a `9`.  The traversal keeps a queue of positions without any
 * visited set, so every trail is walked separately; part 1 scores a
 * trailhead by the distinct `9`s it reaches, part 2 by its trails.
 */
module HoofIt {
  import opened Common

  type Grid = seq<seq<char>>

  datatype Cell = Cell(i: int, j: int)

  /** The order `TraversePaths` tries the neighbours in: right, down, left, up. */
  const Directions: seq<(int, int)> := [(0, 1), (1, 0), (0, -1), (-1, 0)]

  /** Every row is at least `cols` wide, so a column below `cols` can be read in any row. */
  predicate Fits(m: Grid, cols: int)
  {
    forall r :: 0 <= r < |m| ==> cols <= |m[r]|
  }

  predicate OnMap(m: Grid, c: Cell)
  {
    0 <= c.i < |m| && 0 <= c.j < |m[c.i]|
  }

  function Height(m: Grid, c: Cell): int
    requires OnMap(m, c)
  {
    m[c.i][c.j] as int
  }

  /** Heights only grow along a trail, so what is left below the largest character bounds its length. */
  function Rank(m: Grid, c: Cell): nat
    requires OnMap(m, c)
  {
    0x11_0000 - Height(m, c)
  }

  /**
   * The two `IsValueInRange` tests: the row below the number of rows and
   * the column below `cols`.  The program passes the number of rows as
   * `cols` too, which is right only for square maps.
   */
  predicate Admits(m: Grid, cols: int, c: Cell)
  {
    0 <= c.i < |m| && 0 <= c.j < cols
  }

  /** A step the traversal takes: into an admitted cell exactly one higher. */
  predicate Uphill(m: Grid, cols: int, from: Cell, to: Cell)
    requires Fits(m, cols) && OnMap(m, from)
  {
    Admits(m, cols, to) && Height(m, to) == Height(m, from) + 1
  }

  /** Directions that move at most one row or one column. */
  predicate Unit(ds: seq<(int, int)>)
  {
    forall k :: 0 <= k < |ds| ==> Abs(ds[k].0) + Abs(ds[k].1) <= 1
  }

  /** Steps between two cells along rows and columns. */
  function Dist(a: Cell, b: Cell): nat
  {
    Abs(a.i - b.i) + Abs(a.j - b.j)
  }

  lemma Triangle(a: Cell, b: Cell, c: Cell)
    ensures Dist(a, c) <= Dist(a, b) + Dist(b, c)
  {
  }

  function Offset(c: Cell, d: (int, int)): Cell
  {
    Cell(c.i + d.0, c.j + d.1)
  }

  /** The neighbours of `c` in the directions `ds`, in that order, that the traversal queues. */
  function Neighbours(m: Grid, cols: int, c: Cell, ds: seq<(int, int)>): (ns: seq<Cell>)
    requires Fits(m, cols) && OnMap(m, c)
    ensures |ns| <= |ds|
    ensures forall k :: 0 <= k < |ns| ==> OnMap(m, ns[k]) && Height(m, ns[k]) == Height(m, c) + 1
    ensures Unit(ds) ==> forall k :: 0 <= k < |ns| ==> Dist(ns[k], c) <= 1
  {
    if |ds| == 0 then []
    else
      var n := Offset(c, ds[0]);
      var rest := Neighbours(m, cols, c, ds[1..]);
      if Uphill(m, cols, c, n) then [n] + rest else rest
  }

  /** The traversal queues exactly the admitted cells one step away, one higher than `c`. */
  lemma {:induction false} NeighboursMeans(m: Grid, cols: int, c: Cell, ds: seq<(int, int)>)
    requires Fits(m, cols) && OnMap(m, c)
    ensures forall n :: n in Neighbours(m, cols, c, ds) <==> exists k :: 0 <= k < |ds| && n == Offset(c, ds[k]) && Uphill(m, cols, c, n)
    decreases |ds|
  {
    if |ds| > 0 {
      NeighboursMeans(m, cols, c, ds[1..]);
      assert forall k :: 1 <= k < |ds| ==> ds[k] == ds[1..][k - 1];
      forall n | exists k :: 0 <= k < |ds| && n == Offset(c, ds[k]) && Uphill(m, cols, c, n)
        ensures n in Neighbours(m, cols, c, ds)
      {
        var k :| 0 <= k < |ds| && n == Offset(c, ds[k]) && Uphill(m, cols, c, n);
        if k > 0 {
          assert ds[1..][k - 1] == ds[k];
        }
      }
    }
  }

  predicate Climbs(m: Grid, cols: int, parent: Cell, cs: seq<Cell>)
    requires Fits(m, cols) && OnMap(m, parent)
  {
    forall k :: 0 <= k < |cs| ==> OnMap(m, cs[k]) && Height(m, cs[k]) == Height(m, parent) + 1
  }

  // ---------------------------------------------------------------------
  // The trails, by recursion

  /**
   * The `9`s where the trails from `c` end, one entry per trail: the calls
   * `TraversePaths` makes to its target processor.  From a `9` nothing is
   * queued; a cell above `9` can never climb to one.
   */
  function Ends(m: Grid, cols: int, c: Cell): (r: seq<Cell>)
    requires Fits(m, cols) && OnMap(m, c)
    ensures forall k :: 0 <= k < |r| ==> OnMap(m, r[k]) && m[r[k].i][r[k].j] == '9'
    ensures forall k :: 0 <= k < |r| ==> Dist(r[k], c) <= '9' as int - Height(m, c)
    ensures Height(m, c) > '9' as int ==> r == []
    decreases Rank(m, c), 1
  {
    if m[c.i][c.j] == '9' then [c] else EndsAll(m, cols, c, Neighbours(m, cols, c, Directions))
  }

  /** The ends of the trails through each of `cs`, one level above `parent`. */
  function EndsAll(m: Grid, cols: int, parent: Cell, cs: seq<Cell>): (r: seq<Cell>)
    requires Fits(m, cols) && OnMap(m, parent) && Climbs(m, cols, parent, cs)
    requires forall k :: 0 <= k < |cs| ==> Dist(cs[k], parent) <= 1
    ensures forall k :: 0 <= k < |r| ==> OnMap(m, r[k]) && m[r[k].i][r[k].j] == '9'
    ensures forall k :: 0 <= k < |r| ==> Dist(r[k], parent) <= '9' as int - Height(m, parent)
    ensures Height(m, parent) >= '9' as int ==> r == []
    decreases Rank(m, parent), 0, |cs|
  {
    if |cs| == 0 then []
    else
      var first := Ends(m, cols, cs[0]);
      assert forall k :: 0 <= k < |first| ==> Dist(first[k], parent) <= '9' as int - Height(m, parent) by {
        forall k | 0 <= k < |first| {
          Triangle(first[k], cs[0], parent);
        }
      }
      first + EndsAll(m, cols, parent, cs[1..])
  }

  /** Every cell of a rectangular map is admitted when the column bound is the width of a row. */
  lemma {:induction false} RowWidthAdmitsMap(m: Grid, c: Cell)
    requires |m| >= 1 && forall r :: 0 <= r < |m| ==> |m[r]| == |m[0]|
    ensures Admits(m, |m[0]|, c) <==> OnMap(m, c)
  {
  }

  // ---------------------------------------------------------------------
  // The queue

  predicate AllOnMap(m: Grid, q: seq<Cell>)
  {
    forall k :: 0 <= k < |q| ==> OnMap(m, q[k])
  }

  /** The trail ends still owed to the positions waiting in the queue. */
  function QueueEnds(m: Grid, cols: int, q: seq<Cell>): seq<Cell>
    requires Fits(m, cols) && AllOnMap(m, q)
    decreases |q|
  {
    if |q| == 0 then [] else Ends(m, cols, q[0]) + QueueEnds(m, cols, q[1..])
  }

  /** How many positions the traversal pops, starting from `c`: the nodes of its tree of trails. */
  function Size(m: Grid, cols: int, c: Cell): (n: nat)
    requires Fits(m, cols) && OnMap(m, c)
    ensures n >= 1
    decreases Rank(m, c), 1
  {
    if m[c.i][c.j] == '9' then 1 else 1 + SizeAll(m, cols, c, Neighbours(m, cols, c, Directions))
  }

  function SizeAll(m: Grid, cols: int, parent: Cell, cs: seq<Cell>): nat
    requires Fits(m, cols) && OnMap(m, parent) && Climbs(m, cols, parent, cs)
    decreases Rank(m, parent), 0, |cs|
  {
    if |cs| == 0 then 0 else Size(m, cols, cs[0]) + SizeAll(m, cols, parent, cs[1..])
  }

  function QueueSize(m: Grid, cols: int, q: seq<Cell>): nat
    requires Fits(m, cols) && AllOnMap(m, q)
    decreases |q|
  {
    if |q| == 0 then 0 else Size(m, cols, q[0]) + QueueSize(m, cols, q[1..])
  }

  lemma {:induction false} QueueAppend(m: Grid, cols: int, a: seq<Cell>, b: seq<Cell>)
    requires Fits(m, cols) && AllOnMap(m, a) && AllOnMap(m, b)
    ensures AllOnMap(m, a + b)
    ensures QueueEnds(m, cols, a + b) == QueueEnds(m, cols, a) + QueueEnds(m, cols, b)
    ensures QueueSize(m, cols, a + b) == QueueSize(m, cols, a) + QueueSize(m, cols, b)
    decreases |a|
  {
    if |a| > 0 {
      assert (a + b)[1..] == a[1..] + b;
      QueueAppend(m, cols, a[1..], b);
    } else {
      assert a + b == b;
    }
  }

  lemma {:induction false} QueueOfChildren(m: Grid, cols: int, parent: Cell, cs: seq<Cell>)
    requires Fits(m, cols) && OnMap(m, parent) && Climbs(m, cols, parent, cs)
    requires forall k :: 0 <= k < |cs| ==> Dist(cs[k], parent) <= 1
    ensures AllOnMap(m, cs)
    ensures QueueEnds(m, cols, cs) == EndsAll(m, cols, parent, cs)
    ensures QueueSize(m, cols, cs) == SizeAll(m, cols, parent, cs)
    decreases |cs|
  {
    if |cs| > 0 {
      QueueOfChildren(m, cols, parent, cs[1..]);
    }
  }

  /** A popped `9` is reported once, and the queue shrinks. */
  lemma {:induction false} PopNine(m: Grid, cols: int, q: seq<Cell>)
    requires Fits(m, cols) && AllOnMap(m, q) && |q| >= 1 && m[q[0].i][q[0].j] == '9'
    ensures AllOnMap(m, q[1..])
    ensures QueueEnds(m, cols, q) == [q[0]] + QueueEnds(m, cols, q[1..])
    ensures QueueSize(m, cols, q[1..]) < QueueSize(m, cols, q)
  {
  }

  /** A popped cell below `9` is replaced at the back by its climbing neighbours: the trail ends owed stay the same. */
  lemma {:induction false} PopClimb(m: Grid, cols: int, q: seq<Cell>)
    requires Fits(m, cols) && AllOnMap(m, q) && |q| >= 1 && m[q[0].i][q[0].j] != '9'
    ensures var next := q[1..] + Neighbours(m, cols, q[0], Directions);
      && AllOnMap(m, next)
      && multiset(QueueEnds(m, cols, next)) == multiset(QueueEnds(m, cols, q))
      && QueueSize(m, cols, next) < QueueSize(m, cols, q)
  {
    var c, rest := q[0], q[1..];
    var ns := Neighbours(m, cols, c, Directions);
    QueueOfChildren(m, cols, c, ns);
    QueueAppend(m, cols, rest, ns);
    var a, b := QueueEnds(m, cols, rest), QueueEnds(m, cols, ns);
    assert QueueEnds(m, cols, q) == b + a;
    assert multiset(a + b) == multiset(b + a);
  }

  /**
   * `TraversePaths`: the queue version reports the same trail ends as the
   * recursive definition, each as often -- only the order differs.
   */
  method TraversePaths(m: Grid, cols: int, start: Cell) returns (targets: seq<Cell>)
    requires Fits(m, cols) && OnMap(m, start)
    ensures multiset(targets) == multiset(Ends(m, cols, start))
  {
    var queue := [start];
    targets := [];
    assert QueueEnds(m, cols, queue) == Ends(m, cols, start) + [];
    while |queue| > 0
      invariant AllOnMap(m, queue)
      invariant multiset(targets) + multiset(QueueEnds(m, cols, queue)) == multiset(Ends(m, cols, start))
      decreases QueueSize(m, cols, queue)
    {
      var c := queue[0];
      if m[c.i][c.j] == '9' {
        PopNine(m, cols, queue);
        targets := targets + [c];
        queue := queue[1..];
      } else {
        PopClimb(m, cols, queue);
        queue := queue[1..] + Neighbours(m, cols, c, Directions);
      }
    }
  }

  /** `CountPathsPart1`: the number of distinct `9`s the trails from `start` reach. */
  method CountPathsPart1(m: Grid, cols: int, start: Cell) returns (count: nat)
    requires Fits(m, cols) && OnMap(m, start)
    ensures count == |set e | e in Ends(m, cols, start)|
  {
    var targets := TraversePaths(m, cols, start);
    var found: set<Cell> := {};
    var k := 0;
    while k < |targets|
      invariant 0 <= k <= |targets|
      invariant found == set e | e in targets[..k]
    {
      assert targets[..k + 1] == targets[..k] + [targets[k]];
      found := found + {targets[k]};
      k := k + 1;
    }
    assert targets[..k] == targets;
    assert forall e :: e in targets <==> e in multiset(targets);
    assert found == set e | e in Ends(m, cols, start);
    count := |found|;
  }

  /** `CountPathsPart2`: the number of trails from `start`. */
  method CountPathsPart2(m: Grid, cols: int, start: Cell) returns (count: nat)
    requires Fits(m, cols) && OnMap(m, start)
    ensures count == |Ends(m, cols, start)|
  {
    var targets := TraversePaths(m, cols, start);
    assert |targets| == |multiset(targets)| == |multiset(Ends(m, cols, start))|;
    count := |targets|;
  }

  /** A sequence has at most as many distinct elements as entries. */
  lemma {:induction false} DistinctAtMostLength(s: seq<Cell>)
    ensures |set e | e in s| <= |s|
    decreases |s|
  {
    if |s| > 0 {
      var n := |s| - 1;
      DistinctAtMostLength(s[..n]);
      assert s == s[..n] + [s[n]];
      assert (set e | e in s) == (set e | e in s[..n]) + {s[n]};
    }
  }

  // ---------------------------------------------------------------------
  // The score of a map

  /** A trailhead's score: the distinct `9`s reached (part 1) or the trails (part 2). */
  function TrailScore(m: Grid, cols: int, c: Cell, part2: bool): nat
    requires Fits(m, cols) && OnMap(m, c)
  {
    if part2 then |Ends(m, cols, c)| else |set e | e in Ends(m, cols, c)|
  }

  /** `Day10Solution` reads every row up to the width of the first. */
  predicate Wide(m: Grid)
  {
    |m| >= 1 ==> forall r :: 0 <= r < |m| ==> |m[0]| <= |m[r]|
  }

  function Width(m: Grid): nat
  {
    if |m| == 0 then 0 else |m[0]|
  }

  /** The scores of the `0`s in the first `jj` columns of row `ii`. */
  function RowScore(m: Grid, cols: int, part2: bool, ii: nat, jj: nat): nat
    requires Wide(m) && Fits(m, cols) && ii < |m| && jj <= Width(m)
    decreases jj
  {
    if jj == 0 then 0
    else
      var c := Cell(ii, jj - 1);
      RowScore(m, cols, part2, ii, jj - 1) + (if m[ii][jj - 1] == '0' then TrailScore(m, cols, c, part2) else 0)
  }

  lemma RowScoreDef(m: Grid, cols: int, part2: bool, ii: nat, jj: nat)
    requires Wide(m) && Fits(m, cols) && ii < |m| && 1 <= jj <= Width(m)
    ensures RowScore(m, cols, part2, ii, jj) == RowScore(m, cols, part2, ii, jj - 1)
      + (if m[ii][jj - 1] == '0' then TrailScore(m, cols, Cell(ii, jj - 1), part2) else 0)
  {
  }

  /** The scores of the `0`s in the first `ii` rows. */
  function Score(m: Grid, cols: int, part2: bool, ii: nat): nat
    requires Wide(m) && Fits(m, cols) && ii <= |m|
    decreases ii
  {
    if ii == 0 then 0 else Score(m, cols, part2, ii - 1) + RowScore(m, cols, part2, ii - 1, Width(m))
  }

  /** A trailhead reaches no more distinct `9`s than it has trails, so part 1 never exceeds part 2. */
  lemma {:induction false} PartOneAtMostPartTwo(m: Grid, cols: int, ii: nat)
    requires Wide(m) && Fits(m, cols) && ii <= |m|
    ensures Score(m, cols, false, ii) <= Score(m, cols, true, ii)
    decreases ii
  {
    if ii > 0 {
      PartOneAtMostPartTwo(m, cols, ii - 1);
      RowOneAtMostTwo(m, cols, ii - 1, Width(m));
    }
  }

  lemma {:induction false} RowOneAtMostTwo(m: Grid, cols: int, ii: nat, jj: nat)
    requires Wide(m) && Fits(m, cols) && ii < |m| && jj <= Width(m)
    ensures RowScore(m, cols, false, ii, jj) <= RowScore(m, cols, true, ii, jj)
    decreases jj
  {
    if jj > 0 {
      RowOneAtMostTwo(m, cols, ii, jj - 1);
      DistinctAtMostLength(Ends(m, cols, Cell(ii, jj - 1)));
    }
  }

  /**
   * `Day10Solution`, with the column bound of the traversal taken as the
   * width of a row: the scores of all `0`s added up row by row.
   */
  method Day10Solution(m: Grid, part2: bool) returns (sum: nat)
    requires Wide(m)
    ensures sum == Score(m, Width(m), part2, |m|)
  {
    sum := 0;
    var ii := 0;
    while ii < |m|
      invariant 0 <= ii <= |m|
      invariant sum == Score(m, Width(m), part2, ii)
    {
      var row := RowSolution(m, part2, ii);
      sum := sum + row;
      ii := ii + 1;
    }
  }

  /** The inner loop of `Day10Solution` over the columns of row `ii`. */
  method RowSolution(m: Grid, part2: bool, ii: nat) returns (row: nat)
    requires Wide(m) && ii < |m|
    ensures row == RowScore(m, Width(m), part2, ii, Width(m))
  {
    var cols := Width(m);
    var jj := 0;
    row := 0;
    while jj < |m[0]|
      invariant 0 <= jj <= |m[0]|
      invariant row == RowScore(m, cols, part2, ii, jj)
    {
      if m[ii][jj] == '0' {
        var count;
        if part2 {
          count := CountPathsPart2(m, cols, Cell(ii, jj));
        } else {
          count := CountPathsPart1(m, cols, Cell(ii, jj));
        }
        row := row + count;
      }
      jj := jj + 1;
    }
  }

  // ---------------------------------------------------------------------
  // The column bound as written

  /** A map of one row, `0123456789`: one trail, along the row. */
  const OneRow: Grid := ["0123456789"]

  predicate IsOneRow(m: Grid)
  {
    |m| == 1 && |m[0]| == 10 && forall k :: 0 <= k < 10 ==> m[0][k] as int == '0' as int + k
  }

  lemma OneRowDigits()
    ensures IsOneRow(OneRow)
  {
  }

  lemma NeighboursStep(m: Grid, cols: int, c: Cell, ds: seq<(int, int)>)
    requires Fits(m, cols) && OnMap(m, c) && |ds| >= 1
    ensures Neighbours(m, cols, c, ds) == (if Uphill(m, cols, c, Offset(c, ds[0])) then [Offset(c, ds[0])] else []) + Neighbours(m, cols, c, ds[1..])
  {
  }

  lemma {:induction false} NeighboursNone(m: Grid, cols: int, c: Cell, ds: seq<(int, int)>)
    requires Fits(m, cols) && OnMap(m, c)
    requires forall k :: 0 <= k < |ds| ==> !Uphill(m, cols, c, Offset(c, ds[k]))
    ensures Neighbours(m, cols, c, ds) == []
    decreases |ds|
  {
    if |ds| > 0 {
      assert forall k :: 0 <= k < |ds| - 1 ==> ds[1..][k] == ds[k + 1];
      NeighboursNone(m, cols, c, ds[1..]);
    }
  }

  lemma {:induction false} RightOnly(m: Grid, k: nat)
    requires IsOneRow(m) && k < 9
    ensures Fits(m, 10) && OnMap(m, Cell(0, k))
    ensures Neighbours(m, 10, Cell(0, k), Directions) == [Cell(0, k + 1)]
  {
    var c := Cell(0, k);
    var ds := Directions;
    assert Uphill(m, 10, c, Offset(c, ds[0])) by {
      assert m[0][k + 1] as int == m[0][k] as int + 1;
    }
    assert forall d :: 0 <= d < |ds[1..]| ==> !Uphill(m, 10, c, Offset(c, ds[1..][d])) by {
      assert k > 0 ==> m[0][k - 1] as int != m[0][k] as int + 1;
    }
    assert Offset(c, ds[0]) == Cell(0, k + 1);
    assert Fits(m, 10) && OnMap(m, c);
    hide *;
    NeighboursNone(m, 10, c, ds[1..]);
    NeighboursStep(m, 10, c, ds);
  }

  /** With the width as the bound, every cell of the row climbs to its right neighbour and on to the `9`. */
  lemma {:induction false} OneRowTrail(m: Grid, k: nat)
    requires IsOneRow(m) && k <= 9
    ensures Fits(m, 10) && OnMap(m, Cell(0, k))
    ensures Ends(m, 10, Cell(0, k)) == [Cell(0, 9)]
    decreases 9 - k
  {
    var c := Cell(0, k);
    if k < 9 {
      OneRowTrail(m, k + 1);
      RightOnly(m, k);
      assert EndsAll(m, 10, c, [Cell(0, k + 1)]) == Ends(m, 10, Cell(0, k + 1)) + [];
    }
  }

  lemma {:induction false} NoStepAsWritten(m: Grid)
    requires IsOneRow(m)
    ensures Fits(m, 1) && OnMap(m, Cell(0, 0))
    ensures Neighbours(m, 1, Cell(0, 0), Directions) == []
  {
    NeighboursNone(m, 1, Cell(0, 0), Directions);
  }

  /** A map of one row whose only `0` is its first cell. */
  predicate HeadOnly(m: Grid)
  {
    |m| == 1 && |m[0]| == 10 && m[0][0] == '0' && forall k :: 1 <= k < 10 ==> m[0][k] != '0'
  }

  lemma {:induction false} RowScoreAfterHead(m: Grid, cols: int, part2: bool, jj: nat)
    requires Wide(m) && Fits(m, cols) && |m| == 1 && 1 <= jj <= Width(m)
    requires forall k :: 1 <= k < Width(m) ==> m[0][k] != '0'
    ensures RowScore(m, cols, part2, 0, jj) == RowScore(m, cols, part2, 0, 1)
    decreases jj
  {
    if jj > 1 {
      assert m[0][jj - 1] != '0';
      RowScoreAfterHead(m, cols, part2, jj - 1);
      RowScoreDef(m, cols, part2, 0, jj);
    }
  }

  /** The score of such a map is the score of its first cell. */
  lemma {:induction false} HeadOnlyScore(m: Grid, cols: int, part2: bool)
    requires HeadOnly(m) && 1 <= cols <= 10
    ensures Fits(m, cols) && Wide(m) && OnMap(m, Cell(0, 0))
    ensures Score(m, cols, part2, 1) == TrailScore(m, cols, Cell(0, 0), part2)
  {
    assert Fits(m, cols) && Wide(m) && Width(m) == 10;
    RowScoreAfterHead(m, cols, part2, 10);
  }

  lemma DistinctOfShort(s: seq<Cell>)
    requires |s| <= 1
    ensures |set e | e in s| == |s|
  {
    if |s| == 1 {
      assert (set e | e in s) == {s[0]};
    } else {
      assert (set e | e in s) == {};
    }
  }

  lemma EndsDef(m: Grid, cols: int, c: Cell)
    requires Fits(m, cols) && OnMap(m, c)
    ensures m[c.i][c.j] == '9' ==> Ends(m, cols, c) == [c]
    ensures m[c.i][c.j] != '9' ==> Ends(m, cols, c) == EndsAll(m, cols, c, Neighbours(m, cols, c, Directions))
    ensures EndsAll(m, cols, c, []) == []
  {
  }

  lemma TrailScoreDef(m: Grid, cols: int, c: Cell, part2: bool)
    requires Fits(m, cols) && OnMap(m, c)
    ensures TrailScore(m, cols, c, part2) == if part2 then |Ends(m, cols, c)| else |set e | e in Ends(m, cols, c)|
  {
  }

  lemma {:induction false} AsWrittenEnds(m: Grid)
    requires IsOneRow(m)
    ensures Fits(m, 1) && OnMap(m, Cell(0, 0))
    ensures Ends(m, 1, Cell(0, 0)) == []
  {
    var c := Cell(0, 0);
    assert m[0][0] != '9';
    NoStepAsWritten(m);
    hide *;
    EndsDef(m, 1, c);
  }

  /** The score of a map whose one trailhead has trails only to one `9`, or none. */
  lemma {:induction false} HeadOnlyShortScore(m: Grid, cols: int, part2: bool)
    requires HeadOnly(m) && 1 <= cols <= 10 && Fits(m, cols) && |Ends(m, cols, Cell(0, 0))| <= 1
    ensures Wide(m)
    ensures Score(m, cols, part2, 1) == |Ends(m, cols, Cell(0, 0))|
  {
    var c := Cell(0, 0);
    hide *;
    HeadOnlyScore(m, cols, part2);
    TrailScoreDef(m, cols, c, part2);
    DistinctOfShort(Ends(m, cols, c));
  }

  /**
   * As written, the traversal bounds columns by the number of rows: on the
   * one-row map `0123456789` (`OneRow` is one) no step is admitted, and the
   * map scores nothing where it has one trail.
   */
  lemma {:induction false} RowCountBoundMissesTrail(m: Grid, part2: bool)
    requires IsOneRow(m)
    ensures Fits(m, |m|) && Fits(m, Width(m)) && Wide(m)
    ensures Ends(m, |m|, Cell(0, 0)) == []
    ensures Score(m, |m|, part2, |m|) == 0
    ensures Score(m, Width(m), part2, |m|) == 1
  {
    assert |m| == 1 && Width(m) == 10 && HeadOnly(m);
    AsWrittenEnds(m);
    HeadOnlyShortScore(m, 1, part2);
    OneRowTrail(m, 0);
    HeadOnlyShortScore(m, 10, part2);
  }
}
