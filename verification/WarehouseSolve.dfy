/**
 * Warehouse Woes, continued: the part 2 vertical push, where one box can
 * rest on two others and a whole tree of boxes moves at once, and the
 * solver that runs a list of moves for either part and sums the GPS
 * coordinates.
 *
 * The program collects the pushes in a `std::set` of cell pairs (from, to)
 * ordered by `std::less` going up and `std::greater` going down, and then
 * swaps each pair in that order.  Here the pushes are collected in a
 * sequence and `Order` lists them as the set would: without duplicates,
 * in the comparator's order.
 */
module WarehouseSolve {

  import opened Common
  import opened WarehouseWoes

  /** One entry of the set of pushes: the cell a box half leaves and the cell it enters. */
  datatype Proj = Proj(from: MatrixIndex, to: MatrixIndex)

  /** `MatrixIndex::operator<`: by row, then by column. */
  predicate IndexLess(a: MatrixIndex, b: MatrixIndex)
  {
    a.row < b.row || (a.row == b.row && a.col < b.col)
  }

  /** `std::pair`'s `<` built on `IndexLess`. */
  predicate ProjLess(a: Proj, b: Proj)
  {
    IndexLess(a.from, b.from) || (a.from == b.from && IndexLess(a.to, b.to))
  }

  /** The set's comparator: `std::less` going up, `std::greater` going down. */
  predicate Before(a: Proj, b: Proj, up: bool)
  {
    if up then ProjLess(a, b) else ProjLess(b, a)
  }

  /** The pushes listed strictly in the comparator's order. */
  predicate Ascending(s: seq<Proj>, up: bool)
  {
    forall i, j :: 0 <= i < j < |s| ==> Before(s[i], s[j], up)
  }

  /** `std::set::insert` on the ordered listing: an element already there is not added again. */
  function Insert(x: Proj, s: seq<Proj>, up: bool): (r: seq<Proj>)
    requires Ascending(s, up)
    ensures Ascending(r, up)
    ensures forall y :: y in r <==> y == x || y in s
  {
    if |s| == 0 then [x]
    else if x == s[0] then s
    else if Before(x, s[0], up) then [x] + s
    else
      var t := Insert(x, s[1..], up);
      assert forall j :: 0 <= j < |t| ==> Before(s[0], t[j], up) by {
        forall j | 0 <= j < |t|
          ensures Before(s[0], t[j], up)
        {
          assert t[j] == x || t[j] in s[1..];
        }
      }
      [s[0]] + t
  }

  lemma InPrefix(s: seq<Proj>, y: Proj)
    requires |s| > 0
    ensures y in s <==> y == s[|s| - 1] || y in s[..|s| - 1]
  {
    assert s == s[..|s| - 1] + [s[|s| - 1]];
  }

  /** The listing of a `std::set` into which every element of `acc` was inserted. */
  function Order(acc: seq<Proj>, up: bool): (r: seq<Proj>)
    ensures Ascending(r, up)
    ensures forall y :: y in r <==> y in acc
  {
    if |acc| == 0 then []
    else
      var r := Insert(acc[|acc| - 1], Order(acc[..|acc| - 1], up), up);
      assert forall y :: y in acc <==> y == acc[|acc| - 1] || y in acc[..|acc| - 1] by {
        forall y
          ensures y in acc <==> y == acc[|acc| - 1] || y in acc[..|acc| - 1]
        {
          InPrefix(acc, y);
        }
      }
      r
  }

  /** An ascending listing holds every element once. */
  lemma AscendingDistinct(s: seq<Proj>, up: bool)
    requires Ascending(s, up)
    ensures forall i, j :: 0 <= i < j < |s| ==> s[i] != s[j]
  {
  }

  /**
   * An ascending listing is fixed by its elements: whatever order the
   * pushes were collected in, and however often each one was, `Order`
   * visits them in the one order the set iterates in.
   */
  lemma {:induction false} AscendingUnique(a: seq<Proj>, b: seq<Proj>, up: bool)
    requires Ascending(a, up) && Ascending(b, up)
    requires forall y :: y in a <==> y in b
    ensures a == b
    decreases |a|
  {
    assert |a| > 0 ==> a[0] in b;
    assert |b| > 0 ==> b[0] in a;
    if |a| > 0 {
      var i :| 0 <= i < |b| && b[i] == a[0];
      var j :| 0 <= j < |a| && a[j] == b[0];
      assert a[0] == b[0];
      forall y
        ensures y in a[1..] <==> y in b[1..]
      {
        if y in a[1..] {
          var k :| 1 <= k < |a| && a[k] == y;
          assert Before(a[0], y, up);
          assert y != b[0];
          assert y in b;
        }
        if y in b[1..] {
          var k :| 1 <= k < |b| && b[k] == y;
          assert Before(b[0], y, up);
          assert y != a[0];
          assert y in a;
        }
      }
      AscendingUnique(a[1..], b[1..], up);
      assert a == [a[0]] + a[1..];
      assert b == [b[0]] + b[1..];
    }
  }

  /** Every cell `p` the vertical search reaches stays ahead of the robot's row. */
  predicate Beyond(row: int, base: int, dr: int)
  {
    if dr < 0 then row < base else row > base
  }

  /** How far the search from `p` can still go before leaving the grid. */
  function VRoom(g: Grid, p: MatrixIndex, dr: int): nat
  {
    if 0 <= p.row < |g| then (if dr < 0 then p.row + 1 else |g| - p.row) else 0
  }

  /** `GetBracketsPosition`: the columns of the box a half box belongs to. */
  function Brackets(g: Grid, p: MatrixIndex): (int, int)
    requires Valid(g, p)
  {
    if At(g, p) == '[' then (p.col, p.col + 1) else (p.col - 1, p.col)
  }

  /**
   * `CanMoveVertically`: whether whatever stands at `p` can move one row by
   * `dr`, adding the pushes it needs to `acc`; a failure below clears the
   * collection.  Any cell that is neither free nor a wall is taken as a
   * box half.  `None` where the search reads outside the grid.
   */
  function CanMove(g: Grid, p: MatrixIndex, dr: int, acc: seq<Proj>): Option<(bool, seq<Proj>)>
    requires dr == -1 || dr == 1
    decreases VRoom(g, p, dr)
  {
    if !Valid(g, p) then None
    else if At(g, p) == '.' then Some((true, acc))
    else if At(g, p) == '#' then Some((false, acc))
    else
      var (l, r) := Brackets(g, p);
      var next := p.row + dr;
      match CanMove(g, MatrixIndex(next, l), dr, acc)
      case None => None
      case Some((okL, accL)) =>
        if !okL then Some((false, []))
        else
          match CanMove(g, MatrixIndex(next, r), dr, accL)
          case None => None
          case Some((okR, accR)) =>
            if !okR then Some((false, []))
            else Some((true, accR + [Proj(MatrixIndex(p.row, l), MatrixIndex(next, l)), Proj(MatrixIndex(p.row, r), MatrixIndex(next, r))]))
  }

  /** `std::swap` of two cells. */
  function Swap(g: Grid, a: MatrixIndex, b: MatrixIndex): (h: Grid)
    requires Valid(g, a) && Valid(g, b)
    ensures SameShape(g, h)
    ensures At(h, a) == At(g, b) && At(h, b) == At(g, a)
    ensures forall r, c :: 0 <= r < |g| && 0 <= c < |g[r]| && MatrixIndex(r, c) != a && MatrixIndex(r, c) != b ==> h[r][c] == g[r][c]
  {
    Set(Set(g, a, At(g, b)), b, At(g, a))
  }

  /** The swapping loop of `MoveRobotVertically`, in the order of `ps`. */
  function Swaps(g: Grid, ps: seq<Proj>): Option<Grid>
    decreases |ps|
  {
    if |ps| == 0 then Some(g)
    else if !Valid(g, ps[0].from) || !Valid(g, ps[0].to) then None
    else Swaps(Swap(g, ps[0].from, ps[0].to), ps[1..])
  }

  /** The row offset of a vertical direction. */
  function Rows(d: Direction): int
  {
    match d
    case Up => -1
    case Down => 1
    case _ => 0
  }

  /**
   * `MoveRobotVertically`: when the cell ahead can move, swap the pushes in
   * the set's order, then put the robot ahead and free its old cell.
   */
  function MoveRobotVertically(g: Grid, pos: MatrixIndex, d: Direction): (r: Option<(Grid, MatrixIndex)>)
    requires d == Up || d == Down
    ensures r.Some? ==> r.value == (g, pos) || (r.value.1 == Step(pos, d) && Valid(r.value.0, r.value.1) && At(r.value.0, r.value.1) == '@')
  {
    var t := Step(pos, d);
    match CanMove(g, t, Rows(d), [])
    case None => None
    case Some((ok, ps)) =>
      if !ok then Some((g, pos))
      else
        match Swaps(g, Order(ps, d == Up))
        case None => None
        case Some(h) =>
          if !Valid(h, t) || !Valid(h, pos) then None
          else Some((Set(Set(h, t, '@'), pos, '.'), t))
  }

  /** A push the search may record: both cells inside and not walls, one row apart, ahead of the robot. */
  predicate Good(g: Grid, pos: MatrixIndex, dr: int, q: Proj)
  {
    && Valid(g, q.from) && Valid(g, q.to)
    && At(g, q.from) != '#' && At(g, q.to) != '#'
    && q.to == MatrixIndex(q.from.row + dr, q.from.col)
    && Beyond(q.from.row, pos.row, dr)
  }

  /** A rectangular grid whose first and last rows are walls, as the puzzle's input is. */
  predicate Fenced(g: Grid)
  {
    && |g| > 0
    && (forall r :: 0 <= r < |g| ==> |g[r]| == |g[0]|)
    && (forall c :: 0 <= c < |g[0]| ==> g[0][c] == '#' && g[|g| - 1][c] == '#')
  }

  /**
   * In a fenced part 2 warehouse the search ahead of the robot never leaves
   * the grid, and when it succeeds it started on no wall and recorded
   * only pushes between cells that are not walls, ahead of the robot.
   */
  lemma {:induction false} CanMoveGood(g: Grid, pos: MatrixIndex, p: MatrixIndex, dr: int, acc: seq<Proj>)
    requires dr == -1 || dr == 1
    requires Warehouse2(g, pos) && Fenced(g)
    requires Valid(g, p) && Beyond(p.row, pos.row, dr)
    requires forall q :: q in acc ==> Good(g, pos, dr, q)
    ensures CanMove(g, p, dr, acc).Some?
    ensures CanMove(g, p, dr, acc).value.0 ==> At(g, p) != '#'
    ensures CanMove(g, p, dr, acc).value.0 ==> forall q :: q in CanMove(g, p, dr, acc).value.1 ==> Good(g, pos, dr, q)
    decreases VRoom(g, p, dr)
  {
    if At(g, p) != '.' && At(g, p) != '#' {
      assert At(g, p) != '@';
      assert At(g, p) == '[' || At(g, p) == ']';
      assert g[0][p.col] == '#' && g[|g| - 1][p.col] == '#';
      assert 0 < p.row < |g| - 1;
      var (l, r) := Brackets(g, p);
      var next := p.row + dr;
      assert l + 1 == r && 0 <= l && r < |g[p.row]|;
      assert g[p.row][l] == '[' && g[p.row][r] == ']';
      assert |g[next]| == |g[p.row]|;
      var pl := MatrixIndex(next, l);
      var pr := MatrixIndex(next, r);
      CanMoveGood(g, pos, pl, dr, acc);
      var (okL, accL) := CanMove(g, pl, dr, acc).value;
      if okL {
        CanMoveGood(g, pos, pr, dr, accL);
        var (okR, accR) := CanMove(g, pr, dr, accL).value;
        if okR {
          var ql := Proj(MatrixIndex(p.row, l), pl);
          var qr := Proj(MatrixIndex(p.row, r), pr);
          assert Good(g, pos, dr, ql) && Good(g, pos, dr, qr);
          assert CanMove(g, p, dr, acc).value.1 == accR + [ql, qr];
        }
      }
    }
  }

  /** Swapping cells that are not walls never moves a wall. */
  lemma {:induction false} SwapsKeep(g: Grid, pos: MatrixIndex, dr: int, ps: seq<Proj>)
    requires dr == -1 || dr == 1
    requires forall q :: q in ps ==> Good(g, pos, dr, q)
    ensures Swaps(g, ps).Some?
    ensures SameWalls(g, Swaps(g, ps).value)
    ensures forall r :: 0 <= r < |g| && !Beyond(r, pos.row, dr) ==> Swaps(g, ps).value[r] == g[r]
    decreases |ps|
  {
    if |ps| > 0 {
      var q := ps[0];
      assert Good(g, pos, dr, q);
      var g' := Swap(g, q.from, q.to);
      assert SameWalls(g, g');
      forall q' | q' in ps[1..]
        ensures Good(g', pos, dr, q')
      {
        assert Good(g, pos, dr, q');
      }
      forall r | 0 <= r < |g| && !Beyond(r, pos.row, dr)
        ensures g'[r] == g[r]
      {
        assert r != q.from.row && r != q.to.row;
        assert |g'[r]| == |g[r]|;
      }
      SwapsKeep(g', pos, dr, ps[1..]);
      var h := Swaps(g', ps[1..]).value;
      assert Swaps(g, ps).value == h;
      assert SameWalls(g, h) by {
        assert SameWalls(g', h);
      }
    }
  }

  /**
   * A vertical part 2 move in a fenced warehouse: defined, the robot steps
   * ahead exactly when the search says the cell ahead can move and stays
   * otherwise, staying changes nothing, it never steps onto a wall,
   * no wall moves, and nothing behind the robot changes.
   */
  lemma MoveRobotVerticallyKeeps(g: Grid, pos: MatrixIndex, d: Direction)
    requires d == Up || d == Down
    requires Warehouse2(g, pos) && Fenced(g)
    ensures MoveRobotVertically(g, pos, d).Some?
    ensures var (h, p) := MoveRobotVertically(g, pos, d).value;
      && SameWalls(g, h)
      && (p == pos || p == Step(pos, d))
      && (p == Step(pos, d) <==> CanMove(g, Step(pos, d), Rows(d), []).value.0)
      && (p == pos ==> h == g)
      && (p == Step(pos, d) ==> At(g, p) != '#')
      && (forall r :: 0 <= r < |g| && r != pos.row && !Beyond(r, pos.row, Rows(d)) ==> h[r] == g[r])
      && (forall c :: 0 <= c < |g[pos.row]| && c != pos.col ==> h[pos.row][c] == g[pos.row][c])
  {
    hide CanMove, Insert, Order, Swap, Swaps;
    var dr := Rows(d);
    var t := Step(pos, d);
    assert g[0][pos.col] == '#' && g[|g| - 1][pos.col] == '#';
    assert 0 < pos.row < |g| - 1;
    assert t == MatrixIndex(pos.row + dr, pos.col);
    assert |g[t.row]| == |g[pos.row]|;
    CanMoveGood(g, pos, t, dr, []);
    var (ok, ps) := CanMove(g, t, dr, []).value;
    if ok {
      var os := Order(ps, d == Up);
      forall q | q in os
        ensures Good(g, pos, dr, q)
      {
        assert q in ps;
      }
      SwapsKeep(g, pos, dr, os);
      var h := Swaps(g, os).value;
      assert h[pos.row] == g[pos.row];
      assert At(h, t) != '#';
      var h2 := Set(Set(h, t, '@'), pos, '.');
      assert SameWalls(g, h2);
      forall r | 0 <= r < |g| && r != pos.row && !Beyond(r, pos.row, dr)
        ensures h2[r] == g[r]
      {
        assert r != t.row;
      }
    } else {
      assert SameWalls(g, g);
    }
  }

  // ---------------------------------------------------------------------
  // What a vertical push does to the warehouse

  /** The cell one row on by `dr`. */
  function Next(x: MatrixIndex, dr: int): MatrixIndex
  {
    MatrixIndex(x.row + dr, x.col)
  }

  /** The cell one row back from `x`. */
  function Prev(x: MatrixIndex, dr: int): MatrixIndex
  {
    MatrixIndex(x.row - dr, x.col)
  }

  /** The push of whatever stands at `x` one row on. */
  function Push(x: MatrixIndex, dr: int): Proj
  {
    Proj(x, Next(x, dr))
  }

  /**
   * What a push `q` among `ps` needs from the others: it moves a box half
   * whose other half is pushed too (or the robot), into a cell that is free
   * or is itself pushed on.
   */
  predicate Link(g: Grid, dr: int, ps: seq<Proj>, q: Proj)
  {
    && q == Push(q.from, dr) && Valid(g, q.from) && Valid(g, q.to)
    && (|| (At(g, q.from) == '[' && Push(MatrixIndex(q.from.row, q.from.col + 1), dr) in ps)
        || (At(g, q.from) == ']' && Push(MatrixIndex(q.from.row, q.from.col - 1), dr) in ps)
        || At(g, q.from) == '@')
    && (At(g, q.to) == '.' || Push(q.to, dr) in ps)
  }

  /** The pushes collected are closed: each has what it needs among them. */
  predicate Closed(g: Grid, dr: int, ps: seq<Proj>)
  {
    forall q :: q in ps ==> Link(g, dr, ps, q)
  }

  /** What a push needs it still has among more pushes. */
  lemma LinkMore(g: Grid, dr: int, ps: seq<Proj>, qs: seq<Proj>, q: Proj)
    requires Link(g, dr, ps, q)
    requires forall y :: y in ps ==> y in qs
    ensures Link(g, dr, qs, q)
  {
  }

  /**
   * Adding the two pushes of a box whose cells ahead are free or pushed to
   * closed pushes keeps them closed, and the box half `p` is then pushed.
   */
  lemma BoxClosed(g: Grid, dr: int, p: MatrixIndex, l: int, acc: seq<Proj>, accL: seq<Proj>, accR: seq<Proj>)
    requires dr == -1 || dr == 1
    requires 0 <= p.row < |g| && 0 <= p.row + dr < |g| && 0 <= l && l + 1 < |g[p.row]| && |g[p.row + dr]| == |g[p.row]|
    requires p.col == l || p.col == l + 1
    requires g[p.row][l] == '[' && g[p.row][l + 1] == ']'
    requires Closed(g, dr, accR)
    requires forall q :: q in acc ==> q in accL
    requires forall q :: q in accL ==> q in accR
    requires At(g, MatrixIndex(p.row + dr, l)) == '.' || Push(MatrixIndex(p.row + dr, l), dr) in accL
    requires At(g, MatrixIndex(p.row + dr, l + 1)) == '.' || Push(MatrixIndex(p.row + dr, l + 1), dr) in accR
    ensures var ps := accR + [Push(MatrixIndex(p.row, l), dr), Push(MatrixIndex(p.row, l + 1), dr)];
      Closed(g, dr, ps) && (forall q :: q in acc ==> q in ps) && Push(p, dr) in ps
  {
    var ql := Push(MatrixIndex(p.row, l), dr);
    var qr := Push(MatrixIndex(p.row, l + 1), dr);
    var ps := accR + [ql, qr];
    assert forall y :: y in ps <==> y in accR || y == ql || y == qr;
    forall q | q in ps
      ensures Link(g, dr, ps, q)
    {
      if q in accR {
        LinkMore(g, dr, accR, ps, q);
      }
    }
  }

  /** The search from a free cell succeeds at once and collects nothing more. */
  lemma CanMoveFree(g: Grid, p: MatrixIndex, dr: int, acc: seq<Proj>)
    requires dr == -1 || dr == 1
    requires Valid(g, p) && At(g, p) == '.'
    ensures CanMove(g, p, dr, acc) == Some((true, acc))
  {
  }

  /**
   * The search from a box half succeeds only when the searches from both
   * cells ahead of the box succeed, and then it adds the box's two pushes.
   */
  lemma CanMoveBoxOk(g: Grid, p: MatrixIndex, dr: int, acc: seq<Proj>)
    requires dr == -1 || dr == 1
    requires Valid(g, p) && At(g, p) != '.' && At(g, p) != '#'
    requires CanMove(g, p, dr, acc).Some? && CanMove(g, p, dr, acc).value.0
    ensures var (l, r) := Brackets(g, p);
      var left := CanMove(g, MatrixIndex(p.row + dr, l), dr, acc);
      && left.Some? && left.value.0
      && var right := CanMove(g, MatrixIndex(p.row + dr, r), dr, left.value.1);
      && right.Some? && right.value.0
      && CanMove(g, p, dr, acc).value.1 == right.value.1 + [Push(MatrixIndex(p.row, l), dr), Push(MatrixIndex(p.row, r), dr)]
  {
  }

  /**
   * When the search from `p` succeeds, what it collected is closed and
   * keeps what was collected before, and `p` is free or pushed.
   */
  lemma {:induction false} CanMoveClosed(g: Grid, pos: MatrixIndex, p: MatrixIndex, dr: int, acc: seq<Proj>)
    requires dr == -1 || dr == 1
    requires Warehouse2(g, pos) && Fenced(g)
    requires Valid(g, p) && Beyond(p.row, pos.row, dr)
    requires forall q :: q in acc ==> Good(g, pos, dr, q)
    requires Closed(g, dr, acc)
    ensures CanMove(g, p, dr, acc).Some?
    ensures var (ok, ps) := CanMove(g, p, dr, acc).value;
      ok ==> Closed(g, dr, ps) && (forall q :: q in acc ==> q in ps) && (At(g, p) == '.' || Push(p, dr) in ps)
    decreases VRoom(g, p, dr), 1
  {
    CanMoveGood(g, pos, p, dr, acc);
    hide Warehouse2, Fenced, Good, Closed, CanMove;
    if CanMove(g, p, dr, acc).value.0 {
      if At(g, p) == '.' {
        CanMoveFree(g, p, dr, acc);
      } else {
        BoxClosedSearch(g, pos, p, dr, acc);
      }
    }
  }

  /** `CanMoveClosed` from a box half: both searches ahead of the box succeed, and their pushes with the box's are closed. */
  lemma {:induction false} BoxClosedSearch(g: Grid, pos: MatrixIndex, p: MatrixIndex, dr: int, acc: seq<Proj>)
    requires dr == -1 || dr == 1
    requires Warehouse2(g, pos) && Fenced(g)
    requires Valid(g, p) && Beyond(p.row, pos.row, dr) && At(g, p) != '.' && At(g, p) != '#'
    requires forall q :: q in acc ==> Good(g, pos, dr, q)
    requires Closed(g, dr, acc)
    requires CanMove(g, p, dr, acc).Some? && CanMove(g, p, dr, acc).value.0
    ensures var ps := CanMove(g, p, dr, acc).value.1;
      Closed(g, dr, ps) && (forall q :: q in acc ==> q in ps) && Push(p, dr) in ps
    decreases VRoom(g, p, dr), 0
  {
    CellAt(g, pos, p.row, p.col);
    HalvesAt(g, pos, p.row, p.col);
    FenceAt(g, p.row, p.col);
    hide Warehouse2, Fenced, Good, Closed, CanMove;
    assert 0 < p.row < |g| - 1;
    var l := Brackets(g, p).0;
    var next := p.row + dr;
    HalvesAt(g, pos, p.row, l);
    FenceAt(g, next, 0);
    var pl := MatrixIndex(next, l);
    var pr := MatrixIndex(next, l + 1);
    CanMoveBoxOk(g, p, dr, acc);
    CanMoveClosed(g, pos, pl, dr, acc);
    CanMoveGood(g, pos, pl, dr, acc);
    var accL := CanMove(g, pl, dr, acc).value.1;
    CanMoveClosed(g, pos, pr, dr, accL);
    var accR := CanMove(g, pr, dr, accL).value.1;
    BoxClosed(g, dr, p, l, acc, accL, accR);
  }

  /**
   * What cell `(r, c)` holds once the pushes in `ps` have moved their
   * cells one row on by `dr`: what moved in, else free space if its own
   * content moved out, else what it held.
   */
  function Moved(g: Grid, ps: seq<Proj>, dr: int, r: int, c: int): char
    requires 0 <= r < |g| && 0 <= c < |g[r]|
  {
    if Push(MatrixIndex(r - dr, c), dr) in ps && Valid(g, MatrixIndex(r - dr, c)) then g[r - dr][c]
    else if Push(MatrixIndex(r, c), dr) in ps then '.'
    else g[r][c]
  }

  /** `h` is `g` with every cell whose push is listed moved one row on by `dr`. */
  predicate ShiftOf(g: Grid, h: Grid, ps: seq<Proj>, dr: int)
  {
    && SameShape(g, h)
    && forall r, c :: 0 <= r < |g| && 0 <= c < |g[r]| ==> h[r][c] == Moved(g, ps, dr, r, c)
  }

  /** The cell a new push enters receives what its source held, which has not moved yet. */
  lemma MovedInto(g: Grid, ps: seq<Proj>, q: Proj, dr: int)
    requires dr == -1 || dr == 1
    requires q == Push(q.from, dr) && Valid(g, q.from) && Valid(g, q.to)
    requires q !in ps && Push(Prev(q.from, dr), dr) !in ps
    ensures Moved(g, ps, dr, q.from.row, q.from.col) == At(g, q.from)
    ensures Moved(g, ps + [q], dr, q.to.row, q.to.col) == At(g, q.from)
  {
    assert Prev(q.to, dr) == q.from;
    assert q in ps + [q];
  }

  /** The cell a new push leaves is free afterwards, and its target was free or moved on. */
  lemma MovedOut(g: Grid, ps: seq<Proj>, q: Proj, dr: int)
    requires dr == -1 || dr == 1
    requires q == Push(q.from, dr) && Valid(g, q.from) && Valid(g, q.to)
    requires q !in ps && Push(Prev(q.from, dr), dr) !in ps
    requires At(g, q.to) == '.' || Push(q.to, dr) in ps
    ensures Moved(g, ps, dr, q.to.row, q.to.col) == '.'
    ensures Moved(g, ps + [q], dr, q.from.row, q.from.col) == '.'
  {
    assert Prev(q.to, dr) == q.from;
    var ps' := ps + [q];
    assert q in ps';
    assert forall y :: y in ps' <==> y in ps || y == q;
    assert Push(Prev(q.from, dr), dr) != q;
  }

  /** Cells other than the two a new push touches are as they were. */
  lemma MovedElse(g: Grid, ps: seq<Proj>, q: Proj, dr: int, r: int, c: int)
    requires dr == -1 || dr == 1
    requires q == Push(q.from, dr)
    requires 0 <= r < |g| && 0 <= c < |g[r]|
    requires MatrixIndex(r, c) != q.from && MatrixIndex(r, c) != q.to
    ensures Moved(g, ps + [q], dr, r, c) == Moved(g, ps, dr, r, c)
  {
    var ps' := ps + [q];
    assert forall y :: y in ps' <==> y in ps || y == q;
    assert Push(MatrixIndex(r - dr, c), dr) != q;
    assert Push(MatrixIndex(r, c), dr) != q;
  }

  /** One cell of `ShiftStep`. */
  lemma ShiftCell(g: Grid, h: Grid, ps: seq<Proj>, q: Proj, dr: int, r: int, c: int)
    requires dr == -1 || dr == 1
    requires ShiftOf(g, h, ps, dr)
    requires q == Push(q.from, dr) && Valid(g, q.from) && Valid(g, q.to)
    requires q !in ps && Push(Prev(q.from, dr), dr) !in ps
    requires At(g, q.to) == '.' || Push(q.to, dr) in ps
    requires 0 <= r < |g| && 0 <= c < |g[r]|
    ensures Swap(h, q.from, q.to)[r][c] == Moved(g, ps + [q], dr, r, c)
  {
    var x := MatrixIndex(r, c);
    var a, b := q.from, q.to;
    ShiftAt(g, h, ps, dr, r, c);
    ShiftAt(g, h, ps, dr, a.row, a.col);
    ShiftAt(g, h, ps, dr, b.row, b.col);
    hide Swap, ShiftOf, Moved;
    if x == b {
      MovedInto(g, ps, q, dr);
      assert Swap(h, a, b)[r][c] == h[a.row][a.col];
    } else if x == a {
      MovedOut(g, ps, q, dr);
      assert Swap(h, a, b)[r][c] == h[b.row][b.col];
    } else {
      MovedElse(g, ps, q, dr, r, c);
      assert Swap(h, a, b)[r][c] == h[r][c];
    }
  }

  /**
   * Swapping one more push whose cell has not moved yet, and whose target
   * is free or already moved on, extends the shift by that push.
   */
  lemma ShiftStep(g: Grid, h: Grid, ps: seq<Proj>, q: Proj, dr: int)
    requires dr == -1 || dr == 1
    requires ShiftOf(g, h, ps, dr)
    requires q == Push(q.from, dr) && Valid(g, q.from) && Valid(g, q.to)
    requires q !in ps && Push(Prev(q.from, dr), dr) !in ps
    requires At(g, q.to) == '.' || Push(q.to, dr) in ps
    ensures ShiftOf(g, Swap(h, q.from, q.to), ps + [q], dr)
  {
    forall r, c | 0 <= r < |g| && 0 <= c < |g[r]|
      ensures Swap(h, q.from, q.to)[r][c] == Moved(g, ps + [q], dr, r, c)
    {
      ShiftCell(g, h, ps, q, dr, r, c);
    }
  }

  /** How far ahead a cell lies in the direction `dr`. */
  function Depth(x: MatrixIndex, dr: int): int
  {
    if dr < 0 then -x.row else x.row
  }

  /** A listing of closed pushes, each once, the farthest ahead first. */
  predicate Plan(g: Grid, os: seq<Proj>, dr: int)
  {
    && (forall i :: 0 <= i < |os| ==>
         && os[i] == Push(os[i].from, dr) && Valid(g, os[i].from) && Valid(g, os[i].to)
         && (At(g, os[i].to) == '.' || Push(os[i].to, dr) in os))
    && (forall i, j :: 0 <= i < j < |os| ==> os[i] != os[j] && Depth(os[i].from, dr) >= Depth(os[j].from, dr))
  }

  /** The set's order lists closed pushes as a plan. */
  lemma OrderPlan(g: Grid, ps: seq<Proj>, dr: int)
    requires dr == -1 || dr == 1
    requires Closed(g, dr, ps)
    ensures Plan(g, Order(ps, dr == -1), dr)
  {
    var os := Order(ps, dr == -1);
    AscendingDistinct(os, dr == -1);
    forall i | 0 <= i < |os|
      ensures os[i] == Push(os[i].from, dr) && Valid(g, os[i].from) && Valid(g, os[i].to)
      ensures At(g, os[i].to) == '.' || Push(os[i].to, dr) in os
    {
      assert os[i] in ps;
      assert Link(g, dr, ps, os[i]);
    }
    forall i, j | 0 <= i < j < |os|
      ensures Depth(os[i].from, dr) >= Depth(os[j].from, dr)
    {
      assert Before(os[i], os[j], dr == -1);
    }
  }

  /** The next push of a plan can be swapped: nothing behind it has moved and its target has. */
  lemma PlanNext(g: Grid, os: seq<Proj>, k: nat, dr: int)
    requires dr == -1 || dr == 1
    requires Plan(g, os, dr) && k < |os|
    ensures os[k] == Push(os[k].from, dr) && Valid(g, os[k].from) && Valid(g, os[k].to)
    ensures os[k] !in os[..k] && Push(Prev(os[k].from, dr), dr) !in os[..k]
    ensures At(g, os[k].to) == '.' || Push(os[k].to, dr) in os[..k]
  {
    var q := os[k];
    assert Push(Prev(q.from, dr), dr) !in os[..k] by {
      if Push(Prev(q.from, dr), dr) in os[..k] {
        assert false;
      }
    }
    assert At(g, q.to) == '.' || Push(q.to, dr) in os[..k] by {
      if Push(q.to, dr) in os {
        var j :| 0 <= j < |os| && os[j] == Push(q.to, dr);
        if j >= k {
          assert false;
        }
        assert os[j] in os[..k];
      }
    }
  }

  /** Swapping a first push and then the rest. */
  lemma SwapsFirst(h: Grid, ps: seq<Proj>)
    requires |ps| > 0 && Valid(h, ps[0].from) && Valid(h, ps[0].to)
    ensures Swaps(h, ps) == Swaps(Swap(h, ps[0].from, ps[0].to), ps[1..])
  {
  }

  /** Swapping the rest of a plan in order completes the shift by the whole plan. */
  lemma {:induction false} SwapsShift(g: Grid, os: seq<Proj>, k: nat, h: Grid, dr: int)
    requires dr == -1 || dr == 1
    requires Plan(g, os, dr) && k <= |os|
    requires ShiftOf(g, h, os[..k], dr)
    ensures Swaps(h, os[k..]).Some? && ShiftOf(g, Swaps(h, os[k..]).value, os, dr)
    decreases |os| - k
  {
    if k == |os| {
      assert os[..k] == os && os[k..] == [];
    } else {
      var q := os[k];
      PlanNext(g, os, k, dr);
      assert SameShape(g, h);
      hide Plan, ShiftOf, Swap, Swaps;
      ShiftStep(g, h, os[..k], q, dr);
      var h' := Swap(h, q.from, q.to);
      assert os[..k + 1] == os[..k] + [q];
      assert os[k..][0] == q && os[k..][1..] == os[k + 1..];
      SwapsFirst(h, os[k..]);
      SwapsShift(g, os, k + 1, h', dr);
    }
  }

  /** Swapping cells keeps the number of each kind of cell. */
  lemma {:induction false} SwapsTally(g: Grid, ps: seq<Proj>, x: char)
    requires Swaps(g, ps).Some?
    ensures Tally(Swaps(g, ps).value, x) == Tally(g, x)
    decreases |ps|
  {
    if |ps| > 0 {
      var a, b := ps[0].from, ps[0].to;
      var g1 := Set(g, a, At(g, b));
      TallySet(g, a, At(g, b), x);
      TallySet(g1, b, At(g, a), x);
      assert At(g1, b) == At(g, b);
      SwapsTally(Swap(g, a, b), ps[1..], x);
    }
  }

  /** Moving the robot onto a free cell in another row swaps the two cells. */
  lemma RobotSwap(h: Grid, a: MatrixIndex, b: MatrixIndex)
    requires Valid(h, a) && Valid(h, b) && a.row != b.row
    requires At(h, a) == '@' && At(h, b) == '.'
    ensures Set(Set(h, b, '@'), a, '.') == Swap(h, a, b)
  {
  }

  /** One cell after the shift holds a part 2 tile, and the robot only one row on. */
  lemma WholeTile(g: Grid, pos: MatrixIndex, h: Grid, all: seq<Proj>, dr: int, r: int, c: int)
    requires dr == -1 || dr == 1
    requires Warehouse2(g, pos)
    requires Closed(g, dr, all) && Push(pos, dr) in all && Valid(g, Next(pos, dr))
    requires ShiftOf(g, h, all, dr)
    requires 0 <= r < |h| && 0 <= c < |h[r]|
    ensures Tile2(h[r][c]) && (h[r][c] == '@' <==> r == pos.row + dr && c == pos.col)
  {
    ShiftAt(g, h, all, dr, r, c);
    MovedCases(g, all, dr, r, c);
    var back := MatrixIndex(r - dr, c);
    var here := MatrixIndex(r, c);
    assert Valid(g, pos);
    CellAt(g, pos, r, c);
    if Valid(g, back) {
      CellAt(g, pos, r - dr, c);
    }
    hide Warehouse2, Closed, ShiftOf, Moved;
    assert r == pos.row + dr && c == pos.col ==> back == pos;
    assert r == pos.row && c == pos.col ==> here == pos;
  }



  /** The three cases of `Moved`. */
  lemma MovedCases(g: Grid, ps: seq<Proj>, dr: int, r: int, c: int)
    requires 0 <= r < |g| && 0 <= c < |g[r]|
    ensures Push(MatrixIndex(r - dr, c), dr) in ps && Valid(g, MatrixIndex(r - dr, c)) ==>
      Moved(g, ps, dr, r, c) == g[r - dr][c]
    ensures !(Push(MatrixIndex(r - dr, c), dr) in ps && Valid(g, MatrixIndex(r - dr, c))) ==>
      Moved(g, ps, dr, r, c) == (if Push(MatrixIndex(r, c), dr) in ps then '.' else g[r][c])
  {
  }


  /** A fenced grid's rows are all as long as the first, and walls close each column at both ends. */
  lemma FenceAt(g: Grid, r: int, c: int)
    requires Fenced(g)
    requires 0 <= r < |g|
    ensures |g[r]| == |g[0]|
    ensures 0 <= c < |g[r]| ==> g[0][c] == '#' && g[|g| - 1][c] == '#'
  {
  }

  /** One cell of a part 2 warehouse. */
  lemma CellAt(g: Grid, pos: MatrixIndex, r: int, c: int)
    requires Warehouse2(g, pos)
    requires 0 <= r < |g| && 0 <= c < |g[r]|
    ensures Tile2(g[r][c]) && (g[r][c] == '@' <==> r == pos.row && c == pos.col)
  {
  }

  /** What a closed listing grants one of its pushes. */
  lemma ClosedAt(g: Grid, dr: int, all: seq<Proj>, q: Proj)
    requires Closed(g, dr, all) && q in all
    ensures Link(g, dr, all, q)
  {
  }

  /** What a shift puts in one cell. */
  lemma ShiftAt(g: Grid, h: Grid, all: seq<Proj>, dr: int, r: int, c: int)
    requires ShiftOf(g, h, all, dr)
    requires 0 <= r < |g| && 0 <= c < |g[r]|
    ensures |h| == |g| && |h[r]| == |g[r]| && h[r][c] == Moved(g, all, dr, r, c)
  {
  }

  /** The half boxes of a part 2 warehouse at one cell. */
  lemma HalvesAt(g: Grid, pos: MatrixIndex, r: int, c: int)
    requires Warehouse2(g, pos)
    requires 0 <= r < |g| && 0 <= c < |g[r]|
    ensures g[r][c] == '[' ==> c + 1 < |g[r]| && g[r][c + 1] == ']'
    ensures g[r][c] == ']' ==> c >= 1 && g[r][c - 1] == '['
  {
  }

  /** A `[` after the shift has its `]` to the right. */
  lemma WholeOpen(g: Grid, pos: MatrixIndex, h: Grid, all: seq<Proj>, dr: int, r: int, c: int)
    requires dr == -1 || dr == 1
    requires Warehouse2(g, pos)
    requires Closed(g, dr, all)
    requires ShiftOf(g, h, all, dr)
    requires 0 <= r < |h| && 0 <= c < |h[r]| && h[r][c] == '['
    ensures c + 1 < |h[r]| && h[r][c + 1] == ']'
  {
    ShiftAt(g, h, all, dr, r, c);
    MovedCases(g, all, dr, r, c);
    hide Warehouse2, Closed, ShiftOf, Moved;
    if Push(MatrixIndex(r - dr, c), dr) in all && Valid(g, MatrixIndex(r - dr, c)) {
      WholeOpenMoved(g, pos, h, all, dr, r, c);
    } else {
      WholeOpenStayed(g, pos, h, all, dr, r, c);
    }
  }

  /** `WholeOpen` where the `[` moved in from the row behind. */
  lemma WholeOpenMoved(g: Grid, pos: MatrixIndex, h: Grid, all: seq<Proj>, dr: int, r: int, c: int)
    requires dr == -1 || dr == 1
    requires Warehouse2(g, pos)
    requires Closed(g, dr, all)
    requires ShiftOf(g, h, all, dr)
    requires 0 <= r < |g| && 0 <= c < |g[r]|
    requires Push(MatrixIndex(r - dr, c), dr) in all && Valid(g, MatrixIndex(r - dr, c)) && g[r - dr][c] == '['
    ensures c + 1 < |h[r]| && h[r][c + 1] == ']'
  {
    hide Warehouse2, Closed, ShiftOf;
    var y := MatrixIndex(r, c + 1);
    ClosedAt(g, dr, all, Push(MatrixIndex(r - dr, c), dr));
    HalvesAt(g, pos, r - dr, c);
    ClosedAt(g, dr, all, Push(Prev(y, dr), dr));
    ShiftAt(g, h, all, dr, r, c + 1);
  }

  /** `WholeOpen` where the `[` stayed put. */
  lemma WholeOpenStayed(g: Grid, pos: MatrixIndex, h: Grid, all: seq<Proj>, dr: int, r: int, c: int)
    requires dr == -1 || dr == 1
    requires Warehouse2(g, pos)
    requires Closed(g, dr, all)
    requires ShiftOf(g, h, all, dr)
    requires 0 <= r < |g| && 0 <= c < |g[r]|
    requires Push(MatrixIndex(r, c), dr) !in all && g[r][c] == '['
    ensures c + 1 < |h[r]| && h[r][c + 1] == ']'
  {
    hide Warehouse2, Closed, ShiftOf;
    var y := MatrixIndex(r, c + 1);
    HalvesAt(g, pos, r, c);
    if Push(y, dr) in all {
      ClosedAt(g, dr, all, Push(y, dr));
    }
    ShiftAt(g, h, all, dr, r, c + 1);
    if Push(Prev(y, dr), dr) in all {
      ClosedAt(g, dr, all, Push(Prev(y, dr), dr));
    }
  }

  /** A `]` after the shift has its `[` to the left. */
  lemma WholeClose(g: Grid, pos: MatrixIndex, h: Grid, all: seq<Proj>, dr: int, r: int, c: int)
    requires dr == -1 || dr == 1
    requires Warehouse2(g, pos)
    requires Closed(g, dr, all)
    requires ShiftOf(g, h, all, dr)
    requires 0 <= r < |h| && 0 <= c < |h[r]| && h[r][c] == ']'
    ensures c >= 1 && h[r][c - 1] == '['
  {
    ShiftAt(g, h, all, dr, r, c);
    MovedCases(g, all, dr, r, c);
    hide Warehouse2, Closed, ShiftOf, Moved;
    if Push(MatrixIndex(r - dr, c), dr) in all && Valid(g, MatrixIndex(r - dr, c)) {
      WholeCloseMoved(g, pos, h, all, dr, r, c);
    } else {
      WholeCloseStayed(g, pos, h, all, dr, r, c);
    }
  }

  /** `WholeClose` where the `]` moved in from the row behind. */
  lemma WholeCloseMoved(g: Grid, pos: MatrixIndex, h: Grid, all: seq<Proj>, dr: int, r: int, c: int)
    requires dr == -1 || dr == 1
    requires Warehouse2(g, pos)
    requires Closed(g, dr, all)
    requires ShiftOf(g, h, all, dr)
    requires 0 <= r < |g| && 0 <= c < |g[r]|
    requires Push(MatrixIndex(r - dr, c), dr) in all && Valid(g, MatrixIndex(r - dr, c)) && g[r - dr][c] == ']'
    ensures c >= 1 && h[r][c - 1] == '['
  {
    hide Warehouse2, Closed, ShiftOf;
    var y := MatrixIndex(r, c - 1);
    ClosedAt(g, dr, all, Push(MatrixIndex(r - dr, c), dr));
    HalvesAt(g, pos, r - dr, c);
    ClosedAt(g, dr, all, Push(Prev(y, dr), dr));
    ShiftAt(g, h, all, dr, r, c - 1);
  }

  /** `WholeClose` where the `]` stayed put. */
  lemma WholeCloseStayed(g: Grid, pos: MatrixIndex, h: Grid, all: seq<Proj>, dr: int, r: int, c: int)
    requires dr == -1 || dr == 1
    requires Warehouse2(g, pos)
    requires Closed(g, dr, all)
    requires ShiftOf(g, h, all, dr)
    requires 0 <= r < |g| && 0 <= c < |g[r]|
    requires Push(MatrixIndex(r, c), dr) !in all && g[r][c] == ']'
    ensures c >= 1 && h[r][c - 1] == '['
  {
    hide Warehouse2, Closed, ShiftOf;
    var y := MatrixIndex(r, c - 1);
    HalvesAt(g, pos, r, c);
    if Push(y, dr) in all {
      ClosedAt(g, dr, all, Push(y, dr));
    }
    ShiftAt(g, h, all, dr, r, c - 1);
    if Push(Prev(y, dr), dr) in all {
      ClosedAt(g, dr, all, Push(Prev(y, dr), dr));
    }
  }

  /** A shift by closed pushes, the robot's among them, leaves a part 2 warehouse with the robot one row on. */
  lemma ShiftWhole(g: Grid, pos: MatrixIndex, h: Grid, all: seq<Proj>, dr: int)
    requires dr == -1 || dr == 1
    requires Warehouse2(g, pos)
    requires Closed(g, dr, all) && Push(pos, dr) in all && Valid(g, Next(pos, dr))
    requires ShiftOf(g, h, all, dr)
    ensures Warehouse2(h, Next(pos, dr))
  {
    forall r, c | 0 <= r < |h| && 0 <= c < |h[r]|
      ensures Tile2(h[r][c]) && (h[r][c] == '@' <==> r == pos.row + dr && c == pos.col)
    {
      WholeTile(g, pos, h, all, dr, r, c);
    }
    forall r, c | 0 <= r < |h| && 0 <= c < |h[r]| && h[r][c] == '['
      ensures c + 1 < |h[r]| && h[r][c + 1] == ']'
    {
      WholeOpen(g, pos, h, all, dr, r, c);
    }
    forall r, c | 0 <= r < |h| && 0 <= c < |h[r]| && h[r][c] == ']'
      ensures c >= 1 && h[r][c - 1] == '['
    {
      WholeClose(g, pos, h, all, dr, r, c);
    }
  }

  /** Closed pushes listed in another order, or with repeats, are still closed. */
  lemma ClosedSame(g: Grid, dr: int, ps: seq<Proj>, qs: seq<Proj>)
    requires Closed(g, dr, ps)
    requires forall y :: y in qs <==> y in ps
    ensures Closed(g, dr, qs)
  {
    forall q | q in qs
      ensures Link(g, dr, qs, q)
    {
      LinkMore(g, dr, ps, qs, q);
    }
  }

  /**
   * After the boxes ahead have shifted, moving the robot one row on, onto
   * the cell the shift freed, completes a part 2 warehouse and keeps the
   * boxes.
   */
  lemma RobotShift(g: Grid, pos: MatrixIndex, h: Grid, os: seq<Proj>, dr: int)
    requires dr == -1 || dr == 1
    requires Warehouse2(g, pos) && Valid(g, Next(pos, dr))
    requires Closed(g, dr, os) && ShiftOf(g, h, os, dr)
    requires forall q :: q in os ==> Beyond(q.from.row, pos.row, dr)
    requires At(g, Next(pos, dr)) == '.' || Push(Next(pos, dr), dr) in os
    ensures Valid(h, pos) && Valid(h, Next(pos, dr))
    ensures Warehouse2(Set(Set(h, Next(pos, dr), '@'), pos, '.'), Next(pos, dr))
    ensures Tally(Set(Set(h, Next(pos, dr), '@'), pos, '.'), '[') == Tally(h, '[')
  {
    var t := Next(pos, dr);
    var q := Push(pos, dr);
    assert q !in os && Push(Prev(pos, dr), dr) !in os;
    ShiftAt(g, h, os, dr, pos.row, pos.col);
    ShiftAt(g, h, os, dr, t.row, t.col);
    MovedCases(g, os, dr, pos.row, pos.col);
    MovedCases(g, os, dr, t.row, t.col);
    CellAt(g, pos, pos.row, pos.col);
    ClosedRobot(g, pos, os, dr);
    hide Warehouse2, Closed, ShiftOf, Moved, Set, Swap, Tally;
    assert Prev(t, dr) == pos;
    assert h[t.row][t.col] == '.';
    RobotSwap(h, pos, t);
    ShiftStep(g, h, os, q, dr);
    TallySet(h, t, '@', '[');
    TallySet(Set(h, t, '@'), pos, '.', '[');
    ShiftWhole(g, pos, Set(Set(h, t, '@'), pos, '.'), os + [q], dr);
  }

  /** Adding the robot's push to the closed pushes ahead of it keeps them closed. */
  lemma ClosedRobot(g: Grid, pos: MatrixIndex, os: seq<Proj>, dr: int)
    requires dr == -1 || dr == 1
    requires Warehouse2(g, pos) && Valid(g, Next(pos, dr))
    requires Closed(g, dr, os)
    requires At(g, Next(pos, dr)) == '.' || Push(Next(pos, dr), dr) in os
    ensures Closed(g, dr, os + [Push(pos, dr)])
  {
    var q := Push(pos, dr);
    var all := os + [q];
    assert forall y :: y in all <==> y in os || y == q;
    assert Link(g, dr, all, q);
    forall y | y in all
      ensures Link(g, dr, all, y)
    {
      if y in os {
        LinkMore(g, dr, os, all, y);
      }
    }
  }


  /** The swaps and the robot's step of a vertical move whose search succeeded. */
  lemma VerticalPush(g: Grid, pos: MatrixIndex, dr: int, ps: seq<Proj>)
    requires dr == -1 || dr == 1
    requires Warehouse2(g, pos) && Valid(g, Next(pos, dr))
    requires Closed(g, dr, ps)
    requires forall q :: q in ps ==> Beyond(q.from.row, pos.row, dr)
    requires At(g, Next(pos, dr)) == '.' || Push(Next(pos, dr), dr) in ps
    ensures Swaps(g, Order(ps, dr == -1)).Some?
    ensures var h := Swaps(g, Order(ps, dr == -1)).value;
      && Valid(h, pos) && Valid(h, Next(pos, dr))
      && Warehouse2(Set(Set(h, Next(pos, dr), '@'), pos, '.'), Next(pos, dr))
      && Tally(Set(Set(h, Next(pos, dr), '@'), pos, '.'), '[') == Tally(g, '[')
  {
    var os := Order(ps, dr == -1);
    OrderPlan(g, ps, dr);
    ClosedSame(g, dr, ps, os);
    hide Order, Insert, Swap, Swaps;
    assert os[..0] == [];
    SwapsShift(g, os, 0, g, dr);
    assert os[0..] == os;
    var h := Swaps(g, os).value;
    SwapsTally(g, os, '[');
    RobotShift(g, pos, h, os, dr);
  }

  /**
   * A vertical part 2 move keeps a part 2 warehouse well formed, with the
   * robot where the move leaves it, and keeps the number of boxes: the
   * pushed boxes and the robot move one row on as a block.
   */
  lemma MoveRobotVerticallyWhole(g: Grid, pos: MatrixIndex, d: Direction)
    requires d == Up || d == Down
    requires Warehouse2(g, pos) && Fenced(g)
    ensures MoveRobotVertically(g, pos, d).Some?
    ensures var (h, p) := MoveRobotVertically(g, pos, d).value;
      Warehouse2(h, p) && Tally(h, '[') == Tally(g, '[')
  {
    MoveRobotVerticallyKeeps(g, pos, d);
    hide CanMove, Insert, Order, Swap, Swaps;
    var dr := Rows(d);
    var t := Step(pos, d);
    assert t == Next(pos, dr);
    assert g[0][pos.col] == '#' && g[|g| - 1][pos.col] == '#';
    assert 0 < pos.row < |g| - 1;
    assert |g[t.row]| == |g[pos.row]|;
    CanMoveGood(g, pos, t, dr, []);
    CanMoveClosed(g, pos, t, dr, []);
    var (ok, ps) := CanMove(g, t, dr, []).value;
    if ok {
      forall q | q in ps
        ensures Beyond(q.from.row, pos.row, dr)
      {
        assert Good(g, pos, dr, q);
      }
      VerticalPush(g, pos, dr, ps);
    }
  }

  // ---------------------------------------------------------------------
  // Running the moves

  datatype Part = Part1 | Part2

  /** The move a character of the movement list stands for; any other character is skipped. */
  function Command(m: char): (d: Option<Direction>)
    ensures d.Some? <==> m == '^' || m == 'v' || m == '<' || m == '>'
  {
    if m == '^' then Some(Up)
    else if m == 'v' then Some(Down)
    else if m == '<' then Some(Left)
    else if m == '>' then Some(Right)
    else None
  }

  /** One movement of `Day15Solve`, with the part's move functions. */
  function Move(part: Part, g: Grid, pos: MatrixIndex, m: char): Option<(Grid, MatrixIndex)>
  {
    match Command(m)
    case None => Some((g, pos))
    case Some(d) =>
      if part == Part1 then MoveRobot1(g, pos, d)
      else if d == Up || d == Down then MoveRobotVertically(g, pos, d)
      else MoveRobotHorizontally(g, pos, d)
  }

  /** The movement loop of `Day15Solve`. */
  function Run(part: Part, g: Grid, pos: MatrixIndex, ms: seq<char>): Option<(Grid, MatrixIndex)>
    decreases |ms|
  {
    if |ms| == 0 then Some((g, pos))
    else
      match Move(part, g, pos, ms[0])
      case None => None
      case Some((h, p)) => Run(part, h, p, ms[1..])
  }

  /** The movement list with every character that is not a move removed. */
  function Commands(ms: seq<char>): (cs: seq<char>)
    ensures |cs| <= |ms|
    ensures forall i :: 0 <= i < |cs| ==> Command(cs[i]).Some?
  {
    if |ms| == 0 then []
    else (if Command(ms[0]).Some? then [ms[0]] else []) + Commands(ms[1..])
  }

  /** Characters that are not moves change nothing: running the list is running its moves. */
  lemma {:induction false} RunIgnores(part: Part, g: Grid, pos: MatrixIndex, ms: seq<char>)
    ensures Run(part, g, pos, ms) == Run(part, g, pos, Commands(ms))
    decreases |ms|
  {
    if |ms| > 0 {
      var rest := Commands(ms[1..]);
      if Command(ms[0]).Some? {
        assert Commands(ms) == [ms[0]] + rest;
        assert Commands(ms)[1..] == rest;
        match Move(part, g, pos, ms[0])
        case None =>
        case Some((h, p)) =>
          RunIgnores(part, h, p, ms[1..]);
      } else {
        assert Commands(ms) == rest;
        RunIgnores(part, g, pos, ms[1..]);
      }
    }
  }

  lemma SameWallsTrans(a: Grid, b: Grid, c: Grid)
    requires SameWalls(a, b) && SameWalls(b, c)
    ensures SameWalls(a, c)
  {
  }

  /**
   * Part 1 from a well-formed warehouse: every move is defined, and after
   * any list of moves the warehouse is still well formed, with as many
   * boxes as before and its walls in place.
   */
  lemma {:induction false} Part1Keeps(g: Grid, pos: MatrixIndex, ms: seq<char>)
    requires Warehouse1(g, pos)
    ensures Run(Part1, g, pos, ms).Some?
    ensures var (h, p) := Run(Part1, g, pos, ms).value;
      Warehouse1(h, p) && Tally(h, 'O') == Tally(g, 'O') && SameWalls(g, h)
    decreases |ms|
  {
    if |ms| == 0 {
      assert SameWalls(g, g);
    } else {
      match Command(ms[0])
      case None =>
        Part1Keeps(g, pos, ms[1..]);
      case Some(d) =>
        MoveRobot1Keeps(g, pos, d);
        var (h, p) := MoveRobot1(g, pos, d).value;
        Part1Keeps(h, p, ms[1..]);
        SameWallsTrans(g, h, Run(Part1, h, p, ms[1..]).value.0);
    }
  }

  /** The walls staying put keeps a warehouse fenced. */
  lemma FencedWalls(g: Grid, h: Grid)
    requires Fenced(g) && SameWalls(g, h)
    ensures Fenced(h)
  {
    forall c | 0 <= c < |h[0]|
      ensures h[0][c] == '#' && h[|h| - 1][c] == '#'
    {
      assert g[0][c] == '#' && g[|g| - 1][c] == '#';
    }
  }

  /** Widening a fenced part 1 warehouse gives a fenced one. */
  lemma ScaleFenced(g: Grid, pos: MatrixIndex)
    requires Warehouse1(g, pos) && Fenced(g)
    ensures Fenced(ScaleGrid(g))
  {
    var s := ScaleGrid(g);
    forall r | 0 <= r < |s|
      ensures |s[r]| == |s[0]|
    {
      ScaledCell(g, r, 0);
      ScaledCell(g, 0, 0);
    }
    forall c | 0 <= c < |s[0]|
      ensures s[0][c] == '#' && s[|s| - 1][c] == '#'
    {
      ScaledCell(g, 0, c);
      ScaledCell(g, |g| - 1, c);
      assert g[0][c / 2] == '#' && g[|g| - 1][c / 2] == '#';
    }
  }

  /**
   * Part 2 from a well-formed fenced part 2 warehouse: every move is
   * defined, and after any list of moves the warehouse is still well
   * formed and fenced, with as many boxes as before and its walls in place.
   */
  lemma {:induction false} Part2Keeps(g: Grid, pos: MatrixIndex, ms: seq<char>)
    requires Warehouse2(g, pos) && Fenced(g)
    ensures Run(Part2, g, pos, ms).Some?
    ensures var (h, p) := Run(Part2, g, pos, ms).value;
      Warehouse2(h, p) && Fenced(h) && Tally(h, '[') == Tally(g, '[') && SameWalls(g, h)
    decreases |ms|
  {
    if |ms| == 0 {
      assert SameWalls(g, g);
    } else {
      match Command(ms[0])
      case None =>
        Part2Keeps(g, pos, ms[1..]);
      case Some(d) =>
        if d == Up || d == Down {
          MoveRobotVerticallyKeeps(g, pos, d);
          MoveRobotVerticallyWhole(g, pos, d);
        } else {
          MoveRobotHorizontallyWhole(g, pos, d);
        }
        var (h, p) := Move(Part2, g, pos, ms[0]).value;
        FencedWalls(g, h);
        Part2Keeps(h, p, ms[1..]);
        SameWallsTrans(g, h, Run(Part2, h, p, ms[1..]).value.0);
    }
  }

  /** `Day15Solve`: find the robot, run the moves and sum the GPS coordinates of the part's box cells. */
  function Day15Solve(part: Part, g: Grid, ms: seq<char>): Option<int>
  {
    match Run(part, g, FindRobotPosition(g), ms)
    case None => None
    case Some((h, _)) => Some(Gps(h, if part == Part1 then 'O' else '['))
  }

  /** Part 1 has an answer on every well-formed warehouse. */
  function Day15Part1(g: Grid, ms: seq<char>): (r: Option<int>)
    ensures (exists pos :: Warehouse1(g, pos)) ==> r.Some?
  {
    Solve1Defined(g, ms);
    Day15Solve(Part1, g, ms)
  }

  lemma Solve1Defined(g: Grid, ms: seq<char>)
    ensures (exists pos :: Warehouse1(g, pos)) ==> Day15Solve(Part1, g, ms).Some?
  {
    if pos :| Warehouse1(g, pos) {
      FindOnlyRobot(g, pos);
      Part1Keeps(g, pos, ms);
    }
  }

  /** Part 2 runs on the widened warehouse; it has an answer on every well-formed fenced one. */
  function Day15Part2(g: Grid, ms: seq<char>): (r: Option<int>)
    ensures (exists pos :: Warehouse1(g, pos) && Fenced(g)) ==> r.Some?
  {
    Solve2Defined(g, ms);
    Day15Solve(Part2, ScaleGrid(g), ms)
  }

  lemma Solve2Defined(g: Grid, ms: seq<char>)
    ensures (exists pos :: Warehouse1(g, pos) && Fenced(g)) ==> Day15Solve(Part2, ScaleGrid(g), ms).Some?
  {
    if pos :| Warehouse1(g, pos) && Fenced(g) {
      ScaleWarehouse(g, pos);
      FindOnlyRobot(ScaleGrid(g), MatrixIndex(pos.row, 2 * pos.col));
      ScaleFenced(g, pos);
      Part2Keeps(ScaleGrid(g), MatrixIndex(pos.row, 2 * pos.col), ms);
    }
  }

  /**
   * Part 1's answer is defined for every well-formed warehouse and list of
   * moves, and it is the GPS sum of a warehouse holding as many boxes as
   * the input, walls in place.
   */
  lemma Day15Part1Defined(g: Grid, pos: MatrixIndex, ms: seq<char>)
    requires Warehouse1(g, pos)
    ensures Day15Part1(g, ms).Some? && Run(Part1, g, pos, ms).Some?
    ensures var h := Run(Part1, g, pos, ms).value.0;
      Day15Part1(g, ms) == Some(Gps(h, 'O')) && Tally(h, 'O') == Tally(g, 'O') && SameWalls(g, h)
  {
    FindOnlyRobot(g, pos);
    Part1Keeps(g, pos, ms);
  }

  /**
   * Part 2 starts from a well-formed part 2 warehouse: the robot is found at
   * twice its column and there is one left box half per part 1 box.
   */
  lemma Day15Part2Start(g: Grid, pos: MatrixIndex)
    requires Warehouse1(g, pos)
    ensures FindRobotPosition(ScaleGrid(g)) == MatrixIndex(pos.row, 2 * pos.col)
    ensures Warehouse2(ScaleGrid(g), MatrixIndex(pos.row, 2 * pos.col))
    ensures Tally(ScaleGrid(g), '[') == Tally(g, 'O')
    ensures Day15Part2(g, []) == Some(Gps(ScaleGrid(g), '['))
  {
    ScaleWarehouse(g, pos);
    FindOnlyRobot(ScaleGrid(g), MatrixIndex(pos.row, 2 * pos.col));
    ScaleGridBoxes(g);
  }

  /**
   * Part 2's answer is defined for every well-formed fenced warehouse and
   * list of moves, and it is the GPS sum of a well-formed part 2 warehouse
   * holding one left box half per part 1 box, the widened walls in place.
   */
  lemma Day15Part2Defined(g: Grid, pos: MatrixIndex, ms: seq<char>)
    requires Warehouse1(g, pos) && Fenced(g)
    ensures Day15Part2(g, ms).Some?
    ensures Run(Part2, ScaleGrid(g), MatrixIndex(pos.row, 2 * pos.col), ms).Some?
    ensures var (h, p) := Run(Part2, ScaleGrid(g), MatrixIndex(pos.row, 2 * pos.col), ms).value;
      && Day15Part2(g, ms) == Some(Gps(h, '['))
      && Warehouse2(h, p) && Tally(h, '[') == Tally(g, 'O') && SameWalls(ScaleGrid(g), h)
  {
    Day15Part2Start(g, pos);
    ScaleFenced(g, pos);
    Part2Keeps(ScaleGrid(g), MatrixIndex(pos.row, 2 * pos.col), ms);
  }
}
