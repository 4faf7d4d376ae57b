/**
 * Resonant Collinearity (2024, day 8): antennas are the letters and digits
 * of a grid, grouped by character.  Part 1 counts the distinct in-grid
 * points that mirror one antenna of a same-character pair across the
 * other; part 2 counts the distinct grid points on the line through some
 * same-character pair, together with every antenna that has a partner.
 */
module Resonant {

  type Grid = seq<seq<char>>

  datatype Pos = Pos(x: int, y: int)

  /** `IsValidPosition`: inside `rows` rows and `cols` columns. */
  predicate Valid(p: Pos, rows: int, cols: int)
  {
    0 <= p.x < rows && 0 <= p.y < cols
  }

  /** `isalpha` or `isdigit` in the classic locale. */
  predicate IsAntenna(c: char)
  {
    'a' <= c <= 'z' || 'A' <= c <= 'Z' || '0' <= c <= '9'
  }

  /** `p` is a cell of the (possibly ragged) grid. */
  predicate InGrid(g: Grid, p: Pos)
  {
    0 <= p.x < |g| && 0 <= p.y < |g[p.x]|
  }

  /** `p` comes before `q` in row-major order. */
  predicate Before(p: Pos, q: Pos)
  {
    p.x < q.x || (p.x == q.x && p.y < q.y)
  }

  predicate RowMajor(s: seq<Pos>)
  {
    forall i, j :: 0 <= i < j < |s| ==> Before(s[i], s[j])
  }

  // ---------------------------------------------------------------------
  // Antenna groups

  /** The cells holding `c` among the first `n` of row `i`, left to right. */
  function RowHits(g: Grid, c: char, i: nat, n: nat): seq<Pos>
    requires i < |g| && n <= |g[i]|
  {
    if n == 0 then []
    else RowHits(g, c, i, n - 1) + (if g[i][n - 1] == c then [Pos(i, n - 1)] else [])
  }

  /** The cells holding `c` in the first `i` rows, in row-major order. */
  function Hits(g: Grid, c: char, i: nat): seq<Pos>
    requires i <= |g|
  {
    if i == 0 then [] else Hits(g, c, i - 1) + RowHits(g, c, i - 1, |g[i - 1]|)
  }

  /** Every cell holding `c`, in the order `GetAntennas` meets them. */
  function Group(g: Grid, c: char): seq<Pos>
  {
    Hits(g, c, |g|)
  }

  lemma {:induction false} RowHitsMeans(g: Grid, c: char, i: nat, n: nat)
    requires i < |g| && n <= |g[i]|
    ensures forall p :: p in RowHits(g, c, i, n) <==> p.x == i && 0 <= p.y < n && g[i][p.y] == c
    ensures RowMajor(RowHits(g, c, i, n))
  {
    if n > 0 {
      RowHitsMeans(g, c, i, n - 1);
      var s := RowHits(g, c, i, n - 1);
      var t := RowHits(g, c, i, n);
      forall a, b | 0 <= a < b < |t|
        ensures Before(t[a], t[b])
      {
        if b < |s| {
          assert t[a] == s[a] && t[b] == s[b];
        } else {
          assert t[a] == s[a] && t[a] in s;
        }
      }
    }
  }

  lemma {:induction false} HitsMeans(g: Grid, c: char, i: nat)
    requires i <= |g|
    ensures forall p :: p in Hits(g, c, i) <==> 0 <= p.x < i && InGrid(g, p) && g[p.x][p.y] == c
    ensures RowMajor(Hits(g, c, i))
  {
    if i > 0 {
      HitsMeans(g, c, i - 1);
      RowHitsMeans(g, c, i - 1, |g[i - 1]|);
      var s, r := Hits(g, c, i - 1), RowHits(g, c, i - 1, |g[i - 1]|);
      var t := Hits(g, c, i);
      assert t == s + r;
      forall a, b | 0 <= a < b < |t|
        ensures Before(t[a], t[b])
      {
        if b < |s| {
          assert t[a] == s[a] && t[b] == s[b];
        } else if a >= |s| {
          assert t[a] == r[a - |s|] && t[b] == r[b - |s|];
        } else {
          assert t[a] == s[a] && t[a] in s;
          assert t[b] == r[b - |s|] && t[b] in r;
        }
      }
    }
  }

  /**
   * A group lists exactly the cells holding its character, in row-major
   * order, so no cell twice.
   */
  lemma GroupMeans(g: Grid, c: char)
    ensures forall p :: p in Group(g, c) <==> InGrid(g, p) && g[p.x][p.y] == c
    ensures RowMajor(Group(g, c))
  {
    HitsMeans(g, c, |g|);
  }

  /** The cells holding `c` up to cell `(i, j)`, exclusive. */
  function HitsUpTo(g: Grid, c: char, i: nat, j: nat): seq<Pos>
    requires i < |g| && j <= |g[i]|
  {
    Hits(g, c, i) + RowHits(g, c, i, j)
  }

  lemma HitsUpToStep(g: Grid, c: char, i: nat, j: nat)
    requires i < |g| && j < |g[i]|
    ensures HitsUpTo(g, c, i, j + 1) == HitsUpTo(g, c, i, j) + (if g[i][j] == c then [Pos(i, j)] else [])
  {
    var h, r := Hits(g, c, i), RowHits(g, c, i, j);
    var e := if g[i][j] == c then [Pos(i, j)] else [];
    assert RowHits(g, c, i, j + 1) == r + e;
    assert h + (r + e) == (h + r) + e;
  }

  /** `m` holds, for each antenna character, its cells among the first `i` rows. */
  predicate Table(g: Grid, m: map<char, seq<Pos>>, i: nat)
    requires i <= |g|
  {
    forall c :: (c in m <==> IsAntenna(c) && Hits(g, c, i) != []) && (c in m ==> m[c] == Hits(g, c, i))
  }

  /** `GetAntennas`: every antenna character mapped to its group. */
  method GetAntennas(g: Grid) returns (m: map<char, seq<Pos>>)
    ensures forall c :: c in m <==> IsAntenna(c) && Group(g, c) != []
    ensures forall c :: c in m ==> m[c] == Group(g, c)
  {
    m := map[];
    var i := 0;
    while i < |g|
      invariant 0 <= i <= |g| && Table(g, m, i)
    {
      m := ScanRow(g, m, i);
      i := i + 1;
    }
  }

  /** `m` holds, for each antenna character, its cells before cell `(i, j)`. */
  predicate RowTable(g: Grid, m: map<char, seq<Pos>>, i: nat, j: nat)
    requires i < |g| && j <= |g[i]|
  {
    forall c :: (c in m <==> IsAntenna(c) && HitsUpTo(g, c, i, j) != []) && (c in m ==> m[c] == HitsUpTo(g, c, i, j))
  }

  /** `umap[kChar].push_back(...)` for an antenna character, nothing otherwise. */
  function Record(m: map<char, seq<Pos>>, ch: char, p: Pos): map<char, seq<Pos>>
  {
    if IsAntenna(ch) then m[ch := (if ch in m then m[ch] else []) + [p]] else m
  }

  lemma RowTableStep(g: Grid, m: map<char, seq<Pos>>, i: nat, j: nat)
    requires i < |g| && j < |g[i]| && RowTable(g, m, i, j)
    ensures RowTable(g, Record(m, g[i][j], Pos(i, j)), i, j + 1)
  {
    var m' := Record(m, g[i][j], Pos(i, j));
    forall c
      ensures (c in m' <==> IsAntenna(c) && HitsUpTo(g, c, i, j + 1) != []) && (c in m' ==> m'[c] == HitsUpTo(g, c, i, j + 1))
    {
      HitsUpToStep(g, c, i, j);
    }
  }

  lemma RowTableStart(g: Grid, m: map<char, seq<Pos>>, i: nat)
    requires i < |g| && Table(g, m, i)
    ensures RowTable(g, m, i, 0)
  {
    assert forall c :: HitsUpTo(g, c, i, 0) == Hits(g, c, i);
  }

  lemma RowTableEnd(g: Grid, m: map<char, seq<Pos>>, i: nat)
    requires i < |g| && RowTable(g, m, i, |g[i]|)
    ensures Table(g, m, i + 1)
  {
    assert forall c :: HitsUpTo(g, c, i, |g[i]|) == Hits(g, c, i + 1);
  }

  /** The inner loop of `GetAntennas` over row `i`. */
  method ScanRow(g: Grid, m0: map<char, seq<Pos>>, i: nat) returns (m: map<char, seq<Pos>>)
    requires i < |g| && Table(g, m0, i)
    ensures Table(g, m, i + 1)
  {
    hide RowTable, Table;
    m := m0;
    var j := 0;
    RowTableStart(g, m, i);
    while j < |g[i]|
      invariant 0 <= j <= |g[i]| && RowTable(g, m, i, j)
    {
      RowTableStep(g, m, i, j);
      var ch := g[i][j];
      if IsAntenna(ch) {
        m := m[ch := (if ch in m then m[ch] else []) + [Pos(i, j)]];
      }
      j := j + 1;
    }
    RowTableEnd(g, m, i);
  }

  // ---------------------------------------------------------------------
  // Antinodes of one pair

  /** The two puzzle parts, which differ only in what one pair contributes. */
  datatype Part = One | Two

  /** The point past `a` on the way from `b`: `a` lies halfway between it and `b`. */
  function Reflect(a: Pos, b: Pos): Pos
  {
    Pos(a.x - (b.x - a.x), a.y - (b.y - a.y))
  }

  /** `areCollinear`: the cross product of `b - a` and `p - b` is zero. */
  predicate Collinear(a: Pos, b: Pos, p: Pos)
  {
    (b.y - a.y) * (p.x - b.x) == (p.y - b.y) * (b.x - a.x)
  }

  /** The points of row `x` among its first `n` columns that lie on the line through `a` and `b`. */
  function LineRow(a: Pos, b: Pos, x: int, n: nat): set<Pos>
  {
    if n == 0 then {}
    else LineRow(a, b, x, n - 1) + (if Collinear(a, b, Pos(x, n - 1)) then {Pos(x, n - 1)} else {})
  }

  /** The points of the first `m` rows, `cols` wide, that lie on the line through `a` and `b`. */
  function LineBox(a: Pos, b: Pos, m: nat, cols: nat): set<Pos>
  {
    if m == 0 then {} else LineBox(a, b, m - 1, cols) + LineRow(a, b, m - 1, cols)
  }

  /** The antinodes one pair adds to the set of each part. */
  function Contribution(part: Part, a: Pos, b: Pos, rows: nat, cols: nat): set<Pos>
  {
    match part
    case One =>
      (if Valid(Reflect(a, b), rows, cols) then {Reflect(a, b)} else {}) +
      (if Valid(Reflect(b, a), rows, cols) then {Reflect(b, a)} else {})
    case Two => LineBox(a, b, rows, cols)
  }

  lemma {:induction false} LineRowMeans(a: Pos, b: Pos, x: int, n: nat)
    ensures forall p :: p in LineRow(a, b, x, n) <==> p.x == x && 0 <= p.y < n && Collinear(a, b, p)
  {
    if n > 0 {
      LineRowMeans(a, b, x, n - 1);
    }
  }

  lemma {:induction false} LineBoxMeans(a: Pos, b: Pos, m: nat, cols: nat)
    ensures forall p :: p in LineBox(a, b, m, cols) <==> Valid(p, m, cols) && Collinear(a, b, p)
  {
    if m > 0 {
      LineBoxMeans(a, b, m - 1, cols);
      LineRowMeans(a, b, m - 1, cols);
    }
  }

  /** Both antennas lie on their own line. */
  lemma CollinearEnds(a: Pos, b: Pos)
    ensures Collinear(a, b, a) && Collinear(a, b, b)
  {
    var u, v := b.x - a.x, b.y - a.y;
    assert v * (a.x - b.x) == -(v * u);
    assert (a.y - b.y) * u == -(v * u);
  }

  /** The line through `a` and `b` is the line through `b` and `a`. */
  lemma CollinearSwap(a: Pos, b: Pos, p: Pos)
    ensures Collinear(a, b, p) <==> Collinear(b, a, p)
  {
    var ux, uy := b.x - a.x, b.y - a.y;
    var vx, vy := p.x - b.x, p.y - b.y;
    assert p.x - a.x == ux + vx && p.y - a.y == uy + vy;
    assert (a.y - b.y) * (p.x - a.x) == -(uy * ux) - uy * vx;
    assert (p.y - a.y) * (a.x - b.x) == -(uy * ux) - vy * ux;
  }

  /** A part 1 antinode lies on the line of its pair. */
  lemma ReflectCollinear(a: Pos, b: Pos)
    ensures Collinear(a, b, Reflect(a, b))
  {
    var ux, uy := b.x - a.x, b.y - a.y;
    var r := Reflect(a, b);
    assert r.x - b.x == -2 * ux && r.y - b.y == -2 * uy;
    assert uy * (-2 * ux) == (-2 * uy) * ux;
  }

  lemma ContributionMeans(part: Part, a: Pos, b: Pos, rows: nat, cols: nat)
    ensures forall p :: p in Contribution(part, a, b, rows, cols) <==>
      Valid(p, rows, cols) && match part { case One => p == Reflect(a, b) || p == Reflect(b, a) case Two => Collinear(a, b, p) }
  {
    LineBoxMeans(a, b, rows, cols);
  }

  // ---------------------------------------------------------------------
  // Antinodes of one group

  /** The contributions of pairs `(i, k)` for `i < k < j`: the inner pair loop. */
  function Partners(part: Part, ps: seq<Pos>, i: nat, j: nat, rows: nat, cols: nat): set<Pos>
    requires i < |ps| && j <= |ps|
    decreases j
  {
    if j <= i + 1 then {} else Partners(part, ps, i, j - 1, rows, cols) + Contribution(part, ps[i], ps[j - 1], rows, cols)
  }

  /** The contributions of every pair whose first index is below `i`: the outer pair loop. */
  function Pairs(part: Part, ps: seq<Pos>, i: nat, rows: nat, cols: nat): set<Pos>
    requires i <= |ps|
  {
    if i == 0 then {} else Pairs(part, ps, i - 1, rows, cols) + Partners(part, ps, i - 1, |ps|, rows, cols)
  }

  function Members(ps: seq<Pos>, n: nat): set<Pos>
    requires n <= |ps|
  {
    set k | 0 <= k < n :: ps[k]
  }

  /** The antinodes a group adds: part 2 adds its own antennas when there are two or more. */
  function GroupNodes(part: Part, ps: seq<Pos>, rows: nat, cols: nat): set<Pos>
  {
    (if part == Two && |ps| > 1 then Members(ps, |ps|) else {}) + Pairs(part, ps, |ps|, rows, cols)
  }

  lemma {:induction false} PartnersMeans(part: Part, ps: seq<Pos>, i: nat, j: nat, rows: nat, cols: nat, q: Pos)
    requires i < |ps| && j <= |ps|
    ensures q in Partners(part, ps, i, j, rows, cols) <==> exists k :: i < k < j && q in Contribution(part, ps[i], ps[k], rows, cols)
    decreases j
  {
    if j > i + 1 {
      PartnersMeans(part, ps, i, j - 1, rows, cols, q);
    }
  }

  lemma {:induction false} PairsMeans(part: Part, ps: seq<Pos>, i: nat, rows: nat, cols: nat, q: Pos)
    requires i <= |ps|
    ensures q in Pairs(part, ps, i, rows, cols) <==> exists a, k :: 0 <= a < i && a < k < |ps| && q in Contribution(part, ps[a], ps[k], rows, cols)
  {
    if i > 0 {
      PairsMeans(part, ps, i - 1, rows, cols, q);
      PartnersMeans(part, ps, i - 1, |ps|, rows, cols, q);
    }
  }

  // ---------------------------------------------------------------------
  // The loops

  /** The grid scan of part 2 for one pair: every point of the box on their line. */
  method ScanGrid(a: Pos, b: Pos, rows: nat, cols: nat) returns (s: set<Pos>)
    ensures s == LineBox(a, b, rows, cols)
  {
    s := {};
    var x := 0;
    while x < rows
      invariant 0 <= x <= rows && s == LineBox(a, b, x, cols)
    {
      var y := 0;
      while y < cols
        invariant 0 <= y <= cols && s == LineBox(a, b, x, cols) + LineRow(a, b, x, y)
      {
        if Collinear(a, b, Pos(x, y)) {
          s := s + {Pos(x, y)};
        }
        y := y + 1;
      }
      x := x + 1;
    }
  }

  /** What pair `(a, b)` adds: the two in-grid reflections, or the in-grid points of its line. */
  method PairContribution(part: Part, a: Pos, b: Pos, rows: nat, cols: nat) returns (s: set<Pos>)
    ensures s == Contribution(part, a, b, rows, cols)
  {
    match part
    case One =>
      s := {};
      var d := Pos(b.x - a.x, b.y - a.y);
      var first, second := Pos(a.x - d.x, a.y - d.y), Pos(b.x + d.x, b.y + d.y);
      if Valid(first, rows, cols) {
        s := s + {first};
      }
      if Valid(second, rows, cols) {
        s := s + {second};
      }
    case Two =>
      s := ScanGrid(a, b, rows, cols);
  }

  /** The inner pair loop: everything the pairs `(i, j)`, `j > i`, add. */
  method PartnerLoop(part: Part, ps: seq<Pos>, i: nat, rows: nat, cols: nat) returns (s: set<Pos>)
    requires i < |ps|
    ensures s == Partners(part, ps, i, |ps|, rows, cols)
  {
    s := {};
    var j := i + 1;
    while j < |ps|
      invariant i + 1 <= j <= |ps| && s == Partners(part, ps, i, j, rows, cols)
    {
      var c := PairContribution(part, ps[i], ps[j], rows, cols);
      s := s + c;
      j := j + 1;
    }
  }

  /** Everything one frequency group adds, in the loop order of the program. */
  method GroupAntinodes(part: Part, ps: seq<Pos>, rows: nat, cols: nat) returns (s: set<Pos>)
    ensures s == GroupNodes(part, ps, rows, cols)
  {
    s := {};
    if part == Two && |ps| > 1 {
      var k := 0;
      while k < |ps|
        invariant 0 <= k <= |ps| && s == Members(ps, k)
      {
        assert Members(ps, k + 1) == Members(ps, k) + {ps[k]};
        s := s + {ps[k]};
        k := k + 1;
      }
    }
    ghost var base := s;
    var i := 0;
    while i < |ps|
      invariant 0 <= i <= |ps| && s == base + Pairs(part, ps, i, rows, cols)
    {
      var t := PartnerLoop(part, ps, i, rows, cols);
      s := s + t;
      i := i + 1;
    }
  }

  /** The union of what the groups of the characters in `done` add. */
  function Collect(part: Part, m: map<char, seq<Pos>>, done: set<char>, rows: nat, cols: nat): set<Pos>
  {
    set c, q | c in done && c in m && q in GroupNodes(part, m[c], rows, cols) :: q
  }

  /** The loop over the frequency groups, in whatever order the map yields them. */
  method AllGroups(part: Part, m: map<char, seq<Pos>>, rows: nat, cols: nat) returns (s: set<Pos>)
    ensures s == Collect(part, m, m.Keys, rows, cols)
  {
    s := {};
    var todo := m.Keys;
    while todo != {}
      invariant todo <= m.Keys && s == Collect(part, m, m.Keys - todo, rows, cols)
      decreases |todo|
    {
      var c :| c in todo;
      var nodes := GroupAntinodes(part, m[c], rows, cols);
      assert Collect(part, m, m.Keys - (todo - {c}), rows, cols) == s + nodes;
      s := s + nodes;
      todo := todo - {c};
    }
  }

  // ---------------------------------------------------------------------
  // What the parts count

  function At(g: Grid, p: Pos): char
    requires InGrid(g, p)
  {
    g[p.x][p.y]
  }

  /** Two different antennas of the same frequency. */
  predicate SameFrequency(g: Grid, a: Pos, b: Pos)
  {
    InGrid(g, a) && InGrid(g, b) && a != b && IsAntenna(At(g, a)) && At(g, a) == At(g, b)
  }

  function AntennaCells(g: Grid): set<Pos>
  {
    set i, j | 0 <= i < |g| && 0 <= j < |g[i]| && IsAntenna(g[i][j]) :: Pos(i, j)
  }

  /** The points `IsValidPosition` accepts and the part 2 scan visits. */
  function Box(rows: nat, cols: nat): set<Pos>
  {
    set x, y | 0 <= x < rows && 0 <= y < cols :: Pos(x, y)
  }

  /** Part 1's antinodes: each in-grid reflection of an antenna away from a same-frequency partner. */
  function Antinodes1(g: Grid): set<Pos>
    requires |g| >= 1
  {
    set a, b | a in AntennaCells(g) && b in AntennaCells(g) && SameFrequency(g, a, b) && Valid(Reflect(a, b), |g|, |g[0]|) :: Reflect(a, b)
  }

  /** The in-grid points on the line through some same-frequency pair. */
  function LinePoints(g: Grid): set<Pos>
    requires |g| >= 1
  {
    set a, b, p | a in AntennaCells(g) && b in AntennaCells(g) && p in Box(|g|, |g[0]|) && SameFrequency(g, a, b) && Collinear(a, b, p) :: p
  }

  /** Part 2's antinodes: every antenna with a partner, and every in-grid point on a pair's line. */
  function Antinodes2(g: Grid): set<Pos>
    requires |g| >= 1
  {
    (set a, b | a in AntennaCells(g) && b in AntennaCells(g) && SameFrequency(g, a, b) :: a) + LinePoints(g)
  }

  /** What `GetAntennas` returns. */
  predicate Indexed(g: Grid, m: map<char, seq<Pos>>)
  {
    (forall c :: c in m <==> IsAntenna(c) && Group(g, c) != []) && (forall c :: c in m ==> m[c] == Group(g, c))
  }

  /** Two different entries of a group are two antennas of one frequency. */
  lemma PairFromGroup(g: Grid, c: char, i: nat, k: nat)
    requires IsAntenna(c) && i < |Group(g, c)| && k < |Group(g, c)| && i != k
    ensures SameFrequency(g, Group(g, c)[i], Group(g, c)[k])
  {
    var ps := Group(g, c);
    GroupMeans(g, c);
    assert ps[i] in ps && ps[k] in ps;
    if i < k {
      assert Before(ps[i], ps[k]);
    } else {
      assert Before(ps[k], ps[i]);
    }
  }

  /** Two antennas of one frequency sit at two different entries of its group. */
  lemma GroupFromPair(g: Grid, a: Pos, b: Pos) returns (i: nat, k: nat)
    requires SameFrequency(g, a, b)
    ensures i < |Group(g, At(g, a))| && k < |Group(g, At(g, a))| && i != k
    ensures Group(g, At(g, a))[i] == a && Group(g, At(g, a))[k] == b
  {
    var ps := Group(g, At(g, a));
    GroupMeans(g, At(g, a));
    assert a in ps && b in ps;
    i :| 0 <= i < |ps| && ps[i] == a;
    k :| 0 <= k < |ps| && ps[k] == b;
  }

  lemma AntennaCell(g: Grid, a: Pos)
    requires InGrid(g, a) && IsAntenna(At(g, a))
    ensures a in AntennaCells(g)
  {
    assert a == Pos(a.x, a.y);
  }

  lemma Collect1Sound(g: Grid, m: map<char, seq<Pos>>, q: Pos)
    requires |g| >= 1 && Indexed(g, m) && q in Collect(One, m, m.Keys, |g|, |g[0]|)
    ensures q in Antinodes1(g)
  {
    var c :| c in m && q in GroupNodes(One, m[c], |g|, |g[0]|);
    var ps := m[c];
    PairsMeans(One, ps, |ps|, |g|, |g[0]|, q);
    var i, k :| 0 <= i < |ps| && i < k < |ps| && q in Contribution(One, ps[i], ps[k], |g|, |g[0]|);
    ContributionMeans(One, ps[i], ps[k], |g|, |g[0]|);
    PairFromGroup(g, c, i, k);
    PairFromGroup(g, c, k, i);
    AntennaCell(g, ps[i]);
    AntennaCell(g, ps[k]);
  }

  lemma Collect1Complete(g: Grid, m: map<char, seq<Pos>>, a: Pos, b: Pos)
    requires |g| >= 1 && Indexed(g, m) && SameFrequency(g, a, b) && Valid(Reflect(a, b), |g|, |g[0]|)
    ensures Reflect(a, b) in Collect(One, m, m.Keys, |g|, |g[0]|)
  {
    var c := At(g, a);
    var i, k := GroupFromPair(g, a, b);
    var ps := m[c];
    var q := Reflect(a, b);
    if i < k {
      ContributionMeans(One, ps[i], ps[k], |g|, |g[0]|);
      assert q in Contribution(One, ps[i], ps[k], |g|, |g[0]|);
    } else {
      ContributionMeans(One, ps[k], ps[i], |g|, |g[0]|);
      assert q in Contribution(One, ps[k], ps[i], |g|, |g[0]|);
    }
    PairsMeans(One, ps, |ps|, |g|, |g[0]|, q);
    assert q in GroupNodes(One, ps, |g|, |g[0]|);
  }

  /** The groups' part 1 antinodes are exactly the reflections of same-frequency pairs. */
  lemma Collect1(g: Grid, m: map<char, seq<Pos>>)
    requires |g| >= 1 && Indexed(g, m)
    ensures Collect(One, m, m.Keys, |g|, |g[0]|) == Antinodes1(g)
  {
    forall q | q in Collect(One, m, m.Keys, |g|, |g[0]|)
      ensures q in Antinodes1(g)
    {
      Collect1Sound(g, m, q);
    }
    forall q | q in Antinodes1(g)
      ensures q in Collect(One, m, m.Keys, |g|, |g[0]|)
    {
      var a, b :| a in AntennaCells(g) && b in AntennaCells(g) && SameFrequency(g, a, b) && Valid(Reflect(a, b), |g|, |g[0]|) && q == Reflect(a, b);
      Collect1Complete(g, m, a, b);
    }
  }

  lemma Collect2Sound(g: Grid, m: map<char, seq<Pos>>, q: Pos)
    requires |g| >= 1 && Indexed(g, m) && q in Collect(Two, m, m.Keys, |g|, |g[0]|)
    ensures q in Antinodes2(g)
  {
    var c :| c in m && q in GroupNodes(Two, m[c], |g|, |g[0]|);
    var ps := m[c];
    if |ps| > 1 && q in Members(ps, |ps|) {
      var k :| 0 <= k < |ps| && ps[k] == q;
      var other := if k == 0 then 1 else 0;
      PairFromGroup(g, c, k, other);
      AntennaCell(g, ps[k]);
      AntennaCell(g, ps[other]);
    } else {
      PairsMeans(Two, ps, |ps|, |g|, |g[0]|, q);
      var i, k :| 0 <= i < |ps| && i < k < |ps| && q in Contribution(Two, ps[i], ps[k], |g|, |g[0]|);
      ContributionMeans(Two, ps[i], ps[k], |g|, |g[0]|);
      PairFromGroup(g, c, i, k);
      AntennaCell(g, ps[i]);
      AntennaCell(g, ps[k]);
      assert q == Pos(q.x, q.y);
      assert q in LinePoints(g);
    }
  }

  lemma Collect2Antenna(g: Grid, m: map<char, seq<Pos>>, a: Pos, b: Pos)
    requires |g| >= 1 && Indexed(g, m) && SameFrequency(g, a, b)
    ensures a in Collect(Two, m, m.Keys, |g|, |g[0]|)
  {
    var c := At(g, a);
    var i, k := GroupFromPair(g, a, b);
    var ps := m[c];
    assert a in Members(ps, |ps|);
    assert a in GroupNodes(Two, ps, |g|, |g[0]|);
  }

  lemma Collect2Line(g: Grid, m: map<char, seq<Pos>>, a: Pos, b: Pos, p: Pos)
    requires |g| >= 1 && Indexed(g, m) && SameFrequency(g, a, b) && p in Box(|g|, |g[0]|) && Collinear(a, b, p)
    ensures p in Collect(Two, m, m.Keys, |g|, |g[0]|)
  {
    var c := At(g, a);
    var i, k := GroupFromPair(g, a, b);
    var ps := m[c];
    if i < k {
      ContributionMeans(Two, ps[i], ps[k], |g|, |g[0]|);
      assert p in Contribution(Two, ps[i], ps[k], |g|, |g[0]|);
    } else {
      CollinearSwap(a, b, p);
      ContributionMeans(Two, ps[k], ps[i], |g|, |g[0]|);
      assert p in Contribution(Two, ps[k], ps[i], |g|, |g[0]|);
    }
    PairsMeans(Two, ps, |ps|, |g|, |g[0]|, p);
    assert p in GroupNodes(Two, ps, |g|, |g[0]|);
  }

  /** The groups' part 2 antinodes are exactly the partnered antennas and the points on pair lines. */
  lemma Collect2(g: Grid, m: map<char, seq<Pos>>)
    requires |g| >= 1 && Indexed(g, m)
    ensures Collect(Two, m, m.Keys, |g|, |g[0]|) == Antinodes2(g)
  {
    forall q | q in Collect(Two, m, m.Keys, |g|, |g[0]|)
      ensures q in Antinodes2(g)
    {
      Collect2Sound(g, m, q);
    }
    forall q | q in Antinodes2(g)
      ensures q in Collect(Two, m, m.Keys, |g|, |g[0]|)
    {
      if q in LinePoints(g) {
        var a, b, p :| a in AntennaCells(g) && b in AntennaCells(g) && p in Box(|g|, |g[0]|) && SameFrequency(g, a, b) && Collinear(a, b, p) && q == p;
        Collect2Line(g, m, a, b, p);
      } else {
        var a, b :| a in AntennaCells(g) && b in AntennaCells(g) && SameFrequency(g, a, b) && q == a;
        Collect2Antenna(g, m, a, b);
      }
    }
  }

  // ---------------------------------------------------------------------
  // Sizes and relations

  function BoxRow(x: int, cols: nat): set<Pos>
  {
    set y | 0 <= y < cols :: Pos(x, y)
  }

  lemma {:induction false} BoxRowSize(x: int, cols: nat)
    ensures |BoxRow(x, cols)| == cols
  {
    if cols > 0 {
      BoxRowSize(x, cols - 1);
      assert BoxRow(x, cols) == BoxRow(x, cols - 1) + {Pos(x, cols - 1)};
    }
  }

  lemma MulStep(r: nat, c: nat)
    ensures r * c + c == (r + 1) * c
  {
  }

  /** The grid box holds `rows * cols` points. */
  lemma {:induction false} BoxSize(rows: nat, cols: nat)
    ensures |Box(rows, cols)| == rows * cols
  {
    if rows > 0 {
      var top, last := Box(rows - 1, cols), BoxRow(rows - 1, cols);
      BoxSize(rows - 1, cols);
      BoxRowSize(rows - 1, cols);
      forall p | p in Box(rows, cols)
        ensures p in top + last
      {
        if p.x < rows - 1 {
          assert p in top;
        } else {
          assert p in last;
        }
      }
      assert Box(rows, cols) == top + last;
      assert top * last == {};
      MulStep(rows - 1, cols);
    }
  }

  lemma SubsetSize(a: set<Pos>, b: set<Pos>)
    requires a <= b
    ensures |a| <= |b|
  {
    assert b == a + (b - a);
    assert a * (b - a) == {};
  }

  /** Part 1 can find at most one antinode per grid point. */
  lemma Antinodes1Bound(g: Grid)
    requires |g| >= 1
    ensures Antinodes1(g) <= Box(|g|, |g[0]|) && |Antinodes1(g)| <= |g| * |g[0]|
  {
    forall q | q in Antinodes1(g)
      ensures q in Box(|g|, |g[0]|)
    {
      assert q == Pos(q.x, q.y);
    }
    BoxSize(|g|, |g[0]|);
    SubsetSize(Antinodes1(g), Box(|g|, |g[0]|));
  }

  /** Every part 1 antinode lies on its pair's line and so is a part 2 antinode too. */
  lemma Part1WithinPart2(g: Grid)
    requires |g| >= 1
    ensures Antinodes1(g) <= Antinodes2(g)
  {
    forall q | q in Antinodes1(g)
      ensures q in LinePoints(g)
    {
      var a, b :| a in AntennaCells(g) && b in AntennaCells(g) && SameFrequency(g, a, b) && Valid(Reflect(a, b), |g|, |g[0]|) && q == Reflect(a, b);
      ReflectCollinear(a, b);
      assert q == Pos(q.x, q.y);
      assert q in Box(|g|, |g[0]|);
    }
  }

  /**
   * On a rectangular grid every partnered antenna lies on its own pair's
   * line inside the box, so part 2 counts just the points on pair lines.
   */
  lemma RectangularLines(g: Grid)
    requires |g| >= 1 && forall i :: 0 <= i < |g| ==> |g[i]| == |g[0]|
    ensures Antinodes2(g) == LinePoints(g)
  {
    forall a, b | a in AntennaCells(g) && b in AntennaCells(g) && SameFrequency(g, a, b)
      ensures a in LinePoints(g)
    {
      CollinearEnds(a, b);
      assert a == Pos(a.x, a.y);
      assert a in Box(|g|, |g[0]|);
    }
  }

  // ---------------------------------------------------------------------
  // The two parts

  /** `Day8Part1`: the number of distinct in-grid reflections of same-frequency pairs. */
  method Day8Part1(g: Grid) returns (count: int)
    requires |g| >= 1
    ensures count == |Antinodes1(g)| && count <= |g| * |g[0]|
  {
    var m := GetAntennas(g);
    var s := AllGroups(One, m, |g|, |g[0]|);
    Collect1(g, m);
    Antinodes1Bound(g);
    count := |s|;
  }

  /** `calculateAntinodesPartTwo`: the number of distinct part 2 antinodes. */
  method CalculateAntinodesPartTwo(g: Grid) returns (count: int)
    requires |g| >= 1
    ensures count == |Antinodes2(g)|
  {
    var m := GetAntennas(g);
    var s := AllGroups(Two, m, |g|, |g[0]|);
    Collect2(g, m);
    count := |s|;
  }
}
