/**
 * Chiton (2021 day 15): a cave of risk levels, one digit per cell, read
 * as a `Grid`, or as a `ScaledRepeatedGrid` that repeats it five times in
 * each direction with the risk raised by the distance in tiles.  This
 * module holds the two grids and the paths through them; the search for
 * the lowest total risk is in `ChitonSearch`.
 */
module Chiton {

  import opened Common
  import opened Decimal

  /** `IsValInRange`: the half-open test `min <= value < max`. */
  predicate IsValInRange(value: int, min: int, max: int)
  {
    value >= min && value < max
  }

  // ---------------------------------------------------------------------
  // The grid as read

  /** `Grid`: the rows of risk levels, as `ReadInput` pushes them. */
  datatype Grid = Grid(data: seq<seq<int>>)

  /** `Grid::RowCount`. */
  function GridRows(g: Grid): nat
  {
    |g.data|
  }

  /** `Grid::ColumnCount`: the length of the first row, 0 for an empty grid. */
  function GridColumns(g: Grid): nat
  {
    if |g.data| == 0 then 0 else |g.data[0]|
  }

  /** `Grid::operator()`: `data.at(i).at(j)`; `None` where `at` throws. */
  function Cell(g: Grid, i: int, j: int): (r: Option<int>)
    ensures r.Some? <==> 0 <= i < |g.data| && 0 <= j < |g.data[i]|
  {
    if 0 <= i < |g.data| && 0 <= j < |g.data[i]| then Some(g.data[i][j]) else None
  }

  /** Every row is as long as the first. */
  predicate Rectangular(g: Grid)
  {
    forall i :: 0 <= i < |g.data| ==> |g.data[i]| == GridColumns(g)
  }

  /** `ReadInput`: one row per word of the file, each character less `'0'`. */
  function ReadInput(words: seq<string>): (g: Grid)
    ensures GridRows(g) == |words|
  {
    Grid(seq(|words|, k requires 0 <= k < |words| =>
      seq(|words[k]|, m requires 0 <= m < |words[k]| => words[k][m] as int - '0' as int)))
  }

  /** Words of digits are read as their digit values, and words of one length give a rectangular grid. */
  lemma ReadDigits(words: seq<string>)
    requires forall k :: 0 <= k < |words| ==> AllDigits(words[k])
    ensures forall i, j :: 0 <= i < |words| && 0 <= j < |words[i]| ==> IsDigit(words[i][j]) && Cell(ReadInput(words), i, j) == Some(DigitValue(words[i][j]) as int)
    ensures (forall k :: 0 <= k < |words| ==> |words[k]| == |words[0]|) ==> Rectangular(ReadInput(words))
  {
    var g := ReadInput(words);
    forall i, j | 0 <= i < |words| && 0 <= j < |words[i]|
      ensures IsDigit(words[i][j]) && Cell(g, i, j) == Some(DigitValue(words[i][j]) as int)
    {
      assert AllDigits(words[i]);
    }
  }

  // ---------------------------------------------------------------------
  // The two kinds of grid `MinimumCostPath` is instantiated with

  /** The grid a search runs on: the grid as read, or `ScaledRepeatedGrid` over it. */
  datatype Field = Plain(grid: Grid) | Scaled(tile: Grid, factor: nat)

  /** `RowCount()` of either grid; the scaled one multiplies by the factor. */
  function RowCount(f: Field): nat
  {
    match f
    case Plain(g) => GridRows(g)
    case Scaled(g, k) => GridRows(g) * k
  }

  /** `ColumnCount()` of either grid; the scaled one is 0 when its tile has no rows. */
  function ColumnCount(f: Field): nat
  {
    match f
    case Plain(g) => GridColumns(g)
    case Scaled(g, k) => if GridRows(g) == 0 then 0 else GridColumns(g) * k
  }

  /**
   * The `> 9` test of `ScaledRepeatedGrid::operator()`.  The sum is a
   * `size_t`, so a negative one wraps round to a huge value and is
   * lowered by 9 as well.
   */
  function Wrap(s: int): int
  {
    if s > 9 || s < 0 then s - 9 else s
  }

  /**
   * `operator()` of either grid; `None` where it throws.  The scaled grid
   * throws outside its scaled size and otherwise reads `TileAt`.
   */
  function At(f: Field, i: nat, j: nat): (r: Option<int>)
    ensures f.Scaled? && r.Some? ==> i < RowCount(f) && j < ColumnCount(f)
  {
    match f
    case Plain(g) => Cell(g, i, j)
    case Scaled(g, k) =>
      if i >= RowCount(f) || j >= ColumnCount(f) then None
      else
        assert GridRows(g) > 0 && GridColumns(g) > 0;
        TileAt(g, i, j)
  }

  /** The tile cell an index of the scaled grid falls on, raised by the tile's row and column. */
  function TileAt(g: Grid, i: nat, j: nat): Option<int>
    requires GridRows(g) > 0 && GridColumns(g) > 0
  {
    match Cell(g, Rem(i, GridRows(g)), Rem(j, GridColumns(g)))
    case None => None
    case Some(v) => Some(Wrap(v + Quot(i, GridRows(g)) + Quot(j, GridColumns(g))))
  }

  /** The tile an index falls in, counting tiles of size `n`. */
  function Quot(i: nat, n: nat): nat
    requires n > 0
  {
    i / n
  }

  /** The index within its tile, for tiles of size `n`. */
  function Rem(i: nat, n: nat): (r: nat)
    requires n > 0
    ensures r < n
  {
    i % n
  }

  /** Below `k` tiles of size `n` the tile number is below `k`. */
  lemma QuotBelow(i: nat, n: nat, k: nat)
    requires n > 0 && i < n * k
    ensures Quot(i, n) < k
  {
    DivBelow(i, n, k);
  }

  /** Inside the first tile an index is its own position in the tile. */
  lemma QuotFirst(i: nat, n: nat)
    requires i < n
    ensures Quot(i, n) == 0 && Rem(i, n) == i
  {
    ModUnique(i, n, 0, i);
  }

  /** The grid's cells hold risk levels `lo` to `hi`. */
  predicate LevelsIn(g: Grid, lo: int, hi: int)
  {
    forall i, j :: 0 <= i < |g.data| && 0 <= j < |g.data[i]| ==> lo <= g.data[i][j] <= hi
  }

  /** Every cell of the field that can be read holds a risk of at least 0. */
  predicate NonNegative(f: Field)
  {
    forall i: nat, j: nat :: i < RowCount(f) && j < ColumnCount(f) && At(f, i, j).Some? ==> At(f, i, j).value >= 0
  }

  /** Every cell of the field can be read. */
  predicate Complete(f: Field)
  {
    forall i: nat, j: nat :: i < RowCount(f) && j < ColumnCount(f) ==> At(f, i, j).Some?
  }

  /**
   * The puzzle's rule for the enlarged map: the tile's risk raised by the
   * tile's row and column, where risks above 9 wrap round to 1.
   */
  function WrappedRisk(v: int, shift: nat): int
  {
    (v + shift - 1) % 9 + 1
  }

  /** Lowering by 9 once is the puzzle's wrap-round for sums up to 17. */
  lemma WrapRule(v: int, shift: nat)
    requires 1 <= v <= 9 && shift <= 8
    ensures Wrap(v + shift) == WrappedRisk(v, shift) && 1 <= Wrap(v + shift) <= 9
  {
    var s := v + shift;
    if s > 9 {
      ModUnique(s - 1, 9, 1, s - 10);
    } else {
      ModUnique(s - 1, 9, 0, s - 1);
    }
  }

  /** The tile row and column of a cell inside a grid scaled by `k` are below `k`. */
  lemma TileBelow(g: Grid, k: nat, i: nat, j: nat)
    requires i < RowCount(Scaled(g, k)) && j < ColumnCount(Scaled(g, k))
    ensures GridRows(g) > 0 && GridColumns(g) > 0
    ensures Quot(i, GridRows(g)) < k && Quot(j, GridColumns(g)) < k
  {
    QuotBelow(i, GridRows(g), k);
    QuotBelow(j, GridColumns(g), k);
  }

  /** For tiles of risks 1 to 9 repeated at most five times, the scaled grid follows the puzzle's rule and stays in 1 to 9. */
  lemma ScaledRule(g: Grid, k: nat, i: nat, j: nat)
    requires LevelsIn(g, 1, 9) && k <= 5
    requires i < RowCount(Scaled(g, k)) && j < ColumnCount(Scaled(g, k))
    requires Cell(g, Rem(i, GridRows(g)), Rem(j, GridColumns(g))).Some?
    ensures At(Scaled(g, k), i, j) == Some(WrappedRisk(Cell(g, Rem(i, GridRows(g)), Rem(j, GridColumns(g))).value, Quot(i, GridRows(g)) + Quot(j, GridColumns(g))))
    ensures 1 <= At(Scaled(g, k), i, j).value <= 9
  {
    TileBelow(g, k, i, j);
    var v := Cell(g, Rem(i, GridRows(g)), Rem(j, GridColumns(g))).value;
    var shift := Quot(i, GridRows(g)) + Quot(j, GridColumns(g));
    assert At(Scaled(g, k), i, j) == Some(Wrap(v + shift));
    WrapRule(v, shift);
  }

  /** Inside the first tile the scaled grid shows the tile itself. */
  lemma ScaledFirstTile(g: Grid, k: nat, i: nat, j: nat)
    requires LevelsIn(g, 0, 9) && k >= 1
    requires i < GridRows(g) && j < GridColumns(g)
    ensures At(Scaled(g, k), i, j) == Cell(g, i, j)
  {
    MulMono(GridRows(g), k, 1);
    MulMono(GridColumns(g), k, 1);
    QuotFirst(i, GridRows(g));
    QuotFirst(j, GridColumns(g));
  }

  /** Past its scaled size the scaled grid throws. */
  lemma ScaledOutside(g: Grid, k: nat, i: nat, j: nat)
    requires i >= GridRows(g) * k || (GridRows(g) > 0 && j >= GridColumns(g) * k)
    ensures At(Scaled(g, k), i, j).None?
  {
  }

  /** A rectangular tile makes every cell of the scaled grid readable. */
  lemma ScaledComplete(g: Grid, k: nat)
    requires Rectangular(g)
    ensures Complete(Scaled(g, k))
  {
    var f := Scaled(g, k);
    forall i: nat, j: nat | i < RowCount(f) && j < ColumnCount(f)
      ensures At(f, i, j).Some?
    {
      TileBelow(g, k, i, j);
      assert |g.data[Rem(i, GridRows(g))]| == GridColumns(g);
    }
  }

  /** A rectangular grid can be read everywhere. */
  lemma PlainComplete(g: Grid)
    requires Rectangular(g)
    ensures Complete(Plain(g))
  {
  }

  /** Tiles without negative risks give grids without negative risks, for any factor. */
  lemma ScaledNonNegative(g: Grid, k: nat)
    requires LevelsIn(g, 0, 9)
    ensures NonNegative(Scaled(g, k)) && NonNegative(Plain(g))
  {
    var f := Scaled(g, k);
    forall i: nat, j: nat | i < RowCount(f) && j < ColumnCount(f) && At(f, i, j).Some?
      ensures At(f, i, j).value >= 0
    {
      TileBelow(g, k, i, j);
      var v := Cell(g, Rem(i, GridRows(g)), Rem(j, GridColumns(g))).value;
      assert At(f, i, j) == Some(Wrap(v + Quot(i, GridRows(g)) + Quot(j, GridColumns(g))));
    }
  }

  /** Tiles of digits repeated at most five times give a scaled grid of digits. */
  lemma ScaledDigits(g: Grid, k: nat, i: nat, j: nat)
    requires LevelsIn(g, 0, 9) && k <= 5
    requires At(Scaled(g, k), i, j).Some?
    ensures 0 <= At(Scaled(g, k), i, j).value <= 9
  {
    TileBelow(g, k, i, j);
    var v := Cell(g, Rem(i, GridRows(g)), Rem(j, GridColumns(g))).value;
    assert At(Scaled(g, k), i, j) == Some(Wrap(v + Quot(i, GridRows(g)) + Quot(j, GridColumns(g))));
  }

  // ---------------------------------------------------------------------
  // Paths

  /** A cell is inside the field. */
  predicate InField(f: Field, v: (int, int))
  {
    0 <= v.0 < RowCount(f) && 0 <= v.1 < ColumnCount(f)
  }

  /** The bottom right cell, where the search stops. */
  function Target(f: Field): (int, int)
  {
    (RowCount(f) - 1, ColumnCount(f) - 1)
  }

  /** Two cells share a side. */
  predicate Adjacent(a: (int, int), b: (int, int))
  {
    (a.0 == b.0 && (a.1 == b.1 + 1 || b.1 == a.1 + 1)) || (a.1 == b.1 && (a.0 == b.0 + 1 || b.0 == a.0 + 1))
  }

  /** The risk of entering a cell; 0 for a cell that cannot be read. */
  function Risk(f: Field, v: (int, int)): int
  {
    if InField(f, v) then match At(f, v.0, v.1) case Some(w) => w case None => 0 else 0
  }

  /** A walk from the top left cell through readable cells, each next to the one before. */
  predicate IsPath(f: Field, p: seq<(int, int)>)
  {
    && |p| > 0 && p[0] == (0, 0)
    && (forall i :: 0 <= i < |p| ==> InField(f, p[i]))
    && (forall i :: 0 < i < |p| ==> At(f, p[i].0, p[i].1).Some?)
    && (forall i :: 0 <= i < |p| - 1 ==> Adjacent(p[i], p[i + 1]))
  }

  /** The total risk of a walk: the cells it enters, not the one it starts on. */
  function PathRisk(f: Field, p: seq<(int, int)>): int
    decreases |p|
  {
    if |p| <= 1 then 0 else PathRisk(f, p[..|p| - 1]) + Risk(f, p[|p| - 1])
  }

  /** Some walk ends at `v` with total risk `c`. */
  ghost predicate Reachable(f: Field, v: (int, int), c: int)
  {
    exists p :: IsPath(f, p) && p[|p| - 1] == v && PathRisk(f, p) == c
  }

  /** `c` is the lowest total risk of a walk to the bottom right cell. */
  ghost predicate LowestRisk(f: Field, c: int)
  {
    && Reachable(f, Target(f), c)
    && forall p :: IsPath(f, p) && p[|p| - 1] == Target(f) ==> c <= PathRisk(f, p)
  }

  /** The start cell is reached at no risk. */
  lemma StartReachable(f: Field)
    requires RowCount(f) > 0 && ColumnCount(f) > 0
    ensures Reachable(f, (0, 0), 0)
  {
    assert IsPath(f, [(0, 0)]) && PathRisk(f, [(0, 0)]) == 0;
  }

  /** A walk extended by a readable neighbour reaches it at that neighbour's extra risk. */
  lemma ExtendReach(f: Field, u: (int, int), c: int, v: (int, int))
    requires Reachable(f, u, c)
    requires InField(f, v) && Adjacent(u, v) && At(f, v.0, v.1).Some?
    ensures Reachable(f, v, c + At(f, v.0, v.1).value)
  {
    hide At, RowCount, ColumnCount;
    var p :| IsPath(f, p) && p[|p| - 1] == u && PathRisk(f, p) == c;
    var q := p + [v];
    assert q[..|q| - 1] == p;
    assert IsPath(f, q);
    assert PathRisk(f, q) == c + At(f, v.0, v.1).value;
  }

  /** A walk has no negative risk on a field without negative risks. */
  lemma {:induction false} PathRiskNonNegative(f: Field, p: seq<(int, int)>)
    requires NonNegative(f)
    ensures PathRisk(f, p) >= 0
    decreases |p|
  {
    hide At, RowCount, ColumnCount;
    if |p| > 1 {
      PathRiskNonNegative(f, p[..|p| - 1]);
    }
  }

  /** On a field without negative risks a walk costs at least as much as any of its prefixes. */
  lemma {:induction false} PathRiskPrefix(f: Field, p: seq<(int, int)>, n: nat)
    requires NonNegative(f) && 1 <= n <= |p|
    ensures PathRisk(f, p[..n]) <= PathRisk(f, p)
    decreases |p|
  {
    hide At, RowCount, ColumnCount;
    if n < |p| {
      var q := p[..|p| - 1];
      PathRiskPrefix(f, q, n);
      assert q[..n] == p[..n];
      assert Risk(f, p[|p| - 1]) >= 0;
    } else {
      assert p[..n] == p;
    }
  }

  /** There is only one lowest total risk. */
  lemma LowestUnique(f: Field, a: int, b: int)
    requires LowestRisk(f, a) && LowestRisk(f, b)
    ensures a == b
  {
    var p :| IsPath(f, p) && p[|p| - 1] == Target(f) && PathRisk(f, p) == a;
    var q :| IsPath(f, q) && q[|q| - 1] == Target(f) && PathRisk(f, q) == b;
  }

  /** On a single cell the start is the bottom right cell and the lowest total risk is 0. */
  lemma SingleCell(f: Field)
    requires RowCount(f) == 1 && ColumnCount(f) == 1 && NonNegative(f)
    ensures LowestRisk(f, 0)
  {
    StartReachable(f);
    forall p | IsPath(f, p) && p[|p| - 1] == Target(f)
      ensures 0 <= PathRisk(f, p)
    {
      PathRiskNonNegative(f, p);
    }
  }

  /** The prefixes of a walk are walks. */
  lemma PathPrefix(f: Field, p: seq<(int, int)>, n: nat)
    requires IsPath(f, p) && 1 <= n <= |p|
    ensures IsPath(f, p[..n])
  {
  }

  /**
   * On a complete field a walk goes down the first column and then right
   * along the last row; its risk is at most `hi` per cell entered.
   */
  lemma StaircasePath(f: Field, hi: int) returns (p: seq<(int, int)>)
    requires Complete(f) && RowCount(f) > 0 && ColumnCount(f) > 0 && hi >= 0
    requires forall i: nat, j: nat :: i < RowCount(f) && j < ColumnCount(f) ==> At(f, i, j).value <= hi
    ensures IsPath(f, p) && p[|p| - 1] == Target(f)
    ensures PathRisk(f, p) <= hi * (RowCount(f) + ColumnCount(f))
  {
    hide At, RowCount, ColumnCount;
    var rows, cols := RowCount(f), ColumnCount(f);
    p := [(0, 0)];
    var n := 0;
    while n < rows - 1
      invariant 0 <= n <= rows - 1
      invariant IsPath(f, p) && p[|p| - 1] == (n, 0)
      invariant PathRisk(f, p) <= hi * n
    {
      p := StepTo(f, p, (n + 1, 0), hi, n);
      n := n + 1;
    }
    var m := 0;
    while m < cols - 1
      invariant 0 <= m <= cols - 1
      invariant IsPath(f, p) && p[|p| - 1] == (rows - 1, m)
      invariant PathRisk(f, p) <= hi * (rows - 1 + m)
    {
      p := StepTo(f, p, (rows - 1, m + 1), hi, rows - 1 + m);
      m := m + 1;
    }
    MulMono(hi, rows + cols, rows - 1 + m);
  }

  /** One more step of at most `hi` risk raises a bound of `hi * n` to `hi * (n + 1)`. */
  lemma StepTo(f: Field, p: seq<(int, int)>, v: (int, int), hi: int, n: int) returns (q: seq<(int, int)>)
    requires IsPath(f, p) && InField(f, v) && Adjacent(p[|p| - 1], v) && At(f, v.0, v.1).Some?
    requires At(f, v.0, v.1).value <= hi && PathRisk(f, p) <= hi * n
    ensures q == p + [v] && IsPath(f, q) && PathRisk(f, q) <= hi * (n + 1)
  {
    hide At, RowCount, ColumnCount;
    q := p + [v];
    assert q[..|q| - 1] == p;
    assert hi * (n + 1) == hi * n + hi;
  }
}
