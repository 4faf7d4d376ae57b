/**
 * Ceres Search (2024, day 4): a word search.  Part 1 counts the readings of
 * `XMAS` in a grid of letters, along any of the eight directions from any
 * cell; part 2 counts the `A`s at the centre of two crossing `MAS`es.
 */
module CeresSearch {

  import opened Common

  type Grid = seq<seq<char>>

  /** Every row has the length of the first: the searches bound columns by the row they start from. */
  predicate Rectangular(g: Grid)
  {
    forall r :: 0 <= r < |g| ==> |g[r]| == |g[0]|
  }

  /** Every row is at least `cols` long. */
  predicate Fits(g: Grid, cols: int)
  {
    forall r :: 0 <= r < |g| ==> cols <= |g[r]|
  }

  /** No cell holds the character that ends the word's literal. */
  predicate NoNul(g: Grid)
  {
    forall r, c :: 0 <= r < |g| && 0 <= c < |g[r]| ==> g[r][c] != '\0'
  }

  /**
   * Letter `k` of the word as `string_view::operator[]` reads it from the
   * literal `"XMAS"`: one past the end lies the terminating `'\0'`.
   */
  function Letter(w: string, k: nat): char
  {
    if k < |w| then w[k] else '\0'
  }

  /** `IsValueInRange`: the half-open range `[lo, hi)`. */
  predicate InRange(v: int, lo: int, hi: int)
  {
    lo <= v < hi
  }

  // ---------------------------------------------------------------------
  // One direction

  /**
   * The word `w` is read from `(i, j)` stepping by `(dx, dy)`, every letter
   * inside the grid, with columns bounded by `cols`.
   */
  predicate Occurs(g: Grid, cols: int, w: string, i: int, j: int, dx: int, dy: int)
    requires Fits(g, cols)
    decreases |w|
  {
    |w| == 0 || (InRange(i, 0, |g|) && InRange(j, 0, cols) && g[i][j] == w[0] && Occurs(g, cols, w[1..], i + dx, j + dy, dx, dy))
  }

  /** Letter `m` of the word lies in the grid at `(i + m dx, j + m dy)`. */
  predicate LetterAt(g: Grid, cols: int, w: string, i: int, j: int, dx: int, dy: int, m: nat)
    requires Fits(g, cols) && m < |w|
  {
    InRange(i + m * dx, 0, |g|) && InRange(j + m * dy, 0, cols) && g[i + m * dx][j + m * dy] == w[m]
  }

  /** Read letter by letter: letter `m` of the word is at `(i + m dx, j + m dy)`. */
  lemma {:induction false} OccursMeans(g: Grid, cols: int, w: string, i: int, j: int, dx: int, dy: int)
    requires Fits(g, cols)
    ensures Occurs(g, cols, w, i, j, dx, dy) <==> forall m: nat :: m < |w| ==> LetterAt(g, cols, w, i, j, dx, dy, m)
    decreases |w|
  {
    if |w| > 0 {
      var i', j', w' := i + dx, j + dy, w[1..];
      OccursMeans(g, cols, w', i', j', dx, dy);
      forall m: nat | 1 <= m < |w|
        ensures LetterAt(g, cols, w, i, j, dx, dy, m) == LetterAt(g, cols, w', i', j', dx, dy, m - 1)
      {
        assert m * dx == dx + (m - 1) * dx && m * dy == dy + (m - 1) * dy;
        assert w[m] == w'[m - 1];
      }
      assert LetterAt(g, cols, w, i, j, dx, dy, 0) <==> InRange(i, 0, |g|) && InRange(j, 0, cols) && g[i][j] == w[0];
      if forall m: nat :: m < |w| ==> LetterAt(g, cols, w, i, j, dx, dy, m) {
        assert forall m: nat :: m < |w'| ==> LetterAt(g, cols, w', i', j', dx, dy, m) by {
          forall m: nat | m < |w'|
            ensures LetterAt(g, cols, w', i', j', dx, dy, m)
          {
            assert LetterAt(g, cols, w, i, j, dx, dy, m + 1);
          }
        }
      }
    }
  }

  /**
   * `ContainsInUniDirection`: walks from `(ii, jj)` while the cell is in the
   * grid and holds the next letter; the word is found when the walk got past
   * its last letter.  Columns are bounded by the width of row `ii`.
   */
  method ContainsInUniDirection(g: Grid, ii: int, jj: int, w: string, dx: int, dy: int) returns (found: bool)
    requires 0 <= ii < |g| && Fits(g, |g[ii]|) && NoNul(g)
    ensures found == Occurs(g, |g[ii]|, w, ii, jj, dx, dy)
  {
    var cols := |g[ii]|;
    var row, col, t := ii, jj, 0;
    while InRange(row, 0, |g|) && InRange(col, 0, cols) && g[row][col] == Letter(w, t)
      invariant 0 <= t <= |w|
      invariant Occurs(g, cols, w, ii, jj, dx, dy) == Occurs(g, cols, w[t..], row, col, dx, dy)
      decreases |w| - t
    {
      assert t < |w|;
      assert w[t..][1..] == w[t + 1..];
      row, col, t := row + dx, col + dy, t + 1;
    }
    found := t == |w|;
  }

  // ---------------------------------------------------------------------
  // Part 1

  /** The eight directions, in the order the program tries them. */
  const Offsets: seq<(int, int)> := [(-1, -1), (-1, 0), (-1, 1), (0, -1), (0, 1), (1, -1), (1, 0), (1, 1)]

  /** From cell `(i, j)`, whose letter is the first of `w`, the word is read along direction `k`. */
  predicate Hit(g: Grid, w: string, i: int, j: int, k: int)
    requires Rectangular(g) && 0 <= i < |g| && 0 <= j < |g[i]| && 0 <= k < 8
  {
    g[i][j] == Letter(w, 0) && Occurs(g, |g[i]|, w, i, j, Offsets[k].0, Offsets[k].1)
  }

  /** The directions from cell `(i, j)` along which the word is read. */
  function CellHits(g: Grid, w: string, i: int, j: int, kk: int): set<int>
    requires Rectangular(g) && 0 <= i < |g| && 0 <= j < |g[i]|
  {
    set k | 0 <= k < kk && k < 8 && Hit(g, w, i, j, k)
  }

  /** The cells and directions of row `i`, before column `jj`, along which the word is read. */
  function RowHits(g: Grid, w: string, i: int, jj: int): set<(int, int)>
    requires Rectangular(g) && 0 <= i < |g|
  {
    set j, k | 0 <= j < jj && j < |g[i]| && 0 <= k < 8 && Hit(g, w, i, j, k) :: (j, k)
  }

  /** The rows, cells and directions of the first `ii` rows along which the word is read. */
  function GridHits(g: Grid, w: string, ii: int): set<(int, (int, int))>
    requires Rectangular(g)
  {
    set i, j, k | 0 <= i < ii && i < |g| && 0 <= j < |g[i]| && 0 <= k < 8 && Hit(g, w, i, j, k) :: (i, (j, k))
  }

  /** One more direction of cell `(i, j)` tried. */
  lemma CellHitsStep(g: Grid, w: string, i: int, j: int, kk: int)
    requires Rectangular(g) && 0 <= i < |g| && 0 <= j < |g[i]| && 0 <= kk < 8
    ensures CellHits(g, w, i, j, kk + 1) == CellHits(g, w, i, j, kk) + (if Hit(g, w, i, j, kk) then {kk} else {})
    ensures kk !in CellHits(g, w, i, j, kk)
  {
  }

  /** One more cell of row `i` searched. */
  lemma RowHitsStep(g: Grid, w: string, i: int, jj: int)
    requires Rectangular(g) && 0 <= i < |g| && 0 <= jj < |g[i]|
    ensures RowHits(g, w, i, jj + 1) == RowHits(g, w, i, jj) + Tag(jj, CellHits(g, w, i, jj, 8))
    ensures forall p :: p in RowHits(g, w, i, jj) ==> p.0 != jj
  {
  }

  /** One more row searched. */
  lemma GridHitsStep(g: Grid, w: string, ii: int)
    requires Rectangular(g) && 0 <= ii < |g|
    ensures GridHits(g, w, ii + 1) == GridHits(g, w, ii) + Tag(ii, RowHits(g, w, ii, |g[ii]|))
    ensures forall p :: p in GridHits(g, w, ii) ==> p.0 != ii
  {
  }

  /** The directions tried from one cell whose letter is the word's first. */
  method CellCount(g: Grid, w: string, ii: int, jj: int) returns (count: nat)
    requires Rectangular(g) && NoNul(g) && 0 <= ii < |g| && 0 <= jj < |g[ii]|
    ensures count == |CellHits(g, w, ii, jj, 8)|
  {
    count := 0;
    if g[ii][jj] == Letter(w, 0) {
      var k := 0;
      while k < 8
        invariant 0 <= k <= 8
        invariant count == |CellHits(g, w, ii, jj, k)|
      {
        CellHitsStep(g, w, ii, jj, k);
        var found := ContainsInUniDirection(g, ii, jj, w, Offsets[k].0, Offsets[k].1);
        if found {
          count := count + 1;
        }
        k := k + 1;
      }
    } else {
      assert CellHits(g, w, ii, jj, 8) == {};
    }
  }

  /** The cells of one row. */
  method RowCount(g: Grid, w: string, ii: int) returns (count: nat)
    requires Rectangular(g) && NoNul(g) && 0 <= ii < |g|
    ensures count == |RowHits(g, w, ii, |g[ii]|)|
  {
    count := 0;
    var jj := 0;
    while jj < |g[ii]|
      invariant 0 <= jj <= |g[ii]|
      invariant count == |RowHits(g, w, ii, jj)|
    {
      RowHitsStep(g, w, ii, jj);
      AddDisjoint(RowHits(g, w, ii, jj), jj, CellHits(g, w, ii, jj, 8));
      var c := CellCount(g, w, ii, jj);
      count := count + c;
      jj := jj + 1;
    }
  }

  /**
   * `Day4Part1`: the number of pairs of a cell and a direction along which
   * the word is read from that cell.
   */
  method Day4Part1(g: Grid, w: string) returns (count: nat)
    requires Rectangular(g) && NoNul(g)
    ensures count == |GridHits(g, w, |g|)|
  {
    count := 0;
    var ii := 0;
    while ii < |g|
      invariant 0 <= ii <= |g|
      invariant count == |GridHits(g, w, ii)|
    {
      GridHitsStep(g, w, ii);
      AddDisjoint(GridHits(g, w, ii), ii, RowHits(g, w, ii, |g[ii]|));
      var c := RowCount(g, w, ii);
      count := count + c;
      ii := ii + 1;
    }
  }

  // ---------------------------------------------------------------------
  // Part 2

  /** `AreNeighbouringIndicesValid`: the four diagonal neighbours lie in the grid. */
  predicate NeighboursValid(g: Grid, i: int, j: int)
    requires 0 <= i < |g|
  {
    InRange(i - 1, 0, |g|) && InRange(j - 1, 0, |g[i]|) && InRange(i + 1, 0, |g|) && InRange(j + 1, 0, |g[i]|)
  }

  /** The ends of a diagonal are an `M` and an `S`, in either order. */
  predicate MS(a: char, b: char)
  {
    (a == 'S' && b == 'M') || (a == 'M' && b == 'S')
  }

  /** `AreDiagonalElementsMatching`: both diagonals through `(i, j)` are `M`-`S` pairs. */
  predicate DiagonalsMatch(g: Grid, i: int, j: int)
    requires Rectangular(g) && 0 <= i < |g| && NeighboursValid(g, i, j)
  {
    MS(g[i - 1][j - 1], g[i + 1][j + 1]) && MS(g[i - 1][j + 1], g[i + 1][j - 1])
  }

  /** `(i, j)` is the centre of an X of two `MAS`es. */
  predicate XMas(g: Grid, i: int, j: int)
    requires Rectangular(g) && 0 <= i < |g| && 0 <= j < |g[i]|
  {
    g[i][j] == 'A' && NeighboursValid(g, i, j) && DiagonalsMatch(g, i, j)
  }

  /** A cell on the border of the grid is never a centre. */
  lemma BorderNeverCounts(g: Grid, i: int, j: int)
    requires Rectangular(g) && 0 <= i < |g| && 0 <= j < |g[i]|
    requires i == 0 || i == |g| - 1 || j == 0 || j == |g[i]| - 1
    ensures !XMas(g, i, j)
  {
  }

  const Mas: string := ['M', 'A', 'S']

  /**
   * A centre is exactly an `A` where `MAS` is read along both diagonals
   * through it, each in one of its two senses: part 2 in terms of part 1's
   * readings.
   */
  lemma XMasReadsMas(g: Grid, i: int, j: int)
    requires Rectangular(g) && 0 <= i < |g| && 0 <= j < |g[i]|
    ensures XMas(g, i, j) <==> (g[i][j] == 'A'
      && (Occurs(g, |g[i]|, Mas, i - 1, j - 1, 1, 1) || Occurs(g, |g[i]|, Mas, i + 1, j + 1, -1, -1))
      && (Occurs(g, |g[i]|, Mas, i - 1, j + 1, 1, -1) || Occurs(g, |g[i]|, Mas, i + 1, j - 1, -1, 1)))
  {
    var cols := |g[i]|;
    OccursMeans(g, cols, Mas, i - 1, j - 1, 1, 1);
    OccursMeans(g, cols, Mas, i + 1, j + 1, -1, -1);
    OccursMeans(g, cols, Mas, i - 1, j + 1, 1, -1);
    OccursMeans(g, cols, Mas, i + 1, j - 1, -1, 1);
  }

  /** The centres in row `i` before column `jj`. */
  function RowCentres(g: Grid, i: int, jj: int): set<int>
    requires Rectangular(g) && 0 <= i < |g|
  {
    set j | 0 <= j < jj && j < |g[i]| && XMas(g, i, j)
  }

  /** The centres in the first `ii` rows. */
  function Centres(g: Grid, ii: int): set<(int, int)>
    requires Rectangular(g)
  {
    set i, j | 0 <= i < ii && i < |g| && 0 <= j < |g[i]| && XMas(g, i, j) :: (i, j)
  }

  lemma RowCentresStep(g: Grid, i: int, jj: int)
    requires Rectangular(g) && 0 <= i < |g| && 0 <= jj < |g[i]|
    ensures RowCentres(g, i, jj + 1) == RowCentres(g, i, jj) + (if XMas(g, i, jj) then {jj} else {})
    ensures jj !in RowCentres(g, i, jj)
  {
  }

  lemma CentresStep(g: Grid, ii: int)
    requires Rectangular(g) && 0 <= ii < |g|
    ensures Centres(g, ii + 1) == Centres(g, ii) + Tag(ii, RowCentres(g, ii, |g[ii]|))
    ensures forall p :: p in Centres(g, ii) ==> p.0 != ii
  {
  }

  /** The centres of one row. */
  method RowCentreCount(g: Grid, ii: int) returns (count: nat)
    requires Rectangular(g) && 0 <= ii < |g|
    ensures count == |RowCentres(g, ii, |g[ii]|)|
  {
    count := 0;
    var jj := 0;
    while jj < |g[ii]|
      invariant 0 <= jj <= |g[ii]|
      invariant count == |RowCentres(g, ii, jj)|
    {
      RowCentresStep(g, ii, jj);
      if g[ii][jj] == 'A' && NeighboursValid(g, ii, jj) && DiagonalsMatch(g, ii, jj) {
        count := count + 1;
      }
      jj := jj + 1;
    }
  }

  /** `Day4Part2`: the number of centres of an X of two `MAS`es. */
  method Day4Part2(g: Grid) returns (count: nat)
    requires Rectangular(g)
    ensures count == |Centres(g, |g|)|
  {
    count := 0;
    var ii := 0;
    while ii < |g|
      invariant 0 <= ii <= |g|
      invariant count == |Centres(g, ii)|
    {
      CentresStep(g, ii);
      AddDisjoint(Centres(g, ii), ii, RowCentres(g, ii, |g[ii]|));
      var c := RowCentreCount(g, ii);
      count := count + c;
      ii := ii + 1;
    }
  }
}
