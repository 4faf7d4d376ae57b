/**
 * Warehouse Woes (2024, day 15): a robot pushes boxes around a walled
 * warehouse following a list of moves.  Part 1 pushes single-cell boxes
 * `O`; part 2 first doubles the warehouse's width, so that boxes become
 * two cells `[]` wide, and pushes those.  Each part sums the GPS
 * coordinates, 100 times the row plus the column, of the boxes' cells
 * (`O`, or the left half `[`).
 *
 * Every read or write the program makes outside the grid, which in C++ is
 * undefined behaviour, makes a move `None` here.  Coordinates are `int`:
 * a `size_t` index that wraps below zero is an index outside the grid in
 * either reading.
 */
module WarehouseWoes {

  import opened Common

  datatype MatrixIndex = MatrixIndex(row: int, col: int)

  type Grid = seq<seq<char>>

  datatype Direction = Up | Down | Left | Right

  /** `IsValidMatrixIndex`: the row exists and the column lies in that row. */
  predicate Valid(g: Grid, p: MatrixIndex)
  {
    0 <= p.row < |g| && 0 <= p.col < |g[p.row]|
  }

  function At(g: Grid, p: MatrixIndex): char
    requires Valid(g, p)
  {
    g[p.row][p.col]
  }

  /** `grid[p.row][p.col] = x`. */
  function Set(g: Grid, p: MatrixIndex, x: char): (h: Grid)
    requires Valid(g, p)
    ensures SameShape(g, h)
  {
    g[p.row := g[p.row][p.col := x]]
  }

  /** The same number of rows, each as long as before. */
  predicate SameShape(g: Grid, h: Grid)
  {
    |g| == |h| && forall r :: 0 <= r < |g| ==> |g[r]| == |h[r]|
  }

  /** The walls stand where they stood. */
  predicate SameWalls(g: Grid, h: Grid)
  {
    && SameShape(g, h)
    && forall r, c :: 0 <= r < |g| && 0 <= c < |g[r]| ==> (g[r][c] == '#' <==> h[r][c] == '#')
  }

  /** The cell next to `p` in direction `d`. */
  function Step(p: MatrixIndex, d: Direction): MatrixIndex
  {
    match d
    case Up => MatrixIndex(p.row - 1, p.col)
    case Down => MatrixIndex(p.row + 1, p.col)
    case Left => MatrixIndex(p.row, p.col - 1)
    case Right => MatrixIndex(p.row, p.col + 1)
  }

  /** The cell `k` steps from `p` in direction `d`. */
  function Ray(p: MatrixIndex, d: Direction, k: int): MatrixIndex
  {
    match d
    case Up => MatrixIndex(p.row - k, p.col)
    case Down => MatrixIndex(p.row + k, p.col)
    case Left => MatrixIndex(p.row, p.col - k)
    case Right => MatrixIndex(p.row, p.col + k)
  }

  /** How many cells remain from `p` to the edge of the grid in direction `d`. */
  function Room(g: Grid, p: MatrixIndex, d: Direction): nat
  {
    if !Valid(g, p) then 0
    else match d
      case Up => p.row + 1
      case Down => |g| - p.row
      case Left => p.col + 1
      case Right => |g[p.row]| - p.col
  }

  // ---------------------------------------------------------------------
  // The robot

  /** The first `@` in row `r` or a later one, or `{size(grid), size(grid)}`. */
  function FindRobotFrom(g: Grid, r: nat): MatrixIndex
    decreases |g| - r
  {
    if r >= |g| then MatrixIndex(|g|, |g|)
    else
      var c := IndexOf(g[r], '@');
      if c < |g[r]| then MatrixIndex(r, c) else FindRobotFrom(g, r + 1)
  }

  lemma {:induction false} FindRobotFromFirst(g: Grid, r: nat)
    ensures var p := FindRobotFrom(g, r);
      && (p.row < |g| ==> Valid(g, p) && r <= p.row && At(g, p) == '@')
      && (p.row >= |g| ==> p == MatrixIndex(|g|, |g|))
      && (forall i, j :: r <= i < |g| && 0 <= j < |g[i]| && (i < p.row || (i == p.row && j < p.col)) ==> g[i][j] != '@')
    decreases |g| - r
  {
    if r < |g| && IndexOf(g[r], '@') == |g[r]| {
      FindRobotFromFirst(g, r + 1);
    }
  }

  /**
   * `FindRobotPosition`: the first `@` in row-major order, or
   * `{size(grid), size(grid)}` when the grid holds none.
   */
  function FindRobotPosition(g: Grid): (p: MatrixIndex)
    ensures p.row < |g| ==> Valid(g, p) && At(g, p) == '@'
    ensures p.row >= |g| ==> p == MatrixIndex(|g|, |g|)
    ensures forall i, j :: 0 <= i < |g| && 0 <= j < |g[i]| && (i < p.row || (i == p.row && j < p.col)) ==> g[i][j] != '@'
  {
    FindRobotFromFirst(g, 0);
    FindRobotFrom(g, 0)
  }

  /** Where the only `@` is, `FindRobotPosition` finds it. */
  lemma FindOnlyRobot(g: Grid, pos: MatrixIndex)
    requires Valid(g, pos)
    requires forall r, c :: 0 <= r < |g| && 0 <= c < |g[r]| ==> (g[r][c] == '@' <==> r == pos.row && c == pos.col)
    ensures FindRobotPosition(g) == pos
  {
    assert g[pos.row][pos.col] == '@';
  }

  // ---------------------------------------------------------------------
  // Counting cells

  /** How many cells of the grid hold `x`. */
  function Tally(g: Grid, x: char): nat
  {
    if |g| == 0 then 0 else Tally(g[..|g| - 1], x) + Count(g[|g| - 1], x)
  }

  lemma {:induction false} TallySet(g: Grid, p: MatrixIndex, y: char, x: char)
    requires Valid(g, p)
    ensures Tally(Set(g, p, y), x) == Tally(g, x) - (if At(g, p) == x then 1 else 0) + (if y == x then 1 else 0)
    decreases |g|
  {
    var n := |g|;
    var h := Set(g, p, y);
    if p.row == n - 1 {
      assert h[..n - 1] == g[..n - 1];
      CountUpdate(g[n - 1], p.col, y, x);
    } else {
      assert h[..n - 1] == Set(g[..n - 1], p, y);
      TallySet(g[..n - 1], p, y, x);
    }
  }

  // ---------------------------------------------------------------------
  // Part 1: boxes one cell wide

  /** What a part 1 cell may hold: a wall, a box, free space or the robot. */
  predicate Tile1(x: char)
  {
    x == '#' || x == 'O' || x == '.' || x == '@'
  }

  /**
   * A part 1 warehouse: every cell a wall, a box, a free cell or the robot,
   * and the robot at `pos` and nowhere else.
   */
  predicate Warehouse1(g: Grid, pos: MatrixIndex)
  {
    && Valid(g, pos)
    && (forall r, c :: 0 <= r < |g| && 0 <= c < |g[r]| ==> Tile1(g[r][c]))
    && (forall r, c :: 0 <= r < |g| && 0 <= c < |g[r]| ==> (g[r][c] == '@' <==> r == pos.row && c == pos.col))
  }

  /**
   * The loop of `Part1::MoveRobot`: from `p` on in direction `d`, the first
   * free cell met before a wall or the edge of the grid.
   */
  function FindFree(g: Grid, p: MatrixIndex, d: Direction): (q: Option<MatrixIndex>)
    ensures q.Some? ==> Valid(g, p) && At(g, p) != '#' && Valid(g, q.value) && At(g, q.value) == '.'
    ensures q.Some? && q.value != p ==> At(g, p) != '.'
    decreases Room(g, p, d)
  {
    if !Valid(g, p) || At(g, p) == '#' then None
    else if At(g, p) == '.' then Some(p)
    else FindFree(g, Step(p, d), d)
  }

  /** `k` steps from `p` is a free cell, and every cell before it is neither wall nor free. */
  predicate FreeAfter(g: Grid, p: MatrixIndex, d: Direction, k: nat)
  {
    && Valid(g, Ray(p, d, k)) && At(g, Ray(p, d, k)) == '.'
    && forall i :: 0 <= i < k ==> Valid(g, Ray(p, d, i)) && At(g, Ray(p, d, i)) != '#' && At(g, Ray(p, d, i)) != '.'
  }

  lemma RayStep(p: MatrixIndex, d: Direction, k: int)
    ensures Ray(Step(p, d), d, k) == Ray(p, d, k + 1)
    ensures Ray(p, d, 0) == p
  {
  }

  /** What the search finds is the first free cell along the ray, `k` steps on. */
  lemma {:induction false} FindFreeSteps(g: Grid, p: MatrixIndex, d: Direction) returns (k: nat)
    requires FindFree(g, p, d).Some?
    ensures FindFree(g, p, d).value == Ray(p, d, k) && FreeAfter(g, p, d, k)
    decreases Room(g, p, d)
  {
    RayStep(p, d, 0);
    if At(g, p) == '.' {
      k := 0;
    } else {
      var s := Step(p, d);
      var k' := FindFreeSteps(g, s, d);
      k := k' + 1;
      RayStep(p, d, k');
      forall i | 0 <= i < k
        ensures Valid(g, Ray(p, d, i)) && At(g, Ray(p, d, i)) != '#' && At(g, Ray(p, d, i)) != '.'
      {
        if i > 0 {
          RayStep(p, d, i - 1);
          assert Ray(p, d, i) == Ray(s, d, i - 1);
        }
      }
    }
  }

  /** The first free cell along the ray is what the search finds. */
  lemma {:induction false} FindFreeReaches(g: Grid, p: MatrixIndex, d: Direction, k: nat)
    requires FreeAfter(g, p, d, k)
    ensures FindFree(g, p, d) == Some(Ray(p, d, k))
    decreases k
  {
    RayStep(p, d, 0);
    if k > 0 {
      assert Valid(g, Ray(p, d, 0)) && At(g, Ray(p, d, 0)) != '#' && At(g, Ray(p, d, 0)) != '.';
      var s := Step(p, d);
      RayStep(p, d, k - 1);
      forall i | 0 <= i < k - 1
        ensures Valid(g, Ray(s, d, i)) && At(g, Ray(s, d, i)) != '#' && At(g, Ray(s, d, i)) != '.'
      {
        RayStep(p, d, i);
      }
      FindFreeReaches(g, s, d, k - 1);
    }
  }

  /** The search finds `q` exactly when `q` is the first free cell along the ray before any wall. */
  lemma FindFreeMeans(g: Grid, p: MatrixIndex, d: Direction, q: MatrixIndex)
    ensures FindFree(g, p, d) == Some(q) <==> exists k: nat :: q == Ray(p, d, k) && FreeAfter(g, p, d, k)
  {
    if FindFree(g, p, d) == Some(q) {
      var k := FindFreeSteps(g, p, d);
    }
    if exists k: nat :: q == Ray(p, d, k) && FreeAfter(g, p, d, k) {
      var k: nat :| q == Ray(p, d, k) && FreeAfter(g, p, d, k);
      FindFreeReaches(g, p, d, k);
    }
  }

  /** `q` lies on the ray from `p` in direction `d`, at `p` or beyond. */
  predicate Ahead(p: MatrixIndex, q: MatrixIndex, d: Direction)
  {
    match d
    case Up => q.col == p.col && q.row <= p.row
    case Down => q.col == p.col && q.row >= p.row
    case Left => q.row == p.row && q.col <= p.col
    case Right => q.row == p.row && q.col >= p.col
  }

  lemma {:induction false} FindFreeAhead(g: Grid, p: MatrixIndex, d: Direction)
    ensures FindFree(g, p, d).Some? ==> Ahead(p, FindFree(g, p, d).value, d)
    decreases Room(g, p, d)
  {
    if Valid(g, p) && At(g, p) != '#' && At(g, p) != '.' {
      FindFreeAhead(g, Step(p, d), d);
    }
  }

  /**
   * `Part1::MoveRobot`: with a free cell ahead, it becomes a box, the cell
   * next to the robot becomes the robot and the robot's cell becomes free;
   * with a wall or the edge first, nothing changes.
   */
  function MoveRobot1(g: Grid, pos: MatrixIndex, d: Direction): Option<(Grid, MatrixIndex)>
  {
    var next := Step(pos, d);
    match FindFree(g, next, d)
    case None => Some((g, pos))
    case Some(q) =>
      if !Valid(g, pos) then None
      else
        var g1 := Set(g, q, 'O');
        var g2 := Set(g1, next, '@');
        Some((Set(g2, pos, '.'), next))
  }

  /** The three writes of a part 1 push, cell by cell. */
  lemma Push1Cells(g: Grid, pos: MatrixIndex, d: Direction, q: MatrixIndex)
    requires Valid(g, pos)
    requires FindFree(g, Step(pos, d), d) == Some(q)
    ensures var next := Step(pos, d);
      var h := Set(Set(Set(g, q, 'O'), next, '@'), pos, '.');
      forall r, c :: 0 <= r < |h| && 0 <= c < |h[r]| ==>
        h[r][c] == (if r == pos.row && c == pos.col then '.'
          else if r == next.row && c == next.col then '@'
          else if r == q.row && c == q.col then 'O'
          else g[r][c])
  {
  }

  /** A part 1 push moves no box in or out of the warehouse. */
  lemma Push1Tally(g: Grid, pos: MatrixIndex, d: Direction, q: MatrixIndex)
    requires Warehouse1(g, pos)
    requires FindFree(g, Step(pos, d), d) == Some(q)
    ensures Tally(Set(Set(Set(g, q, 'O'), Step(pos, d), '@'), pos, '.'), 'O') == Tally(g, 'O')
  {
    var next := Step(pos, d);
    FindFreeAhead(g, next, d);
    assert q != pos && next != pos;
    var g1 := Set(g, q, 'O');
    var g2 := Set(g1, next, '@');
    TallySet(g, q, 'O', 'O');
    TallySet(g1, next, '@', 'O');
    TallySet(g2, pos, '.', 'O');
    assert At(g1, next) == 'O';
  }

  /** A part 1 push keeps the boxes, the walls and the single robot. */
  lemma Push1Keeps(g: Grid, pos: MatrixIndex, d: Direction, q: MatrixIndex)
    requires Warehouse1(g, pos)
    requires FindFree(g, Step(pos, d), d) == Some(q)
    ensures var next := Step(pos, d);
      var h := Set(Set(Set(g, q, 'O'), next, '@'), pos, '.');
      && Warehouse1(h, next)
      && Tally(h, 'O') == Tally(g, 'O')
      && SameWalls(g, h)
  {
    var next := Step(pos, d);
    FindFreeAhead(g, next, d);
    assert q != pos && next != pos;
    Push1Cells(g, pos, d, q);
    Push1Tally(g, pos, d, q);
  }

  /**
   * A part 1 move keeps the warehouse a part 1 warehouse with the same
   * boxes and walls; the robot advances one cell exactly when a free cell
   * lies ahead before any wall, and otherwise nothing changes.
   */
  lemma MoveRobot1Keeps(g: Grid, pos: MatrixIndex, d: Direction)
    requires Warehouse1(g, pos)
    ensures MoveRobot1(g, pos, d).Some?
    ensures var (h, p) := MoveRobot1(g, pos, d).value;
      && Warehouse1(h, p)
      && Tally(h, 'O') == Tally(g, 'O')
      && SameWalls(g, h)
      && (p == Step(pos, d) <==> exists k: nat :: FreeAfter(g, Step(pos, d), d, k))
      && (p != Step(pos, d) ==> p == pos && h == g)
  {
    var next := Step(pos, d);
    match FindFree(g, next, d)
    case None =>
      forall k: nat
        ensures !FreeAfter(g, next, d, k)
      {
        FindFreeMeans(g, next, d, Ray(next, d, k));
      }
      assert SameWalls(g, g);
    case Some(q) =>
      var k := FindFreeSteps(g, next, d);
      Push1Keeps(g, pos, d, q);
  }

  // ---------------------------------------------------------------------
  // GPS coordinates

  /** The GPS coordinates, `100 * r + c`, of the cells of row `r` holding `x`. */
  function RowGps(row: seq<char>, r: int, x: char): int
  {
    if |row| == 0 then 0
    else RowGps(row[..|row| - 1], r, x) + (if row[|row| - 1] == x then 100 * r + |row| - 1 else 0)
  }

  /** The GPS coordinates of all cells holding `x`. */
  function Gps(g: Grid, x: char): int
  {
    if |g| == 0 then 0 else Gps(g[..|g| - 1], x) + RowGps(g[|g| - 1], |g| - 1, x)
  }

  lemma {:induction false} RowGpsUpdate(row: seq<char>, r: int, c: int, y: char, x: char)
    requires 0 <= c < |row|
    ensures RowGps(row[c := y], r, x) == RowGps(row, r, x)
      - (if row[c] == x then 100 * r + c else 0) + (if y == x then 100 * r + c else 0)
    decreases |row|
  {
    var n := |row|;
    if c < n - 1 {
      assert row[c := y][..n - 1] == row[..n - 1][c := y];
      RowGpsUpdate(row[..n - 1], r, c, y, x);
    } else {
      assert row[c := y][..n - 1] == row[..n - 1];
    }
  }

  /** Writing `y` at `p` takes away the coordinate of `p` if it held `x`, and adds it if `y` is `x`. */
  lemma {:induction false} GpsSet(g: Grid, p: MatrixIndex, y: char, x: char)
    requires Valid(g, p)
    ensures Gps(Set(g, p, y), x) == Gps(g, x)
      - (if At(g, p) == x then 100 * p.row + p.col else 0) + (if y == x then 100 * p.row + p.col else 0)
    decreases |g|
  {
    var n := |g|;
    var h := Set(g, p, y);
    if p.row == n - 1 {
      assert h[..n - 1] == g[..n - 1];
      RowGpsUpdate(g[n - 1], n - 1, p.col, y, x);
    } else {
      assert h[..n - 1] == Set(g[..n - 1], p, y);
      GpsSet(g[..n - 1], p, y, x);
    }
  }

  /** `CalculateSumOfGrid`: the row by row, column by column sum of the coordinates of the `x` cells. */
  method CalculateSumOfGrid(g: Grid, x: char) returns (sum: int)
    ensures sum == Gps(g, x)
  {
    sum := 0;
    var row := 0;
    while row < |g|
      invariant 0 <= row <= |g|
      invariant sum == Gps(g[..row], x)
    {
      var col := 0;
      while col < |g[row]|
        invariant 0 <= col <= |g[row]|
        invariant sum == Gps(g[..row], x) + RowGps(g[row][..col], row, x)
      {
        assert g[row][..col + 1][..col] == g[row][..col];
        if x == g[row][col] {
          sum := sum + (row * 100) + col;
        }
        col := col + 1;
      }
      assert g[..row + 1][..row] == g[..row];
      assert g[row][..|g[row]|] == g[row];
      row := row + 1;
    }
    assert g[..|g|] == g;
  }

  // ---------------------------------------------------------------------
  // Part 2: the warehouse twice as wide

  /** The two cells `ScaleGrid` writes for one cell; a character it does not know is dropped. */
  function Widen(x: char): (w: seq<char>)
    ensures Tile1(x) ==> |w| == 2
  {
    if x == '#' then "##"
    else if x == 'O' then "[]"
    else if x == '.' then ".."
    else if x == '@' then "@."
    else []
  }

  function ScaleRow(row: seq<char>): seq<char>
  {
    if |row| == 0 then [] else ScaleRow(row[..|row| - 1]) + Widen(row[|row| - 1])
  }

  /** `Part2::ScaleGrid`: every row widened cell by cell. */
  function ScaleGrid(g: Grid): (s: Grid)
    ensures |s| == |g|
  {
    seq(|g|, r requires 0 <= r < |g| => ScaleRow(g[r]))
  }

  /** A row of walls, boxes, free cells and the robot doubles in width, cell `c` becoming cells `2c` and `2c + 1`. */
  lemma {:induction false} ScaleRowCells(row: seq<char>)
    requires forall c :: 0 <= c < |row| ==> Tile1(row[c])
    ensures |ScaleRow(row)| == 2 * |row|
    ensures forall c :: 0 <= c < |row| ==>
      ScaleRow(row)[2 * c] == Widen(row[c])[0] && ScaleRow(row)[2 * c + 1] == Widen(row[c])[1]
    decreases |row|
  {
    if |row| > 0 {
      var n := |row|;
      var pre := ScaleRow(row[..n - 1]);
      var w := Widen(row[n - 1]);
      ScaleRowCells(row[..n - 1]);
      assert |w| == 2;
      assert ScaleRow(row) == pre + w;
      forall c | 0 <= c < n
        ensures ScaleRow(row)[2 * c] == Widen(row[c])[0] && ScaleRow(row)[2 * c + 1] == Widen(row[c])[1]
      {
        if c < n - 1 {
          assert row[..n - 1][c] == row[c];
          assert 2 * c + 1 < |pre|;
        } else {
          assert 2 * c == |pre|;
        }
      }
    }
  }

  /** The cell a pair of widened cells came from. */
  function Narrow(a: char, b: char): char
  {
    if a == '#' then '#' else if a == '[' then 'O' else if a == '.' then '.' else '@'
  }

  /** Reading a widened row back two cells at a time. */
  function NarrowRow(s: seq<char>): seq<char>
  {
    if |s| < 2 then [] else NarrowRow(s[..|s| - 2]) + [Narrow(s[|s| - 2], s[|s| - 1])]
  }

  /** Widening loses nothing: narrowing gives the row back. */
  lemma {:induction false} NarrowScaleRow(row: seq<char>)
    requires forall c :: 0 <= c < |row| ==> Tile1(row[c])
    ensures NarrowRow(ScaleRow(row)) == row
    decreases |row|
  {
    if |row| > 0 {
      var n := |row|;
      var pre := ScaleRow(row[..n - 1]);
      var x := Widen(row[n - 1]);
      var w := ScaleRow(row);
      assert |x| == 2 && Narrow(x[0], x[1]) == row[n - 1];
      assert w == pre + x;
      assert w[..|w| - 2] == pre;
      assert w[|w| - 2] == x[0] && w[|w| - 1] == x[1];
      NarrowScaleRow(row[..n - 1]);
      assert row == row[..n - 1] + [row[n - 1]];
    }
  }

  /** A character `ScaleGrid` drops leaves nothing behind, so a row widens to twice as many cells as it has known ones. */
  lemma {:induction false} ScaleRowLength(row: seq<char>)
    ensures |ScaleRow(row)| == 2 * (Count(row, '#') + Count(row, 'O') + Count(row, '.') + Count(row, '@'))
    decreases |row|
  {
    if |row| > 0 {
      ScaleRowLength(row[..|row| - 1]);
    }
  }

  /** What a part 2 cell may hold: a wall, a box's left or right half, free space or the robot. */
  predicate Tile2(x: char)
  {
    x == '#' || x == '[' || x == ']' || x == '.' || x == '@'
  }

  /**
   * A part 2 warehouse: every cell a wall, a half box, a free cell or the
   * robot, the robot at `pos` and nowhere else, and every box whole: a `[`
   * with a `]` to its right and a `]` with a `[` to its left.
   */
  predicate Warehouse2(g: Grid, pos: MatrixIndex)
  {
    && Valid(g, pos)
    && (forall r, c :: 0 <= r < |g| && 0 <= c < |g[r]| ==> Tile2(g[r][c]))
    && (forall r, c :: 0 <= r < |g| && 0 <= c < |g[r]| ==> (g[r][c] == '@' <==> r == pos.row && c == pos.col))
    && (forall r, c :: 0 <= r < |g| && 0 <= c < |g[r]| && g[r][c] == '[' ==> c + 1 < |g[r]| && g[r][c + 1] == ']')
    && (forall r, c :: 0 <= r < |g| && 0 <= c < |g[r]| && g[r][c] == ']' ==> c >= 1 && g[r][c - 1] == '[')
  }

  lemma ScaledCell(g: Grid, r: int, j: int)
    requires forall r, c :: 0 <= r < |g| && 0 <= c < |g[r]| ==> Tile1(g[r][c])
    requires 0 <= r < |g|
    ensures |ScaleGrid(g)[r]| == 2 * |g[r]|
    ensures 0 <= j < 2 * |g[r]| ==>
      ScaleGrid(g)[r][j] == (if j % 2 == 0 then Widen(g[r][j / 2])[0] else Widen(g[r][j / 2])[1])
  {
    ScaleRowCells(g[r]);
    if 0 <= j < 2 * |g[r]| {
      var c := j / 2;
      assert j == 2 * c || j == 2 * c + 1;
    }
  }

  /** The two cells a wall, box, free cell or robot widens to. */
  lemma WidenCells(x: char)
    requires Tile1(x)
    ensures |Widen(x)| == 2
    ensures Widen(x)[0] == (if x == 'O' then '[' else x)
    ensures Widen(x)[1] == (if x == 'O' then ']' else if x == '@' then '.' else x)
  {
  }

  /** One widened cell of a part 1 warehouse, against the cell it came from. */
  lemma ScaledCellFacts(g: Grid, pos: MatrixIndex, r: int, j: int)
    requires Warehouse1(g, pos)
    requires 0 <= r < |g| && 0 <= j < 2 * |g[r]|
    ensures |ScaleGrid(g)[r]| == 2 * |g[r]|
    ensures Tile2(ScaleGrid(g)[r][j])
    ensures ScaleGrid(g)[r][j] == '@' <==> r == pos.row && j == 2 * pos.col
    ensures ScaleGrid(g)[r][j] == '[' ==> j + 1 < 2 * |g[r]| && ScaleGrid(g)[r][j + 1] == ']'
    ensures ScaleGrid(g)[r][j] == ']' ==> j >= 1 && ScaleGrid(g)[r][j - 1] == '['
  {
    var s := ScaleGrid(g)[r];
    var c := j / 2;
    var x := g[r][c];
    assert Tile1(x) && (x == '@' <==> r == pos.row && c == pos.col);
    ScaleRowCells(g[r]);
    assert s == ScaleRow(g[r]);
    WidenCells(x);
    var w0, w1 := Widen(x)[0], Widen(x)[1];
    hide ScaleGrid, ScaleRow, Warehouse1, Widen;
    if j == 2 * c {
      assert s[j] == w0 && s[j + 1] == w1;
    } else {
      assert j == 2 * c + 1;
      assert s[j] == w1 && s[j - 1] == w0;
    }
  }

  /** Widening a part 1 warehouse gives a part 2 warehouse with the robot at twice its column. */
  lemma ScaleWarehouse(g: Grid, pos: MatrixIndex)
    requires Warehouse1(g, pos)
    ensures Warehouse2(ScaleGrid(g), MatrixIndex(pos.row, 2 * pos.col))
  {
    var s := ScaleGrid(g);
    hide ScaleGrid, ScaleRow, Widen;
    forall r, j | 0 <= r < |s| && 0 <= j < |s[r]|
      ensures Tile2(s[r][j])
      ensures s[r][j] == '@' <==> r == pos.row && j == 2 * pos.col
    {
      ScaledCell(g, r, j);
      ScaledCellFacts(g, pos, r, j);
    }
    forall r, j | 0 <= r < |s| && 0 <= j < |s[r]| && s[r][j] == '['
      ensures j + 1 < |s[r]| && s[r][j + 1] == ']'
    {
      ScaledCell(g, r, j);
      ScaledCellFacts(g, pos, r, j);
    }
    forall r, j | 0 <= r < |s| && 0 <= j < |s[r]| && s[r][j] == ']'
      ensures j >= 1 && s[r][j - 1] == '['
    {
      ScaledCell(g, r, j);
      ScaledCellFacts(g, pos, r, j);
    }
    ScaledCell(g, pos.row, 2 * pos.col);
  }

  lemma {:induction false} ScaleRowBoxes(row: seq<char>)
    ensures Count(ScaleRow(row), '[') == Count(row, 'O')
    decreases |row|
  {
    if |row| > 0 {
      var n := |row|;
      ScaleRowBoxes(row[..n - 1]);
      CountAppend(ScaleRow(row[..n - 1]), Widen(row[n - 1]), '[');
      var w := Widen(row[n - 1]);
      if |w| == 2 {
        assert w[..1][..0] == [];
        assert Count(w[..1], '[') == (if w[0] == '[' then 1 else 0);
        assert w[..|w| - 1] == w[..1];
      }
    }
  }

  /** Widening turns every box into exactly one left half. */
  lemma {:induction false} ScaleGridBoxes(g: Grid)
    ensures Tally(ScaleGrid(g), '[') == Tally(g, 'O')
    decreases |g|
  {
    if |g| > 0 {
      var n := |g|;
      assert ScaleGrid(g)[..n - 1] == ScaleGrid(g[..n - 1]);
      ScaleGridBoxes(g[..n - 1]);
      ScaleRowBoxes(g[n - 1]);
    }
  }

  /** The column step of a horizontal direction. */
  function Delta(d: Direction): int
  {
    match d
    case Left => -1
    case Right => 1
    case _ => 0
  }

  /** `i` lies past `a`, as far as `k`, going in the column direction `dc`. */
  predicate Between(i: int, a: int, k: int, dc: int)
  {
    if dc == 1 then a < i <= k else k <= i < a
  }

  /**
   * Row `row` after the robot at `col` pushes the run of cells up to the
   * free cell `k`: the cells past the robot's new cell shift one step
   * towards `k`, the robot's new cell holds `@` and its old cell is free.
   */
  function Shifted(row: seq<char>, col: int, k: int, dc: int): (r: seq<char>)
    requires dc == 1 || dc == -1
    requires 0 <= col < |row| && 0 <= col + dc < |row| && 0 <= k < |row|
    requires if dc == 1 then col <= k else k <= col
    ensures |r| == |row|
  {
    seq(|row|, i requires 0 <= i < |row| =>
      if i == col then '.'
      else if i == col + dc then '@'
      else if Between(i, col + dc, k, dc) then row[i - dc]
      else row[i])
  }

  /** The copying loop of `Part2::MoveRobotHorizontally`, from the free cell back to the robot. */
  method ShiftRow(row: seq<char>, col: int, k: int, dc: int) returns (r: seq<char>)
    requires dc == 1 || dc == -1
    requires 0 <= col < |row| && 0 <= col + dc < |row| && 0 <= k < |row|
    requires if dc == 1 then col <= k else k <= col
    ensures r == Shifted(row, col, k, dc)
  {
    r := row;
    var ii := k;
    while ii != col
      invariant if dc == 1 then col <= ii <= k else k <= ii <= col
      invariant |r| == |row|
      invariant forall j :: 0 <= j < |row| && Between(j, ii, k, dc) ==> r[j] == row[j - dc]
      invariant forall j :: 0 <= j < |row| && !Between(j, ii, k, dc) ==> r[j] == row[j]
      decreases if dc == 1 then ii - col else col - ii
    {
      assert !Between(ii - dc, ii, k, dc);
      r := r[ii := r[ii - dc]];
      ii := ii - dc;
    }
    ShiftDone(row, r, col, k, dc);
    r := r[col + dc := '@'];
    r := r[col := '.'];
  }

  /** Once the run is copied, the robot's two writes finish the shifted row. */
  lemma ShiftDone(row: seq<char>, r: seq<char>, col: int, k: int, dc: int)
    requires dc == 1 || dc == -1
    requires 0 <= col < |row| && 0 <= col + dc < |row| && 0 <= k < |row|
    requires if dc == 1 then col <= k else k <= col
    requires |r| == |row|
    requires forall j :: 0 <= j < |row| && Between(j, col, k, dc) ==> r[j] == row[j - dc]
    requires forall j :: 0 <= j < |row| && !Between(j, col, k, dc) ==> r[j] == row[j]
    ensures r[col + dc := '@'][col := '.'] == Shifted(row, col, k, dc)
  {
    var a := r[col + dc := '@'][col := '.'];
    var b := Shifted(row, col, k, dc);
    forall j | 0 <= j < |row|
      ensures a[j] == b[j]
    {
      if j != col && j != col + dc {
        assert Between(j, col, k, dc) == Between(j, col + dc, k, dc);
      }
    }
  }

  /**
   * `Part2::MoveRobotHorizontally`: from the robot's own cell on, the first
   * free cell before a wall or the edge; the run up to it shifts one cell
   * and the robot steps.  With none, nothing changes.
   */
  function MoveRobotHorizontally(g: Grid, pos: MatrixIndex, d: Direction): (r: Option<(Grid, MatrixIndex)>)
    requires d == Left || d == Right
    ensures r.Some? ==> r.value == (g, pos) || r.value.1 == Step(pos, d)
  {
    if !(0 <= pos.row < |g|) then None
    else match FindFree(g, pos, d)
      case None => Some((g, pos))
      case Some(q) =>
        var next := Step(pos, d);
        if !Valid(g, next) then None
        else
          FindFreeAhead(g, pos, d);
          Some((g[pos.row := Shifted(g[pos.row], pos.col, q.col, Delta(d))], next))
  }

  lemma ShiftedRight(row: seq<char>, col: int, k: int)
    requires 0 <= col < k < |row|
    ensures Shifted(row, col, k, 1) == row[..col] + ['.', '@'] + row[col + 1..k] + row[k + 1..]
  {
    var a := Shifted(row, col, k, 1);
    var b := row[..col] + ['.', '@'] + row[col + 1..k] + row[k + 1..];
    assert |a| == |b|;
    forall i | 0 <= i < |a|
      ensures a[i] == b[i]
    {
      if i < col {
      } else if i <= col + 1 {
      } else if i <= k {
        assert b[i] == row[col + 1..k][i - col - 2];
      } else {
        assert b[i] == row[k + 1..][i - k - 1];
      }
    }
  }

  lemma ShiftedLeft(row: seq<char>, col: int, k: int)
    requires 0 <= k < col < |row|
    ensures Shifted(row, col, k, -1) == row[..k] + row[k + 1..col] + ['@', '.'] + row[col + 1..]
  {
    var a := Shifted(row, col, k, -1);
    var b := row[..k] + row[k + 1..col] + ['@', '.'] + row[col + 1..];
    assert |a| == |b|;
    forall i | 0 <= i < |a|
      ensures a[i] == b[i]
    {
      if i < k {
      } else if i < col - 1 {
        assert b[i] == row[k + 1..col][i - k];
      } else if i <= col {
      } else {
        assert b[i] == row[col + 1..][i - col - 1];
      }
    }
  }

  lemma Slices(row: seq<char>, i: int, j: int)
    requires 0 <= i < j < |row|
    ensures row == row[..i] + [row[i]] + row[i + 1..j] + [row[j]] + row[j + 1..]
  {
    var a, b, c := row[..i], row[i + 1..j], row[j + 1..];
    assert row[..i + 1] == a + [row[i]];
    assert row[..j] == row[..i + 1] + b;
    assert row[..j + 1] == row[..j] + [row[j]];
    assert row == row[..j + 1] + c;
  }

  lemma MultisetFive(a: seq<char>, x: char, b: seq<char>, y: char, c: seq<char>)
    ensures multiset(a + [x] + b + [y] + c) == multiset(a) + multiset(b) + multiset(c) + multiset{x} + multiset{y}
  {
    var s1 := a + [x];
    var s2 := s1 + b;
    var s3 := s2 + [y];
    assert multiset(s1) == multiset(a) + multiset([x]);
    assert multiset(s2) == multiset(s1) + multiset(b);
    assert multiset(s3) == multiset(s2) + multiset([y]);
    assert multiset(s3 + c) == multiset(s3) + multiset(c);
  }

  lemma MultisetFour(a: seq<char>, b: seq<char>, p: seq<char>, c: seq<char>)
    ensures multiset(a + b + p + c) == multiset(a) + multiset(b) + multiset(c) + multiset(p)
    ensures multiset(a + p + b + c) == multiset(a) + multiset(b) + multiset(c) + multiset(p)
  {
    assert multiset(a + b + p + c) == multiset(a + b + p) + multiset(c);
    assert multiset(a + b + p) == multiset(a + b) + multiset(p);
    assert multiset(a + p + b + c) == multiset(a + p + b) + multiset(c);
    assert multiset(a + p + b) == multiset(a + p) + multiset(b);
  }

  /** Swapping the robot with the free cell past the run keeps the multiset of cells. */
  lemma MultisetRegroup(a: seq<char>, b: seq<char>, c: seq<char>, x: char, y: char)
    ensures multiset(a + [x] + b + [y] + c) == multiset(a + [y, x] + b + c)
    ensures multiset(a + [x] + b + [y] + c) == multiset(a + b + [y, x] + c)
  {
    MultisetFive(a, x, b, y, c);
    MultisetFour(a, b, [y, x], c);
    assert multiset([y, x]) == multiset{x} + multiset{y};
  }

  /** Pushing a run along a row keeps the row's cells, only moved. */
  lemma ShiftedMultiset(row: seq<char>, col: int, k: int, dc: int)
    requires dc == 1 || dc == -1
    requires 0 <= col < |row| && 0 <= col + dc < |row| && 0 <= k < |row|
    requires if dc == 1 then col < k else k < col
    requires row[col] == '@' && row[k] == '.'
    ensures multiset(Shifted(row, col, k, dc)) == multiset(row)
  {
    if dc == 1 {
      ShiftedRight(row, col, k);
      Slices(row, col, k);
      MultisetRegroup(row[..col], row[col + 1..k], row[k + 1..], '@', '.');
    } else {
      ShiftedLeft(row, col, k);
      Slices(row, k, col);
      MultisetRegroup(row[..k], row[k + 1..col], row[col + 1..], '.', '@');
    }
  }

  /** Along a row, no wall stands between a cell and the free cell the search finds from it. */
  lemma RowClear(g: Grid, p: MatrixIndex, d: Direction, k: nat)
    requires d == Left || d == Right
    requires FreeAfter(g, p, d, k)
    ensures 0 <= p.row < |g| && 0 <= p.col < |g[p.row]|
    ensures d == Right ==> p.col + k < |g[p.row]| && forall i :: p.col <= i <= p.col + k ==> g[p.row][i] != '#'
    ensures d == Left ==> 0 <= p.col - k && forall i :: p.col - k <= i <= p.col ==> g[p.row][i] != '#'
  {
    assert Valid(g, Ray(p, d, k)) && Ray(p, d, k).row == p.row;
    assert Valid(g, Ray(p, d, 0)) by {
      if k > 0 {
        assert 0 < k;
      }
    }
    if d == Right {
      forall i | p.col <= i <= p.col + k
        ensures g[p.row][i] != '#'
      {
        var m := i - p.col;
        assert Ray(p, d, m) == MatrixIndex(p.row, i);
        if m < k {
          assert Valid(g, Ray(p, d, m)) && At(g, Ray(p, d, m)) != '#';
        }
      }
    } else {
      forall i | p.col - k <= i <= p.col
        ensures g[p.row][i] != '#'
      {
        var m := p.col - i;
        assert Ray(p, d, m) == MatrixIndex(p.row, i);
        if m < k {
          assert Valid(g, Ray(p, d, m)) && At(g, Ray(p, d, m)) != '#';
        }
      }
    }
  }

  /** Shifting a run that holds no wall leaves the walls of the row where they were. */
  lemma ShiftedWalls(row: seq<char>, col: int, k: int, dc: int)
    requires dc == 1 || dc == -1
    requires 0 <= col < |row| && 0 <= col + dc < |row| && 0 <= k < |row|
    requires if dc == 1 then col < k else k < col
    requires forall i :: (if dc == 1 then col <= i <= k else k <= i <= col) ==> row[i] != '#'
    ensures forall i :: 0 <= i < |row| ==> (Shifted(row, col, k, dc)[i] == '#' <==> row[i] == '#')
  {
    forall i | 0 <= i < |row|
      ensures Shifted(row, col, k, dc)[i] == '#' <==> row[i] == '#'
    {
      if Between(i, col + dc, k, dc) {
        assert row[i - dc] != '#';
      }
    }
  }

  /**
   * A horizontal part 2 move from the robot's cell: with a free cell ahead
   * before any wall, the robot steps and its row keeps its cells, only
   * moved; otherwise nothing changes.  Walls and the other rows stay.
   */
  lemma MoveRobotHorizontallyKeeps(g: Grid, pos: MatrixIndex, d: Direction)
    requires d == Left || d == Right
    requires Valid(g, pos) && At(g, pos) == '@'
    ensures MoveRobotHorizontally(g, pos, d).Some?
    ensures var (h, p) := MoveRobotHorizontally(g, pos, d).value;
      && SameWalls(g, h)
      && (forall r :: 0 <= r < |g| && r != pos.row ==> h[r] == g[r])
      && multiset(h[pos.row]) == multiset(g[pos.row])
      && (p == Step(pos, d) <==> exists k: nat :: FreeAfter(g, pos, d, k))
      && (p != Step(pos, d) ==> p == pos && h == g)
  {
    match FindFree(g, pos, d)
    case None =>
      forall k: nat
        ensures !FreeAfter(g, pos, d, k)
      {
        FindFreeMeans(g, pos, d, Ray(pos, d, k));
      }
      assert SameWalls(g, g);
    case Some(q) =>
      var k := FindFreeSteps(g, pos, d);
      FindFreeAhead(g, pos, d);
      RowClear(g, pos, d, k);
      RayStep(pos, d, 0);
      assert k >= 1;
      var next := Step(pos, d);
      assert Valid(g, next) by {
        RayStep(pos, d, 0);
        if k > 1 {
          assert Valid(g, Ray(pos, d, 1));
        }
      }
      var dc := Delta(d);
      var row := g[pos.row];
      ShiftedMultiset(row, pos.col, q.col, dc);
      ShiftedWalls(row, pos.col, q.col, dc);
  }

  /** Replacing a row by one holding `x` as often leaves the tally of `x` as it was. */
  lemma {:induction false} TallyRow(g: Grid, r: int, row: seq<char>, x: char)
    requires 0 <= r < |g| && Count(row, x) == Count(g[r], x)
    ensures Tally(g[r := row], x) == Tally(g, x)
    decreases |g|
  {
    var n := |g|;
    var h := g[r := row];
    if r == n - 1 {
      assert h[..n - 1] == g[..n - 1];
    } else {
      assert h[..n - 1] == g[..n - 1][r := row];
      TallyRow(g[..n - 1], r, row, x);
    }
  }

  /** Every box of the row whole: a `[` with a `]` to its right, a `]` with a `[` to its left. */
  predicate WholeBoxes(row: seq<char>)
  {
    && (forall c :: 0 <= c < |row| && row[c] == '[' ==> c + 1 < |row| && row[c + 1] == ']')
    && (forall c :: 0 <= c < |row| && row[c] == ']' ==> c >= 1 && row[c - 1] == '[')
  }

  /**
   * Pushing a run along a row of whole boxes from the robot up to a free
   * cell keeps the boxes whole and the cells part 2 cells, and leaves the
   * robot only on its new cell.
   */
  lemma ShiftedWhole(row: seq<char>, col: int, k: int, dc: int)
    requires dc == 1 || dc == -1
    requires 0 <= col < |row| && 0 <= col + dc < |row| && 0 <= k < |row|
    requires if dc == 1 then col < k else k < col
    requires row[col] == '@' && row[k] == '.'
    requires forall i :: 0 <= i < |row| ==> Tile2(row[i]) && (row[i] == '@' <==> i == col)
    requires WholeBoxes(row)
    ensures forall i :: 0 <= i < |row| ==> Tile2(Shifted(row, col, k, dc)[i])
    ensures forall i :: 0 <= i < |row| ==> (Shifted(row, col, k, dc)[i] == '@' <==> i == col + dc)
    ensures WholeBoxes(Shifted(row, col, k, dc))
  {
    var s := Shifted(row, col, k, dc);
    forall i | 0 <= i < |row|
      ensures Tile2(s[i]) && (s[i] == '@' <==> i == col + dc)
    {
      if Between(i, col + dc, k, dc) {
        assert i - dc != col;
      }
    }
    forall c | 0 <= c < |row| && s[c] == '['
      ensures c + 1 < |row| && s[c + 1] == ']'
    {
      if Between(c, col + dc, k, dc) {
        assert row[c - dc] == '[';
        assert c - dc + 1 < |row| && row[c - dc + 1] == ']';
      } else {
        assert c != col && c != col + dc && row[c] == '[';
      }
    }
    forall c | 0 <= c < |row| && s[c] == ']'
      ensures c >= 1 && s[c - 1] == '['
    {
      if Between(c, col + dc, k, dc) {
        assert row[c - dc] == ']';
        assert c - dc >= 1 && row[c - dc - 1] == '[';
      } else {
        assert c != col && c != col + dc && row[c] == ']';
      }
    }
  }

  /** Replacing the robot's row by a row of whole boxes with the robot at `col` keeps a part 2 warehouse. */
  lemma RowWhole(g: Grid, pos: MatrixIndex, row: seq<char>, col: int)
    requires Warehouse2(g, pos) && |row| == |g[pos.row]| && 0 <= col < |row|
    requires forall i :: 0 <= i < |row| ==> Tile2(row[i]) && (row[i] == '@' <==> i == col)
    requires WholeBoxes(row)
    ensures Warehouse2(g[pos.row := row], MatrixIndex(pos.row, col))
  {
  }

  /**
   * A horizontal part 2 move keeps a part 2 warehouse well formed, with the
   * robot where the move leaves it, and keeps the number of boxes.
   */
  lemma MoveRobotHorizontallyWhole(g: Grid, pos: MatrixIndex, d: Direction)
    requires d == Left || d == Right
    requires Warehouse2(g, pos)
    ensures MoveRobotHorizontally(g, pos, d).Some?
    ensures var (h, p) := MoveRobotHorizontally(g, pos, d).value;
      Warehouse2(h, p) && Tally(h, '[') == Tally(g, '[') && SameWalls(g, h)
  {
    MoveRobotHorizontallyKeeps(g, pos, d);
    var (h, p) := MoveRobotHorizontally(g, pos, d).value;
    match FindFree(g, pos, d)
    case None =>
    case Some(q) =>
      FindFreeAhead(g, pos, d);
      var next := Step(pos, d);
      var dc := Delta(d);
      var row := g[pos.row];
      assert q != pos;
      assert q.row == pos.row && (if dc == 1 then pos.col < q.col else q.col < pos.col);
      assert WholeBoxes(row) && forall i :: 0 <= i < |row| ==> Tile2(row[i]) && (row[i] == '@' <==> i == pos.col);
      hide Warehouse2, SameWalls;
      ShiftedWhole(row, pos.col, q.col, dc);
      var row' := Shifted(row, pos.col, q.col, dc);
      assert h == g[pos.row := row'] && p == next;
      assert next == MatrixIndex(pos.row, pos.col + dc);
      RowWhole(g, pos, row', pos.col + dc);
      MultisetCount(row, '[');
      MultisetCount(row', '[');
      TallyRow(g, pos.row, row', '[');
  }
}
