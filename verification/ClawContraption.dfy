/**
 * 2024 day 13: a claw machine has two buttons, each moving the claw by a
 * fixed step in x and y, and a prize position.  The presses that reach the
 * prize solve a 2x2 linear system; the program solves it by Cramer's rule
 * with truncating division and keeps the answer only when it checks out.
 * Pressing A costs 3 tokens and pressing B costs 1.
 */
module ClawContraption {
  import opened Common
  import opened Decimal

  const ButtonACost := 3
  /** The prize shift of part 2. */
  const PartTwoFactor := 10000000000000

  datatype XYPoint = XYPoint(x: int, y: int)

  datatype MachineConfiguration = MachineConfiguration(buttonA: XYPoint, buttonB: XYPoint, target: XYPoint)

  // ---------------------------------------------------------------------
  // Reading a line

  /**
   * `ParseLine`: the first run of digits is x and the next run is y, each
   * read by `stoll`, which throws (`None`) when a run is missing.  Signs are
   * not digits, so they are never read.
   */
  function ParseLine(line: string): (r: Option<XYPoint>)
    ensures r.Some? ==> r.value.x >= 0 && r.value.y >= 0
    ensures NoDigits(line) ==> r.None?
  {
    var first1 := FindDigit(line, 0);
    var last1 := DigitRunEnd(line, first1);
    var first2 := FindDigit(line, last1);
    var last2 := DigitRunEnd(line, first2);
    StoiRun(line, first1, last1);
    StoiRun(line, first2, last2);
    match (Stoi(line[first1..last1]), Stoi(line[first2..last2]))
      case (Some(x), Some(y)) => Some(XYPoint(x, y))
      case _ => None
  }

  predicate NoDigits(s: string)
  {
    forall k :: 0 <= k < |s| ==> !IsDigit(s[k])
  }

  /** `stoll` of a run of digits: nothing when the run is empty, otherwise a number that is not negative. */
  lemma StoiRun(s: string, a: nat, b: nat)
    requires a <= b <= |s| && AllDigits(s[a..b])
    ensures a == b ==> Stoi(s[a..b]).None?
    ensures Stoi(s[a..b]).Some? ==> Stoi(s[a..b]).value >= 0
  {
    if a == b {
      assert s[a..b] == "";
      StoiEmpty();
    } else {
      StoiDigits(s[a..b]);
    }
  }

  /**
   * A line such as `Button A: X+94, Y+34` or `Prize: X=8400, Y=5400` --
   * digit-free text around the two numbers -- is read as those numbers.
   */
  lemma ParseLineOfShown(p1: string, x: nat, p2: string, y: nat, rest: string)
    requires NoDigits(p1) && NoDigits(p2) && NoDigits(rest) && |p2| >= 1
    ensures ParseLine(p1 + ShowNat(x) + p2 + ShowNat(y) + rest) == Some(XYPoint(x, y))
  {
    var dx, dy := ShowNat(x), ShowNat(y);
    var line := p1 + dx + p2 + dy + rest;
    var i1 := |p1|;
    var j1 := i1 + |dx|;
    var i2 := j1 + |p2|;
    var j2 := i2 + |dy|;
    assert line[i1..j1] == dx;
    assert line[j1..i2] == p2;
    assert line[i2..j2] == dy;
    assert line[j2..] == rest;
    FindDigitAt(line, 0, i1);
    DigitRunEndAt(line, i1, j1);
    FindDigitAt(line, j1, i2);
    DigitRunEndAt(line, i2, j2);
    StoiDigits(dx);
    StoiDigits(dy);
    ShowNatValue(x);
    ShowNatValue(y);
  }

  // ---------------------------------------------------------------------
  // Solving a machine

  /** The determinant `y1 * x2 - y2 * x1` the program divides by. */
  function Determinant(x1: int, y1: int, x2: int, y2: int): int
  {
    y1 * x2 - y2 * x1
  }

  /** The divisions of `MinimumCostLinearEquations` are by the determinant and by `x2`, so both must be non-zero. */
  predicate Solvable(x1: int, y1: int, x2: int, y2: int)
  {
    Determinant(x1, y1, x2, y2) != 0 && x2 != 0
  }

  /** `MinimumCostLinearEquations`: Cramer's rule for `a`, then `b` from the x equation, both truncating. */
  function MinimumCostLinearEquations(x1: int, y1: int, x2: int, y2: int, X: int, Y: int): (int, int)
    requires Solvable(x1, y1, x2, y2)
  {
    var a := TDiv(x2 * Y - y2 * X, Determinant(x1, y1, x2, y2));
    var b := TDiv(X - a * x1, x2);
    (a, b)
  }

  /** `a` presses of A and `b` presses of B put the claw exactly on the target. */
  predicate IsValid(buttonA: XYPoint, buttonB: XYPoint, target: XYPoint, a: int, b: int)
  {
    a * buttonA.x + b * buttonB.x == target.x && a * buttonA.y + b * buttonB.y == target.y
  }

  /** Cramer's numerator for `a` is `a` times the determinant at any solution. */
  lemma CramerNumerator(x1: int, y1: int, x2: int, y2: int, a: int, b: int)
    ensures x2 * (a * y1 + b * y2) - y2 * (a * x1 + b * x2) == a * Determinant(x1, y1, x2, y2)
  {
    assert x2 * (a * y1 + b * y2) == a * (y1 * x2) + b * (x2 * y2);
    assert y2 * (a * x1 + b * x2) == a * (y2 * x1) + b * (x2 * y2);
  }

  /**
   * When the presses `(a, b)` reach the target, the program finds exactly
   * them: with a non-zero determinant the solution is unique, and both
   * divisions are exact.
   */
  lemma MinimumCostFindsSolution(buttonA: XYPoint, buttonB: XYPoint, target: XYPoint, a: int, b: int)
    requires Solvable(buttonA.x, buttonA.y, buttonB.x, buttonB.y)
    requires IsValid(buttonA, buttonB, target, a, b)
    ensures MinimumCostLinearEquations(buttonA.x, buttonA.y, buttonB.x, buttonB.y, target.x, target.y) == (a, b)
  {
    var x1, y1, x2, y2 := buttonA.x, buttonA.y, buttonB.x, buttonB.y;
    var det := Determinant(x1, y1, x2, y2);
    CramerNumerator(x1, y1, x2, y2, a, b);
    assert x2 * target.y - y2 * target.x == a * det;
    TDivExact(a, det);
    assert target.x - a * x1 == b * x2;
    TDivExact(b, x2);
  }

  /** The program's presses check out exactly when some presses reach the target. */
  lemma ValidIffReachable(buttonA: XYPoint, buttonB: XYPoint, target: XYPoint)
    requires Solvable(buttonA.x, buttonA.y, buttonB.x, buttonB.y)
    ensures var (a, b) := MinimumCostLinearEquations(buttonA.x, buttonA.y, buttonB.x, buttonB.y, target.x, target.y);
      IsValid(buttonA, buttonB, target, a, b) <==> exists a', b' :: IsValid(buttonA, buttonB, target, a', b')
  {
    var (a, b) := MinimumCostLinearEquations(buttonA.x, buttonA.y, buttonB.x, buttonB.y, target.x, target.y);
    if exists a', b' :: IsValid(buttonA, buttonB, target, a', b') {
      var a', b' :| IsValid(buttonA, buttonB, target, a', b');
      MinimumCostFindsSolution(buttonA, buttonB, target, a', b');
    }
  }

  // ---------------------------------------------------------------------
  // The total

  predicate AllSolvable(configurations: seq<MachineConfiguration>)
  {
    forall k :: 0 <= k < |configurations| ==>
      Solvable(configurations[k].buttonA.x, configurations[k].buttonA.y, configurations[k].buttonB.x, configurations[k].buttonB.y)
  }

  /** The prize moved by `factor` on both axes. */
  function Shifted(target: XYPoint, factor: int): XYPoint
  {
    XYPoint(target.x + factor, target.y + factor)
  }

  /** What one machine adds to the sum: `3a + b` for presses that check out, nothing otherwise. */
  function MachineCost(m: MachineConfiguration, factor: int): int
    requires Solvable(m.buttonA.x, m.buttonA.y, m.buttonB.x, m.buttonB.y)
  {
    var target := Shifted(m.target, factor);
    var (a, b) := MinimumCostLinearEquations(m.buttonA.x, m.buttonA.y, m.buttonB.x, m.buttonB.y, target.x, target.y);
    if IsValid(m.buttonA, m.buttonB, target, a, b) then a * ButtonACost + b else 0
  }

  /** A machine whose shifted prize is reached by `(a, b)` costs `3a + b`. */
  lemma MachineCostOfSolution(m: MachineConfiguration, factor: int, a: int, b: int)
    requires Solvable(m.buttonA.x, m.buttonA.y, m.buttonB.x, m.buttonB.y)
    requires IsValid(m.buttonA, m.buttonB, Shifted(m.target, factor), a, b)
    ensures MachineCost(m, factor) == ButtonACost * a + b
  {
    MinimumCostFindsSolution(m.buttonA, m.buttonB, Shifted(m.target, factor), a, b);
  }

  /** A machine whose shifted prize no presses reach adds nothing. */
  lemma MachineCostUnreachable(m: MachineConfiguration, factor: int)
    requires Solvable(m.buttonA.x, m.buttonA.y, m.buttonB.x, m.buttonB.y)
    requires forall a, b :: !IsValid(m.buttonA, m.buttonB, Shifted(m.target, factor), a, b)
    ensures MachineCost(m, factor) == 0
  {
  }

  function TotalCost(configurations: seq<MachineConfiguration>, factor: int): int
    requires AllSolvable(configurations)
    decreases |configurations|
  {
    if |configurations| == 0 then 0
    else
      var n := |configurations| - 1;
      TotalCost(configurations[..n], factor) + MachineCost(configurations[n], factor)
  }

  /** `Day13`: the costs of the machines the program can win, added up in order. */
  method Day13(configurations: seq<MachineConfiguration>, factor: int) returns (sum: int)
    requires AllSolvable(configurations)
    ensures sum == TotalCost(configurations, factor)
    ensures |configurations| == 0 ==> sum == 0
  {
    sum := 0;
    var i := 0;
    while i < |configurations|
      invariant 0 <= i <= |configurations|
      invariant sum == TotalCost(configurations[..i], factor)
    {
      var m := configurations[i];
      var target := Shifted(m.target, factor);
      var (a, b) := MinimumCostLinearEquations(m.buttonA.x, m.buttonA.y, m.buttonB.x, m.buttonB.y, target.x, target.y);
      if IsValid(m.buttonA, m.buttonB, target, a, b) {
        sum := sum + a * ButtonACost + b;
      }
      assert configurations[..i + 1][..i] == configurations[..i];
      i := i + 1;
    }
    assert configurations[..i] == configurations;
  }

  /** With presses that never go negative, the total is never negative. */
  lemma {:induction false} TotalCostNonNegative(configurations: seq<MachineConfiguration>, factor: int)
    requires AllSolvable(configurations)
    requires forall k :: 0 <= k < |configurations| ==> MachineCost(configurations[k], factor) >= 0
    ensures TotalCost(configurations, factor) >= 0
    decreases |configurations|
  {
    if |configurations| > 0 {
      var n := |configurations| - 1;
      TotalCostNonNegative(configurations[..n], factor);
    }
  }
}
