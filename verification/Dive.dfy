/**
 * 2021 day 2, part 2: a submarine with a horizontal position, a depth and
 * an aim follows `forward`, `down` and `up` commands; the answer is the
 * product of position and depth.
 */
module Dive {
  datatype Command = Command(instruction: string, units: int)

  /** Horizontal position `x`, depth `y`, and aim. */
  datatype Coordinate = Coordinate(x: int, y: int, aim: int)

  function Forward(c: Coordinate, units: int): (r: Coordinate)
    ensures r.x - c.x == units && r.y - c.y == c.aim * units && r.aim == c.aim
  {
    Coordinate(c.x + units, c.y + c.aim * units, c.aim)
  }

  function Down(c: Coordinate, units: int): (r: Coordinate)
    ensures r.aim - c.aim == units && r.x == c.x && r.y == c.y
  {
    c.(aim := c.aim + units)
  }

  function Up(c: Coordinate, units: int): (r: Coordinate)
    ensures c.aim - r.aim == units && r.x == c.x && r.y == c.y
  {
    c.(aim := c.aim - units)
  }

  /** One command; a name other than the three known ones leaves the state as it is. */
  function Apply(c: Coordinate, cmd: Command): Coordinate
  {
    if cmd.instruction == "forward" then Forward(c, cmd.units)
    else if cmd.instruction == "down" then Down(c, cmd.units)
    else if cmd.instruction == "up" then Up(c, cmd.units)
    else c
  }

  function Follow(c: Coordinate, cmds: seq<Command>): Coordinate
    decreases |cmds|
  {
    if |cmds| == 0 then c else Follow(Apply(c, cmds[0]), cmds[1..])
  }

  /** Part 2: from (0, 0, 0), the product of horizontal position and depth at the end. */
  function Part2(cmds: seq<Command>): int
  {
    var e := Follow(Coordinate(0, 0, 0), cmds);
    e.x * e.y
  }

  /** `up` undoes `down` by the same amount, and `down` undoes `up`. */
  lemma UpUndoesDown(c: Coordinate, units: int)
    ensures Up(Down(c, units), units) == c
    ensures Down(Up(c, units), units) == c
  {
  }

  // ---------------------------------------------------------------------
  // Closed form: what the commands add up to

  function Signed(cmd: Command): int
  {
    if cmd.instruction == "down" then cmd.units
    else if cmd.instruction == "up" then -cmd.units
    else 0
  }

  function Advance(cmd: Command): int
  {
    if cmd.instruction == "forward" then cmd.units else 0
  }

  /** The net aim change of the commands. */
  function AimChange(cmds: seq<Command>): int
  {
    if |cmds| == 0 then 0 else Signed(cmds[0]) + AimChange(cmds[1..])
  }

  /** The horizontal distance the commands cover. */
  function Distance(cmds: seq<Command>): int
  {
    if |cmds| == 0 then 0 else Advance(cmds[0]) + Distance(cmds[1..])
  }

  /** Each forward step dives by its length times the aim in force then, starting from aim `aim`. */
  function Descent(cmds: seq<Command>, aim: int): int
  {
    if |cmds| == 0 then 0 else aim * Advance(cmds[0]) + Descent(cmds[1..], aim + Signed(cmds[0]))
  }

  /**
   * Following the commands moves forward by the forward units, turns the aim
   * by downs minus ups, and dives by each forward step times the aim at
   * that point.
   */
  lemma {:induction false} FollowClosedForm(c: Coordinate, cmds: seq<Command>)
    ensures var e := Follow(c, cmds);
      && e.x == c.x + Distance(cmds)
      && e.aim == c.aim + AimChange(cmds)
      && e.y == c.y + Descent(cmds, c.aim)
    decreases |cmds|
  {
    if |cmds| > 0 {
      FollowClosedForm(Apply(c, cmds[0]), cmds[1..]);
    }
  }

  /** Commands with an unknown name do not change the answer. */
  lemma {:induction false} UnknownIgnored(c: Coordinate, a: seq<Command>, u: Command, b: seq<Command>)
    requires u.instruction != "forward" && u.instruction != "down" && u.instruction != "up"
    ensures Follow(c, a + [u] + b) == Follow(c, a + b)
    decreases |a|
  {
    if |a| == 0 {
      assert (a + [u] + b)[1..] == b && a + b == b;
    } else {
      assert (a + [u] + b)[1..] == a[1..] + [u] + b;
      assert (a + b)[1..] == a[1..] + b;
      UnknownIgnored(Apply(c, a[0]), a[1..], u, b);
    }
  }

  lemma Part2ClosedForm(cmds: seq<Command>)
    ensures Part2(cmds) == Distance(cmds) * Descent(cmds, 0)
  {
    FollowClosedForm(Coordinate(0, 0, 0), cmds);
  }
}
