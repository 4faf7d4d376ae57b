/**
 * 2022 day 10: a one-register CPU runs `noop` (one cycle) and `addx v`
 * (two cycles, then X grows by v); the signal strength `cycle * X` is added
 * up during cycles 20, 60, 100, ...
 */
module CathodeRayTube {
  datatype Instr = Noop | Addx(v: int)

  /** The program's counters: cycles done, the register, the next cycle to sample, the sum so far. */
  datatype Cpu = Cpu(cycles: nat, x: int, target: int, sum: int)

  const FirstSample := 20
  const SampleEvery := 40

  function Start(): Cpu
  {
    Cpu(0, 1, FirstSample, 0)
  }

  /** The sampling test: when the cycle is the one to sample, the next one is 40 later. */
  function TestAndUpdateCycleToProcess(cyclesSoFar: int, cycleToProcess: int): (r: (bool, int))
    ensures r.0 <==> cycleToProcess == cyclesSoFar
    ensures r.1 == if r.0 then cyclesSoFar + SampleEvery else cycleToProcess
  {
    if cycleToProcess == cyclesSoFar then (true, cycleToProcess + SampleEvery) else (false, cycleToProcess)
  }

  /** One cycle: count it, and add its strength when it is sampled. */
  function Tick(s: Cpu): Cpu
  {
    var c := s.cycles + 1;
    var (hit, next) := TestAndUpdateCycleToProcess(c, s.target);
    Cpu(c, s.x, next, if hit then s.sum + c * s.x else s.sum)
  }

  function Step(s: Cpu, i: Instr): Cpu
  {
    match i
      case Noop => Tick(s)
      case Addx(v) => var t := Tick(Tick(s)); t.(x := t.x + v)
  }

  function Run(s: Cpu, prog: seq<Instr>): Cpu
    decreases |prog|
  {
    if |prog| == 0 then s else Run(Step(s, prog[0]), prog[1..])
  }

  // ---------------------------------------------------------------------
  // Reference: the value of X during every cycle

  /** X during each cycle, from the register value `x` at the start. */
  function Trace(prog: seq<Instr>, x: int): seq<int>
    decreases |prog|
  {
    if |prog| == 0 then []
    else match prog[0]
      case Noop => [x] + Trace(prog[1..], x)
      case Addx(v) => [x, x] + Trace(prog[1..], x + v)
  }

  predicate Sampled(c: int)
  {
    c > 0 && c % SampleEvery == FirstSample
  }

  /** The strengths of the sampled cycles of `t`, whose first entry is cycle `k + 1`. */
  function Strengths(t: seq<int>, k: nat): int
    decreases |t|
  {
    if |t| == 0 then 0
    else (if Sampled(k + 1) then (k + 1) * t[0] else 0) + Strengths(t[1..], k + 1)
  }

  function AddxTotal(prog: seq<Instr>): int
    decreases |prog|
  {
    if |prog| == 0 then 0
    else (if prog[0].Addx? then prog[0].v else 0) + AddxTotal(prog[1..])
  }

  function Cycles(prog: seq<Instr>): nat
    decreases |prog|
  {
    if |prog| == 0 then 0 else (if prog[0].Addx? then 2 else 1) + Cycles(prog[1..])
  }

  /** The cycle to sample is the first sampled cycle still to come. */
  predicate Aligned(s: Cpu)
  {
    s.cycles < s.target <= s.cycles + SampleEvery && s.target % SampleEvery == FirstSample
  }

  lemma TickAligned(s: Cpu)
    requires Aligned(s)
    ensures Aligned(Tick(s))
    ensures Tick(s).cycles == s.cycles + 1 && Tick(s).x == s.x
    ensures Tick(s).sum == s.sum + (if Sampled(s.cycles + 1) then (s.cycles + 1) * s.x else 0)
  {
  }

  /** X during the cycles of one instruction, and X after it. */
  function During(i: Instr, x: int): seq<int>
  {
    if i.Addx? then [x, x] else [x]
  }

  function After(i: Instr, x: int): int
  {
    if i.Addx? then x + i.v else x
  }

  lemma TraceCons(prog: seq<Instr>, x: int)
    requires |prog| > 0
    ensures Trace(prog, x) == During(prog[0], x) + Trace(prog[1..], After(prog[0], x))
  {
  }

  lemma AfterShift(i: Instr, x: int)
    ensures After(i, x) == x + After(i, 0)
  {
  }

  lemma RunCons(s: Cpu, prog: seq<Instr>)
    requires |prog| > 0
    ensures Run(s, prog) == Run(Step(s, prog[0]), prog[1..])
  {
  }

  lemma AddxTotalCons(prog: seq<Instr>)
    requires |prog| > 0
    ensures AddxTotal(prog) == After(prog[0], 0) + AddxTotal(prog[1..])
  {
  }

  /** One instruction adds the strengths of its own cycles and leaves the rest to come. */
  lemma StepMatches(s: Cpu, i: Instr, t: seq<int>)
    requires Aligned(s)
    ensures var e := Step(s, i);
      && Aligned(e)
      && e.cycles == s.cycles + |During(i, s.x)|
      && e.x == After(i, s.x)
      && e.sum + Strengths(t, e.cycles) == s.sum + Strengths(During(i, s.x) + t, s.cycles)
  {
    TickAligned(s);
    assert ([s.x] + t)[1..] == t;
    if i.Addx? {
      TickAligned(Tick(s));
      assert ([s.x, s.x] + t)[1..] == [s.x] + t;
    }
  }

  lemma {:induction false} RunMatchesTrace(s: Cpu, prog: seq<Instr>)
    requires Aligned(s)
    ensures var e := Run(s, prog); var t := Trace(prog, s.x);
      && e.cycles == s.cycles + |t|
      && e.sum == s.sum + Strengths(t, s.cycles)
      && e.x == s.x + AddxTotal(prog)
      && Aligned(e)
    decreases |prog|
  {
    if |prog| == 0 {
    } else {
      hide *;
      var rest := prog[1..];
      var t := Trace(rest, After(prog[0], s.x));
      StepMatches(s, prog[0], t);
      var e := Step(s, prog[0]);
      RunMatchesTrace(e, rest);
      RunCons(s, prog);
      TraceCons(prog, s.x);
      AddxTotalCons(prog);
      AfterShift(prog[0], s.x);
    }
  }

  lemma {:induction false} TraceLength(prog: seq<Instr>, x: int)
    ensures |Trace(prog, x)| == Cycles(prog)
    decreases |prog|
  {
    if |prog| > 0 {
      TraceLength(prog[1..], if prog[0].Addx? then x + prog[0].v else x);
    }
  }

  /**
   * From the start state the program's sum is the sum over the sampled
   * cycles of cycle times X during that cycle; it runs one cycle per noop
   * and two per addx, and X ends as 1 plus the addx values.
   */
  lemma SignalStrengthSum(prog: seq<Instr>)
    ensures var e := Run(Start(), prog);
      && e.sum == Strengths(Trace(prog, 1), 0)
      && e.cycles == Cycles(prog)
      && e.x == 1 + AddxTotal(prog)
  {
    RunMatchesTrace(Start(), prog);
    TraceLength(prog, 1);
  }
}
