/**
 * 2021 day 6: a lantern fish with timer `t` spawns on day `t + 1` and then
 * every 7 days, and a newborn starts at timer 8.  The program counts the
 * fish one initial fish becomes after a number of days by a memoised
 * recurrence; the model states that recurrence as a pure function and
 * proves it equal to a day-by-day simulation.
 */
module LanternFish {
  const NewbornTimer := 8
  const ResetTimer := 6
  const Cycle := ResetTimer + 1

  /** The fish a newborn (timer 8) becomes after `days` days, itself included. */
  function Newborn(days: int): (r: nat)
    ensures r >= 1
    decreases days, 1
  {
    if days <= NewbornTimer then 1 else 1 + Births(NewbornTimer + 1, days)
  }

  /** The fish descended from the newborns of days `first`, `first + 7`, ... up to `days`. */
  function Births(first: int, days: int): nat
    requires first >= 1
    decreases days - first + 1, 0
  {
    if first > days then 0 else Newborn(days - first) + Births(first + Cycle, days)
  }

  /**
   * The recurrence of `LanterFishUtility_REC`: one fish when the days do not
   * reach past the timer, else itself plus the offspring of each spawning
   * day.  Timers are the non-negative values of the puzzle input.
   */
  function FishCount(timer: int, days: int): (r: nat)
    requires timer >= 0
    ensures r >= 1
    ensures days <= timer ==> r == 1
  {
    if days <= timer then 1 else 1 + Births(timer + 1, days)
  }

  /** The total over the initial fish, at least one per fish. */
  function CalculateFishCountAfterNDays(timers: seq<int>, n: int): (r: nat)
    requires forall k :: 0 <= k < |timers| ==> timers[k] >= 0
    ensures r >= |timers|
  {
    if |timers| == 0 then 0 else FishCount(timers[0], n) + CalculateFishCountAfterNDays(timers[1..], n)
  }

  // ---------------------------------------------------------------------
  // Reference: the school simulated day by day

  /** One day: a fish at 0 resets to 6 and a newborn at 8 joins; every other fish counts down. */
  function Day(school: seq<int>): seq<int>
  {
    if |school| == 0 then []
    else (if school[0] == 0 then [ResetTimer, NewbornTimer] else [school[0] - 1]) + Day(school[1..])
  }

  function Simulate(school: seq<int>, days: nat): seq<int>
    decreases days
  {
    if days == 0 then school else Simulate(Day(school), days - 1)
  }

  predicate NonNegative(school: seq<int>)
  {
    forall k :: 0 <= k < |school| ==> school[k] >= 0
  }

  lemma {:induction false} DayAppend(a: seq<int>, b: seq<int>)
    ensures Day(a + b) == Day(a) + Day(b)
    decreases |a|
  {
    if |a| == 0 {
      assert a + b == b;
    } else {
      assert (a + b)[1..] == a[1..] + b;
      DayAppend(a[1..], b);
    }
  }

  lemma {:induction false} SimulateAppend(a: seq<int>, b: seq<int>, days: nat)
    ensures Simulate(a + b, days) == Simulate(a, days) + Simulate(b, days)
    decreases days
  {
    if days > 0 {
      DayAppend(a, b);
      SimulateAppend(Day(a), Day(b), days - 1);
    }
  }

  lemma {:induction false} SimulateEmpty(days: nat)
    ensures Simulate([], days) == []
    decreases days
  {
    if days > 0 {
      SimulateEmpty(days - 1);
    }
  }

  /** Spawning days moved `s` earlier against `s` days fewer give the same offspring. */
  lemma {:induction false} BirthsShift(first: int, days: int, s: int)
    requires first >= 1 && first - s >= 1
    ensures Births(first, days) == Births(first - s, days - s)
    decreases days - first + 1
  {
    if first <= days {
      BirthsShift(first + Cycle, days, s);
    }
  }

  /** A fish at 0 about to spawn: after one more day it is a fish at 6 and a newborn. */
  lemma FishCountAtZero(days: int)
    requires days >= 1
    ensures FishCount(0, days) == FishCount(ResetTimer, days - 1) + Newborn(days - 1)
  {
    BirthsShift(1 + Cycle, days, 1);
  }

  /** A fish with a positive timer counts the same as one with the next lower timer a day later. */
  lemma FishCountCountDown(timer: int, days: int)
    requires timer >= 1 && days >= 1
    ensures FishCount(timer, days) == FishCount(timer - 1, days - 1)
  {
    if days > timer {
      BirthsShift(timer + 1, days, 1);
    }
  }

  /**
   * The recurrence counts exactly the fish that the day-by-day simulation
   * produces from one fish with that timer.
   */
  lemma {:induction false} FishCountIsSimulation(timer: int, days: nat)
    requires timer >= 0
    ensures FishCount(timer, days) == |Simulate([timer], days)|
    decreases days
  {
    if days > 0 {
      if timer == 0 {
        assert Day([0]) == [ResetTimer] + [NewbornTimer];
        SimulateAppend([ResetTimer], [NewbornTimer], days - 1);
        FishCountIsSimulation(ResetTimer, days - 1);
        FishCountIsSimulation(NewbornTimer, days - 1);
        FishCountAtZero(days);
      } else {
        assert Day([timer]) == [timer - 1];
        FishCountIsSimulation(timer - 1, days - 1);
        FishCountCountDown(timer, days);
      }
    }
  }

  /** The program's total is the size of the simulated school. */
  lemma {:induction false} TotalIsSimulation(timers: seq<int>, n: nat)
    requires NonNegative(timers)
    ensures CalculateFishCountAfterNDays(timers, n) == |Simulate(timers, n)|
    decreases |timers|
  {
    if |timers| == 0 {
      SimulateEmpty(n);
    } else {
      assert timers == [timers[0]] + timers[1..];
      SimulateAppend([timers[0]], timers[1..], n);
      FishCountIsSimulation(timers[0], n);
      TotalIsSimulation(timers[1..], n);
    }
  }
}
