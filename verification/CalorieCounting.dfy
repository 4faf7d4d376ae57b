/**
 * 2022 day 1: the calorie lines of each elf are summed, a blank line ends
 * an elf, the totals are sorted from largest down, and the answers are
 * the largest total and the sum of the three largest.
 */
module CalorieCounting {
  import opened Common

  /** One input line: blank, or the number `stoi` reads from it. */
  datatype Line = Blank | Calories(amount: int)

  /**
   * The reading loop from a running sum: a number adds to the sum, a blank
   * line pushes the sum and starts again from 0.  A sum still open when the
   * lines run out is not pushed.
   */
  function Totals(lines: seq<Line>, sum: int): seq<int>
  {
    if |lines| == 0 then []
    else match lines[0]
      case Blank => [sum] + Totals(lines[1..], 0)
      case Calories(n) => Totals(lines[1..], sum + n)
  }

  /**
   * The totals the program collects.  The read that fails at the end of the
   * file leaves the line empty, so it closes the last elf like a blank line.
   */
  function ElfTotals(lines: seq<Line>): seq<int>
  {
    Totals(lines + [Blank], 0)
  }

  function Amounts(run: seq<Line>): (r: seq<int>)
    requires forall k :: 0 <= k < |run| ==> run[k].Calories?
    ensures |r| == |run| && forall k :: 0 <= k < |run| ==> r[k] == run[k].amount
  {
    if |run| == 0 then [] else [run[0].amount] + Amounts(run[1..])
  }

  /** Sum from the front, the order the loop adds in. */
  function SumFront(s: seq<int>): int
  {
    if |s| == 0 then 0 else s[0] + SumFront(s[1..])
  }

  /** A run of number lines adds up into the open sum, and the blank after it pushes that sum. */
  lemma {:induction false} TotalsOfRun(run: seq<Line>, rest: seq<Line>, sum: int)
    requires forall k :: 0 <= k < |run| ==> run[k].Calories?
    ensures Totals(run + [Blank] + rest, sum) == [sum + SumFront(Amounts(run))] + Totals(rest, 0)
    decreases |run|
  {
    if |run| == 0 {
      assert run + [Blank] + rest == [Blank] + rest;
    } else {
      assert (run + [Blank] + rest)[1..] == run[1..] + [Blank] + rest;
      TotalsOfRun(run[1..], rest, sum + run[0].amount);
      assert Amounts(run)[1..] == Amounts(run[1..]);
    }
  }

  /** One total per blank line: the number of elves is one more than the number of blank lines. */
  lemma {:induction false} TotalsCount(lines: seq<Line>, sum: int)
    ensures |Totals(lines, sum)| == Count(lines, Blank)
    decreases |lines|
  {
    if |lines| > 0 {
      TotalsCount(lines[1..], if lines[0].Blank? then 0 else sum + lines[0].amount);
      CountAppend([lines[0]], lines[1..], Blank);
      assert [lines[0]] + lines[1..] == lines;
      assert Count([lines[0]], Blank) == Count([], Blank) + (if lines[0] == Blank then 1 else 0);
    }
  }

  lemma ElfTotalsCount(lines: seq<Line>)
    ensures |ElfTotals(lines)| == Count(lines, Blank) + 1
  {
    TotalsCount(lines + [Blank], 0);
    CountAppend(lines, [Blank], Blank);
    assert Count([Blank], Blank) == Count([], Blank) + 1;
  }

  // ---------------------------------------------------------------------
  // Sorting from largest down

  predicate Descending(s: seq<int>)
  {
    forall i, j :: 0 <= i < j < |s| ==> s[i] >= s[j]
  }

  /** Puts `x` into a descending sequence at its place. */
  function Insert(x: int, s: seq<int>): (r: seq<int>)
    requires Descending(s)
    ensures Descending(r)
    ensures multiset(r) == multiset(s) + multiset{x}
    ensures |r| == |s| + 1
  {
    if |s| == 0 then [x]
    else if x >= s[0] then [x] + s
    else
      var t := Insert(x, s[1..]);
      assert s == [s[0]] + s[1..];
      PrependDescending(s[0], t, s[1..], x);
      [s[0]] + t
  }

  /** A value no smaller than `x` and the elements of `rest` heads a descending sequence of them. */
  lemma PrependDescending(a: int, t: seq<int>, rest: seq<int>, x: int)
    requires Descending(t) && multiset(t) == multiset(rest) + multiset{x}
    requires a >= x && forall k :: 0 <= k < |rest| ==> a >= rest[k]
    ensures Descending([a] + t)
  {
    forall k | 0 <= k < |t|
      ensures a >= t[k]
    {
      assert t[k] in multiset(t);
      if t[k] != x {
        assert t[k] in multiset(rest);
        var m :| 0 <= m < |rest| && rest[m] == t[k];
      }
    }
  }

  /** The totals in the order `sort` with `greater` leaves them. */
  function SortDescending(s: seq<int>): (r: seq<int>)
    ensures Descending(r)
    ensures multiset(r) == multiset(s)
    ensures |r| == |s|
  {
    if |s| == 0 then []
    else
      assert s == [s[0]] + s[1..];
      Insert(s[0], SortDescending(s[1..]))
  }

  /** Part 1: the first of the sorted totals. */
  function MostCalories(totals: seq<int>): int
    requires |totals| >= 1
  {
    SortDescending(totals)[0]
  }

  /** Part 2: the first three of the sorted totals; fewer than three elves is outside what the program handles. */
  function TopThreeCalories(totals: seq<int>): int
    requires |totals| >= 3
  {
    var s := SortDescending(totals);
    s[0] + s[1] + s[2]
  }

  /** Part 1 is the largest total: it is one of the totals and no total exceeds it. */
  lemma MostCaloriesIsMaximum(totals: seq<int>)
    requires |totals| >= 1
    ensures MostCalories(totals) in totals
    ensures forall k :: 0 <= k < |totals| ==> totals[k] <= MostCalories(totals)
  {
    var s := SortDescending(totals);
    assert s[0] in multiset(s);
    forall k | 0 <= k < |totals| ensures totals[k] <= s[0] {
      assert totals[k] in multiset(totals);
      var j :| 0 <= j < |s| && s[j] == totals[k];
    }
  }

  /**
   * Part 2 adds three of the totals, and every total it leaves out is at
   * most the smallest of the three.
   */
  lemma TopThreeCaloriesAreLargest(totals: seq<int>)
    requires |totals| >= 3
    ensures var s := SortDescending(totals);
      && multiset{s[0], s[1], s[2]} <= multiset(totals)
      && TopThreeCalories(totals) == s[0] + s[1] + s[2]
      && s[0] >= s[1] >= s[2]
      && forall k :: 3 <= k < |s| ==> s[k] <= s[2]
  {
    var s := SortDescending(totals);
    assert s == [s[0], s[1], s[2]] + s[3..];
    assert multiset(s) == multiset{s[0], s[1], s[2]} + multiset(s[3..]);
  }
}
