/**
 * 2022 day 5: stacks of crates drawn as rows of text, and instructions
 * `move n from a to b`.  Part 1's crane moves crates one at a time, so a
 * block lands reversed; part 2's crane moves the block at once and keeps
 * its order.  A stack is modelled as a sequence with its top at the end.
 */
module SupplyStack {
  import opened Common

  type Stack = seq<char>

  // ---------------------------------------------------------------------
  // Reading the drawing

  /**
   * `Tokenize`: the line is read four characters at a time and the second
   * of each group is kept.  Drawing lines are `[A] [B] [C]` padded with
   * spaces, so their length is one short of a multiple of four; for other
   * lengths the program reads characters the stream never delivered.
   */
  function Tokenize(line: string): (r: seq<char>)
    requires |line| % 4 == 3
    ensures 4 * |r| == |line| + 1
    ensures forall k :: 0 <= k < |r| ==> r[k] == line[4 * k + 1]
    decreases |line|
  {
    if |line| == 3 then [line[1]]
    else
      var rest := Tokenize(line[4..]);
      assert forall k :: 0 <= k < |rest| ==> rest[k] == line[4 * (k + 1) + 1];
      [line[1]] + rest
  }

  /** `ReadConfigurationFromStream` keeps every drawing row but the last, which only numbers the stacks. */
  function Configuration(rows: seq<seq<char>>): seq<seq<char>>
    requires |rows| >= 1
  {
    rows[..|rows| - 1]
  }

  predicate Rectangular(config: seq<seq<char>>)
  {
    |config| >= 1 && forall r :: 0 <= r < |config| ==> |config[r]| == |config[0]|
  }

  /** Column `c` read from the bottom row up, spaces skipped: the pushes that build stack `c`. */
  function ColumnUp(config: seq<seq<char>>, c: nat, rows: nat): (s: Stack)
    requires rows <= |config| && forall r :: 0 <= r < |config| ==> c < |config[r]|
    ensures forall k :: 0 <= k < |s| ==> s[k] != ' '
    decreases rows
  {
    if rows == 0 then []
    else
      var r := rows - 1;
      (if config[r][c] != ' ' then [config[r][c]] else []) + ColumnUp(config, c, r)
  }

  /** `ConvertConfigurationVectorToVectorStack`: one stack per column of the first row. */
  function Stacks(config: seq<seq<char>>): (stacks: seq<Stack>)
    requires Rectangular(config)
    ensures |stacks| == |config[0]|
  {
    seq(|config[0]|, c requires 0 <= c < |config[0]| => ColumnUp(config, c, |config|))
  }

  /** A crate drawn at the top of a column with nothing but spaces above it is on top of that stack. */
  lemma {:induction false} StackTop(config: seq<seq<char>>, c: nat, r: nat)
    requires Rectangular(config) && c < |config[0]| && r < |config|
    requires config[r][c] != ' ' && forall r' :: 0 <= r' < r ==> config[r'][c] == ' '
    ensures |Stacks(config)[c]| >= 1 && Stacks(config)[c][|Stacks(config)[c]| - 1] == config[r][c]
  {
    AboveIsSpace(config, c, r, r);
    assert Stacks(config)[c] == ColumnUp(config, c, |config|);
    TopAt(config, c, r, |config|);
  }

  lemma {:induction false} AboveIsSpace(config: seq<seq<char>>, c: nat, r: nat, rows: nat)
    requires Rectangular(config) && c < |config[0]| && rows <= r < |config|
    requires forall r' :: 0 <= r' < r ==> config[r'][c] == ' '
    ensures ColumnUp(config, c, rows) == []
    decreases rows
  {
    if rows > 0 {
      AboveIsSpace(config, c, r, rows - 1);
    }
  }

  lemma {:induction false} TopAt(config: seq<seq<char>>, c: nat, r: nat, rows: nat)
    requires Rectangular(config) && c < |config[0]| && r < rows <= |config|
    requires config[r][c] != ' ' && ColumnUp(config, c, r) == []
    ensures |ColumnUp(config, c, rows)| >= 1 && ColumnUp(config, c, rows)[|ColumnUp(config, c, rows)| - 1] == config[r][c]
    decreases rows
  {
    if rows - 1 > r {
      TopAt(config, c, r, rows - 1);
    }
  }

  // ---------------------------------------------------------------------
  // Moving crates

  /** How many crates a move takes: `n`, but no more than the stack holds and none for `n <= 0`. */
  function Taken(n: int, src: Stack): (k: nat)
    ensures k <= |src|
    ensures n <= 0 ==> k == 0
    ensures 0 < n <= |src| ==> k == n
    ensures n > |src| ==> k == |src|
  {
    if n <= 0 then 0 else if n <= |src| then n else |src|
  }

  function Reverse(s: seq<char>): (r: seq<char>)
    ensures |r| == |s|
    ensures forall k :: 0 <= k < |s| ==> r[k] == s[|s| - 1 - k]
    ensures multiset(r) == multiset(s)
  {
    if |s| == 0 then []
    else
      assert s == [s[0]] + s[1..];
      Reverse(s[1..]) + [s[0]]
  }

  /** The order in which a lifted block lands: reversed in part 1, as it was in part 2. */
  function Placed(block: seq<char>, part2: bool): (r: seq<char>)
    ensures multiset(r) == multiset(block)
  {
    if part2 then block else Reverse(block)
  }

  lemma PlacedDef(block: seq<char>)
    ensures Placed(block, false) == Reverse(block) && Placed(block, true) == block
  {
  }

  /**
   * `MoveStackElemnts` on stacks `from` and `to` (0-based) of the list: the
   * top `k` crates come off `from` top first; part 1 pushes them in that
   * order, part 2 in the reverse order.  When `from == to` the crates go
   * back onto the stack they came from.
   */
  function Move(stacks: seq<Stack>, n: int, from: nat, to: nat, part2: bool): (r: seq<Stack>)
    requires from < |stacks| && to < |stacks|
    ensures |r| == |stacks|
    ensures from != to ==> r[from] == Remaining(stacks[from], n) && r[to] == stacks[to] + Placed(Lifted(stacks[from], n), part2)
    ensures from == to ==> r[from] == Remaining(stacks[from], n) + Placed(Lifted(stacks[from], n), part2)
    ensures forall i :: 0 <= i < |stacks| && i != from && i != to ==> r[i] == stacks[i]
  {
    var removed := stacks[from := Remaining(stacks[from], n)];
    removed[to := removed[to] + Placed(Lifted(stacks[from], n), part2)]
  }

  /** What is left of the source stack after a move of `n`. */
  function Remaining(src: Stack, n: int): (s: Stack)
  {
    src[..|src| - Taken(n, src)]
  }

  /** The crates a move of `n` lifts off the source, bottom to top. */
  function Lifted(src: Stack, n: int): (s: Stack)
    ensures Remaining(src, n) + s == src
  {
    var k := Taken(n, src);
    assert src == src[..|src| - k] + src[|src| - k..];
    src[|src| - k..]
  }

  function Crates(stacks: seq<Stack>): multiset<char>
  {
    if |stacks| == 0 then multiset{} else Crates(stacks[..|stacks| - 1]) + multiset(stacks[|stacks| - 1])
  }

  lemma CratesLast(stacks: seq<Stack>)
    requires |stacks| >= 1
    ensures Crates(stacks) == Crates(stacks[..|stacks| - 1]) + multiset(stacks[|stacks| - 1])
  {
  }

  lemma {:induction false} CratesUpdate(stacks: seq<Stack>, i: nat, s: Stack)
    requires i < |stacks|
    ensures Crates(stacks[i := s]) + multiset(stacks[i]) == Crates(stacks) + multiset(s)
    decreases |stacks|
  {
    hide *;
    var n := |stacks| - 1;
    var u := stacks[i := s];
    CratesLast(u);
    CratesLast(stacks);
    if i < n {
      var prefix := stacks[..n];
      assert u[..n] == prefix[i := s];
      assert prefix[i] == stacks[i];
      assert u[n] == stacks[n];
      CratesUpdate(prefix, i, s);
      var x, y, z, w, v := Crates(prefix[i := s]), multiset(stacks[n]), multiset(stacks[i]), Crates(prefix), multiset(s);
      assert x + z == w + v;
      assert Crates(u) == x + y;
      assert Crates(stacks) == w + y;
      assert (x + y) + z == (x + z) + y == (w + v) + y == (w + y) + v;
    } else {
      assert u[..n] == stacks[..n];
      assert u[n] == s;
    }
  }

  /** A move keeps every crate: what leaves the source lands on the destination. */
  lemma MoveKeepsCrates(stacks: seq<Stack>, n: int, from: nat, to: nat, part2: bool)
    requires from < |stacks| && to < |stacks|
    ensures Crates(Move(stacks, n, from, to, part2)) == Crates(stacks)
  {
    if from != to {
      MoveApartKeepsCrates(stacks, n, from, to, part2);
    } else {
      hide *;
      var src := stacks[from];
      var r := Move(stacks, n, from, to, part2);
      assert r[from] == Remaining(src, n) + Placed(Lifted(src, n), part2);
      assert r == stacks[from := r[from]];
      CratesUpdate(stacks, from, r[from]);
      assert multiset(r[from]) == multiset(src);
      MultisetCancel(Crates(r), Crates(stacks), multiset(src));
    }
  }

  lemma MoveApartKeepsCrates(stacks: seq<Stack>, n: int, from: nat, to: nat, part2: bool)
    requires from < |stacks| && to < |stacks| && from != to
    ensures Crates(Move(stacks, n, from, to, part2)) == Crates(stacks)
  {
    hide *;
    var src := stacks[from];
    var block := Lifted(src, n);
    var rest := Remaining(src, n);
    var r := Move(stacks, n, from, to, part2);
    var removed := stacks[from := rest];
    var mb, mr, t := multiset(block), multiset(rest), multiset(stacks[to]);
    assert Crates(removed) + mb == Crates(stacks) by {
      assert multiset(src) == mr + mb;
      CratesUpdate(stacks, from, rest);
      assert (Crates(removed) + mb) + mr == Crates(removed) + multiset(src) == Crates(stacks) + mr;
      MultisetCancel(Crates(removed) + mb, Crates(stacks), mr);
    }
    assert Crates(r) + t == Crates(removed) + (t + mb) by {
      assert r[to] == stacks[to] + Placed(block, part2);
      assert r == removed[to := r[to]];
      assert removed[to] == stacks[to];
      CratesUpdate(removed, to, r[to]);
    }
    assert Crates(r) + t == (Crates(removed) + mb) + t;
    MultisetCancel(Crates(r), Crates(stacks), t);
  }

  /** A move that takes nothing -- `n <= 0` or an empty source -- leaves the stacks as they were. */
  lemma MoveNothing(stacks: seq<Stack>, n: int, from: nat, to: nat, part2: bool)
    requires from < |stacks| && to < |stacks| && Taken(n, stacks[from]) == 0
    ensures Move(stacks, n, from, to, part2) == stacks
  {
    var src := stacks[from];
    assert Remaining(src, n) == src;
    assert Lifted(src, n) == [];
    var r := Move(stacks, n, from, to, part2);
    assert forall i :: 0 <= i < |stacks| ==> r[i] == stacks[i];
  }

  lemma ReverseAppend(a: seq<char>, b: seq<char>)
    ensures Reverse(a + b) == Reverse(b) + Reverse(a)
  {
    var l, r := Reverse(a + b), Reverse(b) + Reverse(a);
    assert |l| == |r|;
    forall k | 0 <= k < |l| ensures l[k] == r[k] {
      var j := |a| + |b| - 1 - k;
      assert l[k] == (a + b)[j];
      if k < |b| {
        assert (a + b)[j] == b[|b| - 1 - k] == Reverse(b)[k];
      } else {
        assert (a + b)[j] == a[|a| - 1 - (k - |b|)] == Reverse(a)[k - |b|];
      }
    }
  }

  lemma MoveOne(stacks: seq<Stack>, from: nat, to: nat)
    requires from < |stacks| && to < |stacks| && from != to && |stacks[from]| >= 1
    ensures var src := stacks[from];
      var one := Move(stacks, 1, from, to, false);
      one[from] == src[..|src| - 1] && one[to] == stacks[to] + [src[|src| - 1]]
  {
    var src := stacks[from];
    assert Lifted(src, 1) == [src[|src| - 1]];
    assert Reverse([src[|src| - 1]]) == [src[|src| - 1]];
  }

  lemma SlicesDef(src: Stack, n: int)
    ensures Remaining(src, n) == src[..|src| - Taken(n, src)] && Lifted(src, n) == src[|src| - Taken(n, src)..]
  {
  }

  lemma ReverseLast(block: seq<char>)
    requires |block| >= 1
    ensures Reverse(block) == [block[|block| - 1]] + Reverse(block[..|block| - 1])
  {
    var lower := block[..|block| - 1];
    assert block == lower + [block[|block| - 1]];
    ReverseAppend(lower, [block[|block| - 1]]);
    assert Reverse([block[|block| - 1]]) == [block[|block| - 1]];
  }

  /** Taking one crate off first leaves the same stack behind and lifts the rest of the block. */
  lemma BlockSplit(src: Stack, n: int)
    requires n >= 1 && |src| >= 1
    ensures var rest := src[..|src| - 1];
      var block := Lifted(src, n);
      && Remaining(rest, n - 1) == Remaining(src, n)
      && |block| >= 1 && block[|block| - 1] == src[|src| - 1]
      && Lifted(rest, n - 1) == block[..|block| - 1]
  {
    hide *;
    var rest := src[..|src| - 1];
    var k := Taken(n, src);
    assert Taken(n - 1, rest) == k - 1;
    SlicesDef(src, n);
    SlicesDef(rest, n - 1);
    assert rest[..|rest| - (k - 1)] == src[..|src| - k];
    assert rest[|rest| - (k - 1)..] == src[|src| - k..][..k - 1];
  }

  /** Part 1: a move of `n >= 1` crates is one crate moved, then `n - 1` more. */
  lemma MoveFirstCrate(stacks: seq<Stack>, n: int, from: nat, to: nat)
    requires from < |stacks| && to < |stacks| && from != to && n >= 1 && |stacks[from]| >= 1
    ensures Move(stacks, n, from, to, false) == Move(Move(stacks, 1, from, to, false), n - 1, from, to, false)
  {
    hide *;
    var src := stacks[from];
    var top := src[|src| - 1];
    var rest := src[..|src| - 1];
    var one := Move(stacks, 1, from, to, false);
    var r1 := Move(stacks, n, from, to, false);
    var r2 := Move(one, n - 1, from, to, false);
    assert r1[from] == r2[from] && r1[to] == r2[to] by {
      MoveOne(stacks, from, to);
      BlockSplit(src, n);
      ReverseLast(Lifted(src, n));
      var lower := Reverse(Lifted(rest, n - 1));
      PlacedDef(Lifted(src, n));
      PlacedDef(Lifted(rest, n - 1));
      assert r1[to] == stacks[to] + ([top] + lower);
      assert r2[to] == (stacks[to] + [top]) + lower;
    }
    assert |r1| == |r2|;
    assert forall i :: 0 <= i < |stacks| ==> r1[i] == r2[i];
  }

  /** `n` moves of one crate each. */
  function MoveTimes(stacks: seq<Stack>, n: nat, from: nat, to: nat): (r: seq<Stack>)
    requires from < |stacks| && to < |stacks|
    ensures |r| == |stacks|
    decreases n
  {
    if n == 0 then stacks else MoveTimes(Move(stacks, 1, from, to, false), n - 1, from, to)
  }

  lemma MoveTimesNext(stacks: seq<Stack>, n: nat, from: nat, to: nat)
    requires from < |stacks| && to < |stacks|
    ensures n == 0 ==> MoveTimes(stacks, n, from, to) == stacks
    ensures n > 0 ==> MoveTimes(stacks, n, from, to) == MoveTimes(Move(stacks, 1, from, to, false), n - 1, from, to)
  {
  }

  /** Part 1's crane: a move of `n` crates is `n` moves of one crate. */
  lemma {:induction false} OneAtATime(stacks: seq<Stack>, n: nat, from: nat, to: nat)
    requires from < |stacks| && to < |stacks| && from != to
    ensures Move(stacks, n, from, to, false) == MoveTimes(stacks, n, from, to)
    decreases n
  {
    hide *;
    MoveTimesNext(stacks, n, from, to);
    if n == 0 {
      MoveNothing(stacks, n, from, to, false);
    } else if |stacks[from]| == 0 {
      MoveNothing(stacks, n, from, to, false);
      MoveNothing(stacks, 1, from, to, false);
      OneAtATime(stacks, n - 1, from, to);
      MoveNothing(stacks, n - 1, from, to, false);
    } else {
      var one := Move(stacks, 1, from, to, false);
      OneAtATime(one, n - 1, from, to);
      MoveFirstCrate(stacks, n, from, to);
    }
  }

  /**
   * What lands on the destination sits above its old crates: the lifted
   * block in its own order for part 2, reversed for part 1.
   */
  lemma CraneOrders(stacks: seq<Stack>, n: int, from: nat, to: nat, part2: bool)
    requires from < |stacks| && to < |stacks| && from != to
    ensures var r := Move(stacks, n, from, to, part2);
      var d := |stacks[to]|;
      && |r[to]| == d + Taken(n, stacks[from])
      && r[to][..d] == stacks[to]
      && r[to][d..] == (if part2 then Lifted(stacks[from], n) else Reverse(Lifted(stacks[from], n)))
  {
    var r := Move(stacks, n, from, to, part2);
    PlacedDef(Lifted(stacks[from], n));
    SlicesDef(stacks[from], n);
    assert r[to] == stacks[to] + Placed(Lifted(stacks[from], n), part2);
  }

  /** Part 2's crane keeps the lifted block in order; with one crate the two cranes agree. */
  lemma CranesAgreeOnOne(stacks: seq<Stack>, from: nat, to: nat)
    requires from < |stacks| && to < |stacks|
    ensures Move(stacks, 1, from, to, false) == Move(stacks, 1, from, to, true)
  {
    var block := Lifted(stacks[from], 1);
    assert Reverse(block) == block;
  }

  // ---------------------------------------------------------------------
  // Running the instructions

  datatype Instruction = Instruction(n: int, from: int, to: int)

  /** Stacks are numbered from 1 in the instructions. */
  predicate InRange(ins: seq<Instruction>, count: nat)
  {
    forall k :: 0 <= k < |ins| ==> 1 <= ins[k].from <= count && 1 <= ins[k].to <= count
  }

  function Run(stacks: seq<Stack>, ins: seq<Instruction>, part2: bool): (r: seq<Stack>)
    requires InRange(ins, |stacks|)
    ensures |r| == |stacks|
    decreases |ins|
  {
    if |ins| == 0 then stacks
    else
      var n := |ins| - 1;
      var before := Run(stacks, ins[..n], part2);
      Move(before, ins[n].n, ins[n].from - 1, ins[n].to - 1, part2)
  }

  lemma RunNext(stacks: seq<Stack>, ins: seq<Instruction>, i: nat, part2: bool)
    requires InRange(ins, |stacks|) && i < |ins|
    ensures InRange(ins[..i], |stacks|) && InRange(ins[..i + 1], |stacks|)
    ensures Run(stacks, ins[..i + 1], part2) == Move(Run(stacks, ins[..i], part2), ins[i].n, ins[i].from - 1, ins[i].to - 1, part2)
  {
    assert ins[..i + 1][..i] == ins[..i];
  }

  /** Running the instructions never adds or loses a crate. */
  lemma {:induction false} RunKeepsCrates(stacks: seq<Stack>, ins: seq<Instruction>, part2: bool)
    requires InRange(ins, |stacks|)
    ensures Crates(Run(stacks, ins, part2)) == Crates(stacks)
    decreases |ins|
  {
    if |ins| > 0 {
      var n := |ins| - 1;
      assert InRange(ins[..n], |stacks|);
      RunKeepsCrates(stacks, ins[..n], part2);
      var before := Run(stacks, ins[..n], part2);
      MoveKeepsCrates(before, ins[n].n, ins[n].from - 1, ins[n].to - 1, part2);
    }
  }

  predicate AllNonEmpty(stacks: seq<Stack>)
  {
    forall k :: 0 <= k < |stacks| ==> |stacks[k]| >= 1
  }

  /** The crate on top of each stack, left to right. */
  function Tops(stacks: seq<Stack>): (s: string)
    requires AllNonEmpty(stacks)
    ensures |s| == |stacks|
    ensures forall k :: 0 <= k < |stacks| ==> s[k] == stacks[k][|stacks[k]| - 1]
  {
    seq(|stacks|, k requires 0 <= k < |stacks| => stacks[k][|stacks[k]| - 1])
  }

  /**
   * `ComputeSolution`: every instruction in order on a copy of the stacks,
   * then the top crates.  `top()` of an empty stack is undefined, so every
   * stack must end non-empty.
   */
  method ComputeSolution(stacks: seq<Stack>, ins: seq<Instruction>, part2: bool) returns (tops: string)
    requires InRange(ins, |stacks|)
    requires AllNonEmpty(Run(stacks, ins, part2))
    ensures tops == Tops(Run(stacks, ins, part2))
  {
    var s := stacks;
    var i := 0;
    assert InRange(ins[..0], |stacks|) && Run(stacks, ins[..0], part2) == stacks;
    while i < |ins|
      invariant 0 <= i <= |ins|
      invariant InRange(ins[..i], |stacks|)
      invariant s == Run(stacks, ins[..i], part2)
    {
      hide *;
      RunNext(stacks, ins, i, part2);
      s := Move(s, ins[i].n, ins[i].from - 1, ins[i].to - 1, part2);
      i := i + 1;
    }
    assert ins[..i] == ins;
    tops := TopCrates(s);
  }

  /** The loop that concatenates each stack's `top()`. */
  method TopCrates(s: seq<Stack>) returns (tops: string)
    requires AllNonEmpty(s)
    ensures tops == Tops(s)
  {
    tops := "";
    var k := 0;
    while k < |s|
      invariant 0 <= k <= |s|
      invariant |tops| == k && forall j :: 0 <= j < k ==> tops[j] == s[j][|s[j]| - 1]
    {
      tops := tops + [s[k][|s[k]| - 1]];
      k := k + 1;
    }
  }
}
