/**
 * 2024 day 9: a dense disk map of digits alternately gives the length of a
 * file and of the free space after it. Part 1 moves single file blocks into
 * the free space, part 2 moves whole files into the leftmost free span that
 * holds them; the answer is the checksum of the rearranged disk.
 */
module DiskFragmenter {
  import opened Common
  import opened Decimal

  /** One block of the disk: free, or part of the file with the given id. */
  datatype Block = Free | File(id: nat)

  // ---------------------------------------------------------------------------
  // The disk map
  // ---------------------------------------------------------------------------

  /** `n` copies of `b`. */
  function Blocks(n: nat, b: Block): (r: seq<Block>)
    ensures |r| == n && forall k :: 0 <= k < n ==> r[k] == b
  {
    seq(n, _ => b)
  }

  /** What the digit at position `p` stands for: file `p / 2` at even positions, free space at odd ones. */
  function Segment(p: nat, c: char): seq<Block>
    requires IsDigit(c)
  {
    Blocks(DigitValue(c), if p % 2 == 0 then File(p / 2) else Free)
  }

  /** The blocks a disk map describes, segment after segment. */
  function DiskMap(s: string): seq<Block>
    requires AllDigits(s)
  {
    if |s| == 0 then [] else DiskMap(s[..|s| - 1]) + Segment(|s| - 1, s[|s| - 1])
  }

  /**
   * Expanding the map one digit at a time, alternating between a file (whose
   * id then advances) and free space.
   */
  method ConvertStringToDiskMap(input: string) returns (m: seq<Block>)
    requires AllDigits(input)
    ensures m == DiskMap(input)
  {
    m := [];
    var isFree, fileId := false, 0;
    var k := 0;
    while k < |input|
      invariant 0 <= k <= |input|
      invariant isFree == (k % 2 == 1) && fileId == k / 2
      invariant m == DiskMap(input[..k])
    {
      assert input[..k + 1][..k] == input[..k];
      var count := DigitValue(input[k]);
      m := m + Blocks(count, if isFree then Free else File(fileId));
      fileId := fileId + (if isFree then 1 else 0);
      isFree := !isFree;
      k := k + 1;
    }
    assert input[..k] == input;
  }

  /** The values of the digits of `s`. */
  function DigitValues(s: string): (r: seq<int>)
    requires AllDigits(s)
    ensures |r| == |s|
  {
    seq(|s|, k requires 0 <= k < |s| => DigitValue(s[k]))
  }

  /** The disk is as long as the digits of its map add up to. */
  lemma {:induction false} DiskMapLength(s: string)
    requires AllDigits(s)
    ensures |DiskMap(s)| == Sum(DigitValues(s))
    decreases |s|
  {
    if |s| > 0 {
      var front := s[..|s| - 1];
      DiskMapLength(front);
      assert DigitValues(s) == DigitValues(front) + [DigitValue(s[|s| - 1])];
      SumAppend(DigitValues(front), [DigitValue(s[|s| - 1])]);
    }
  }

  lemma CountBlocks(n: nat, b: Block, x: Block)
    ensures Count(Blocks(n, b), x) == if b == x then n else 0
    decreases n
  {
    if n > 0 {
      assert Blocks(n, b)[..n - 1] == Blocks(n - 1, b);
      CountBlocks(n - 1, b, x);
    }
  }

  /** File `k` has as many blocks as the digit at position `2 k`. */
  lemma {:induction false} DiskMapFileBlocks(s: string, k: nat)
    requires AllDigits(s)
    ensures Count(DiskMap(s), File(k)) == if 2 * k < |s| then DigitValue(s[2 * k]) else 0
    decreases |s|
  {
    if |s| > 0 {
      var front, p := s[..|s| - 1], |s| - 1;
      DiskMapFileBlocks(front, k);
      CountAppend(DiskMap(front), Segment(p, s[p]), File(k));
      CountBlocks(DigitValue(s[p]), if p % 2 == 0 then File(p / 2) else Free, File(k));
      if 2 * k < p {
        assert front[2 * k] == s[2 * k];
      }
    }
  }

  /** The free digits: the odd positions of the map. */
  function FreeDigits(s: string): (r: seq<int>)
    requires AllDigits(s)
    ensures |r| == |s|
  {
    seq(|s|, k requires 0 <= k < |s| => if k % 2 == 1 then DigitValue(s[k]) else 0)
  }

  /** The free blocks add up to the digits at odd positions. */
  lemma {:induction false} DiskMapFreeBlocks(s: string)
    requires AllDigits(s)
    ensures Count(DiskMap(s), Free) == Sum(FreeDigits(s))
    decreases |s|
  {
    if |s| > 0 {
      var front, p := s[..|s| - 1], |s| - 1;
      DiskMapFreeBlocks(front);
      CountAppend(DiskMap(front), Segment(p, s[p]), Free);
      CountBlocks(DigitValue(s[p]), if p % 2 == 0 then File(p / 2) else Free, Free);
      assert FreeDigits(s) == FreeDigits(front) + [FreeDigits(s)[p]];
      SumAppend(FreeDigits(front), [FreeDigits(s)[p]]);
    }
  }

  // ---------------------------------------------------------------------------
  // The checksum
  // ---------------------------------------------------------------------------

  /** A block's file id, free space weighing nothing. */
  function Weight(b: Block): nat
  {
    if b.File? then b.id else 0
  }

  /** The sum of position times file id over the blocks. */
  function Checksum(m: seq<Block>): nat
  {
    if |m| == 0 then 0 else Checksum(m[..|m| - 1]) + (|m| - 1) * Weight(m[|m| - 1])
  }

  /** The checksum accumulated left to right. */
  method CalculateChecksum(m: seq<Block>) returns (sum: nat)
    ensures sum == Checksum(m)
  {
    sum := 0;
    var index := 0;
    while index < |m|
      invariant 0 <= index <= |m|
      invariant sum == Checksum(m[..index])
    {
      assert m[..index + 1][..index] == m[..index];
      if m[index].File? {
        sum := sum + index * m[index].id;
      }
      index := index + 1;
    }
    assert m[..index] == m;
  }

  /** Replacing block `k` by `b` changes the checksum by `k` times the change of weight. */
  lemma {:induction false} ChecksumUpdate(m: seq<Block>, k: nat, b: Block)
    requires k < |m|
    ensures Checksum(m[k := b]) == Checksum(m) - k * Weight(m[k]) + k * Weight(b)
    decreases |m|
  {
    var n := |m| - 1;
    if k < n {
      ChecksumUpdate(m[..n], k, b);
      assert m[k := b][..n] == m[..n][k := b];
    } else {
      assert m[k := b][..n] == m[..n];
    }
  }

  /** A disk without files has checksum zero. */
  lemma {:induction false} ChecksumAllFree(m: seq<Block>)
    requires forall k :: 0 <= k < |m| ==> m[k].Free?
    ensures Checksum(m) == 0
    decreases |m|
  {
    if |m| > 0 {
      ChecksumAllFree(m[..|m| - 1]);
    }
  }

  // ---------------------------------------------------------------------------
  // Part 1: moving single blocks
  // ---------------------------------------------------------------------------

  /** No file block follows a free block. */
  predicate Partitioned(r: seq<Block>)
  {
    forall i, j :: 0 <= i < j < |r| && r[i].Free? ==> r[j].Free?
  }

  /** The number of file blocks. */
  function FileCount(m: seq<Block>): nat
  {
    CountBound(m, Free);
    |m| - Count(m, Free)
  }

  /**
   * What `std::partition` promises on the disk, together with what its
   * two-ended scan gives: the same blocks, files first, and every file block
   * that already lies in the file region stays where it is.
   */
  predicate PartOneLayout(m: seq<Block>, r: seq<Block>)
  {
    |r| == |m| && multiset(r) == multiset(m) && Partitioned(r)
    && forall k :: 0 <= k < |m| && k < FileCount(m) && m[k].File? ==> r[k] == m[k]
  }

  lemma SwapMultiset(r: seq<Block>, i: nat, j: nat)
    requires i < j < |r|
    ensures multiset(r[i := r[j]][j := r[i]]) == multiset(r)
  {
    var s := r[i := r[j]][j := r[i]];
    assert r == r[..i] + [r[i]] + r[i + 1..j] + [r[j]] + r[j + 1..];
    assert s == r[..i] + [r[j]] + r[i + 1..j] + [r[i]] + r[j + 1..];
  }

  /** Files number exactly the length of the all-file prefix of a partitioned disk. */
  lemma FileCountSplit(r: seq<Block>, split: nat)
    requires split <= |r|
    requires forall k :: 0 <= k < split ==> r[k].File?
    requires forall k :: split <= k < |r| ==> r[k].Free?
    ensures FileCount(r) == split
  {
    assert r == r[..split] + r[split..];
    CountAppend(r[..split], r[split..], Free);
    CountBound(r[..split], Free);
    assert Free !in r[..split];
    CountAllOf(r[split..], Free);
  }

  lemma {:induction false} CountAllOf(s: seq<Block>, x: Block)
    requires forall k :: 0 <= k < |s| ==> s[k] == x
    ensures Count(s, x) == |s|
    decreases |s|
  {
    if |s| > 0 {
      CountAllOf(s[..|s| - 1], x);
    }
  }

  /** The first free block at or after `i`, or `|r|` when there is none. */
  function FirstFree(r: seq<Block>, i: nat): (j: nat)
    requires i <= |r|
    ensures i <= j <= |r| && (j < |r| ==> r[j].Free?)
    ensures forall k :: i <= k < j ==> r[k].File?
    decreases |r| - i
  {
    if i == |r| || r[i].Free? then i else FirstFree(r, i + 1)
  }

  /** The last file block before `n`, or -1 when there is none. */
  function LastFile(r: seq<Block>, n: nat): (j: int)
    requires n <= |r|
    ensures -1 <= j < n && (j >= 0 ==> r[j].File?)
    ensures forall k :: j < k < n ==> r[k].Free?
    decreases n
  {
    if n == 0 then -1 else if r[n - 1].File? then n - 1 else LastFile(r, n - 1)
  }

  /**
   * The part 1 layout the puzzle describes: while a free block lies before
   * a file block, the last file block moves into the first free block.
   */
  function FillGaps(r: seq<Block>): (s: seq<Block>)
    decreases LastFile(r, |r|) + 1
  {
    var i, j := FirstFree(r, 0), LastFile(r, |r|);
    if i < j then
      var t := r[i := r[j]][j := Free];
      assert t[j] == Free;
      FillGaps(t)
    else r
  }

  /**
   * `std::partition` as a two-ended scan: the front pointer passes file
   * blocks, the back pointer passes free blocks, and a free block in front is
   * swapped with a file block at the back.  This is the gap filling of the
   * puzzle.
   */
  method Partition(m: seq<Block>) returns (r: seq<Block>)
    ensures PartOneLayout(m, r)
    ensures r == FillGaps(m)
  {
    r := m;
    var first, last := 0, |m|;
    while first < last
      invariant Scanned(m, r, first, last)
      invariant FillGaps(r) == FillGaps(m)
      decreases last - first
    {
      if r[first].File? {
        first := first + 1;
      } else if r[last - 1].Free? {
        last := last - 1;
      } else {
        SwapStep(m, r, first, last);
        FillStep(m, r, first, last);
        r := r[first := r[last - 1]][last - 1 := r[first]];
        first, last := first + 1, last - 1;
      }
    }
    PartitionDone(m, r, first);
    FillDone(m, r, first);
  }

  /** On `12101` the last file fills the first gap, giving checksum 4. */
  lemma FillGapsExample()
    ensures FillGaps([File(0), Free, Free, File(1), File(2)]) == [File(0), File(2), File(1), Free, Free]
    ensures Checksum([File(0), File(2), File(1), Free, Free]) == 4
  {
    var r := [File(0), Free, Free, File(1), File(2)];
    assert FirstFree(r, 0) == 1 && LastFile(r, 5) == 4;
    var t := [File(0), File(2), Free, File(1), Free];
    assert r[1 := r[4]][4 := Free] == t;
    assert FirstFree(t, 0) == 2 && LastFile(t, 5) == 3;
    var u := [File(0), File(2), File(1), Free, Free];
    assert t[2 := t[3]][3 := Free] == u;
    assert FirstFree(u, 0) == 3 && LastFile(u, 5) == 2;
    assert u[..1] == [File(0)] && [File(0)][..0] == [];
    assert u[..2][..1] == u[..1] && u[..3][..2] == u[..2] && u[..4][..3] == u[..3] && u[..5][..4] == u[..4];
    assert Checksum(u[..2]) == 2;
    assert Checksum(u[..3]) == 4;
    assert u[..5] == u;
  }

  /** A swap of the scan is one move of the gap filling. */
  lemma FillStep(m: seq<Block>, r: seq<Block>, first: int, last: int)
    requires Scanned(m, r, first, last) && first < last
    requires r[first].Free? && r[last - 1].File?
    ensures FillGaps(r) == FillGaps(r[first := r[last - 1]][last - 1 := r[first]])
  {
    var i, j := FirstFree(r, 0), LastFile(r, |r|);
    assert i == first && j == last - 1;
  }

  /** Once the scan indices meet there is no gap left to fill. */
  lemma FillDone(m: seq<Block>, r: seq<Block>, split: int)
    requires Scanned(m, r, split, split)
    ensures FillGaps(r) == r
  {
    var i, j := FirstFree(r, 0), LastFile(r, |r|);
    assert !(i < j);
  }

  /** Invariant of the scan in `Partition`. */
  predicate Scanned(m: seq<Block>, r: seq<Block>, first: int, last: int)
  {
    0 <= first <= last <= |m| && |r| == |m| && multiset(r) == multiset(m)
    && (forall k :: 0 <= k < first ==> r[k].File?)
    && (forall k :: last <= k < |r| ==> r[k].Free?)
    && (forall k :: first <= k < last ==> r[k] == m[k])
    && (forall k :: 0 <= k < first && m[k].File? ==> r[k] == m[k])
  }

  /** Swapping a free block in front with a file block at the back keeps the scan's invariant. */
  lemma SwapStep(m: seq<Block>, r: seq<Block>, first: int, last: int)
    requires Scanned(m, r, first, last) && first < last
    requires r[first].Free? && r[last - 1].File?
    ensures Scanned(m, r[first := r[last - 1]][last - 1 := r[first]], first + 1, last - 1)
  {
    var t := r[first := r[last - 1]][last - 1 := r[first]];
    SwapMultiset(r, first, last - 1);
    assert t[first] == r[last - 1] && t[last - 1] == r[first];
    assert forall k :: 0 <= k < |t| && k != first && k != last - 1 ==> t[k] == r[k];
    assert m[first] == r[first];
  }

  lemma PartitionDone(m: seq<Block>, r: seq<Block>, split: nat)
    requires Scanned(m, r, split, split)
    ensures PartOneLayout(m, r)
  {
    FileCountSplit(r, split);
    MultisetCount(r, Free);
    MultisetCount(m, Free);
  }

  /** Part 1: the checksum once every file block has moved in front of the free space. */
  method Day9Part1(input: string) returns (sum: nat)
    requires AllDigits(input)
    ensures exists r :: PartOneLayout(DiskMap(input), r) && sum == Checksum(r)
    ensures sum == Checksum(FillGaps(DiskMap(input)))
  {
    var m := ConvertStringToDiskMap(input);
    var r := Partition(m);
    sum := CalculateChecksum(r);
  }

  // ---------------------------------------------------------------------------
  // Part 2: moving whole files
  // ---------------------------------------------------------------------------

  /**
   * `[start, start + n)` is the maximal run of the last file block at or
   * before `idx`, and only free blocks follow it up to `idx`.
   */
  predicate LastFileRun(m: seq<Block>, idx: int, start: int, n: int)
  {
    0 <= start && n >= 1 && start + n - 1 <= idx < |m|
    && m[start + n - 1].File?
    && (forall k :: start <= k < start + n ==> m[k] == m[start + n - 1])
    && (start == 0 || m[start - 1] != m[start])
    && (forall k :: start + n <= k <= idx ==> m[k].Free?)
  }

  /** Scanning left from `index`: past the free blocks, then past the blocks of one file. */
  method ReverseFindFileBlock(m: seq<Block>, index: int) returns (start: int, n: int)
    requires 0 <= index < |m|
    requires exists j :: 0 <= j <= index && m[j].File?
    ensures LastFileRun(m, index, start, n)
  {
    ghost var j :| 0 <= j <= index && m[j].File?;
    var idx := index;
    while idx >= 0 && m[idx].Free?
      invariant j <= idx <= index
      invariant forall k :: idx < k <= index ==> m[k].Free?
      decreases idx
    {
      idx := idx - 1;
    }
    var endIdx := idx;
    var fileId := m[idx].id;
    while idx >= 0 && m[idx] == File(fileId)
      invariant -1 <= idx <= endIdx
      invariant forall k :: idx < k <= endIdx ==> m[k] == File(fileId)
      decreases idx
    {
      idx := idx - 1;
    }
    start, n := idx + 1, endIdx - idx;
  }

  /** Blocks `[s, s + n)` are all free. */
  predicate AllFree(m: seq<Block>, s: int, n: int)
  {
    0 <= s && s + n <= |m| && forall k :: s <= k < s + n ==> m[k].Free?
  }

  /**
   * The first free run in `[first, last)`: file blocks up to `start`, then
   * `n` free blocks ending at `last` or at a file block; `start == last` and
   * `n == 0` when there is none.
   */
  method FindEmptyBlock(m: seq<Block>, first: int, last: int) returns (start: int, n: int)
    requires 0 <= first <= last <= |m|
    ensures first <= start <= start + n <= last && n >= 0
    ensures forall k :: first <= k < start ==> m[k].File?
    ensures AllFree(m, start, n)
    ensures start + n == last || m[start + n].File?
    ensures start < last ==> n >= 1
  {
    start := first;
    while start < last && m[start].File?
      invariant first <= start <= last
      invariant forall k :: first <= k < start ==> m[k].File?
    {
      start := start + 1;
    }
    var e := start;
    while e < last && m[e].Free?
      invariant start <= e <= last
      invariant forall k :: start <= k < e ==> m[k].Free?
    {
      e := e + 1;
    }
    n := e - start;
  }

  /**
   * The leftmost free run in `[first, last)` holding at least `size` blocks,
   * or `(-1, 0)` where no `size` free blocks in a row lie in the range.
   */
  method FindEmptyBlockIfSize(m: seq<Block>, first: int, last: int, size: int) returns (start: int, n: int)
    requires 0 <= first <= last <= |m| && size >= 1
    ensures start == -1 <==> forall s :: first <= s && s + size <= last ==> !AllFree(m, s, size)
    ensures start == -1 ==> n == 0
    ensures start != -1 ==>
      first <= start && size <= n && start + n <= last && AllFree(m, start, n)
      && (start + n == last || m[start + n].File?)
      && forall s :: first <= s < start && s + size <= last ==> !AllFree(m, s, size)
  {
    var idx := first;
    start, n := -1, 0;
    while idx < last
      invariant first <= idx <= last
      invariant forall s :: first <= s < idx && s + size <= last ==> !AllFree(m, s, size)
      decreases last - idx
    {
      var s0, n0 := FindEmptyBlock(m, idx, last);
      NoFitBefore(m, first, idx, s0, n0, last, size);
      if n0 >= size {
        assert AllFree(m, s0, size);
        start, n := s0, n0;
        return;
      }
      if n0 == 0 {
        assert s0 == last;
      }
      idx := s0 + n0;
    }
  }

  /**
   * After one `FindEmptyBlock` from `idx`: windows that start before the run
   * found hold a file block, and when the run is short so do the windows
   * starting inside it.
   */
  lemma NoFitBefore(m: seq<Block>, first: int, idx: int, s0: int, n0: int, last: int, size: int)
    requires 0 <= first <= idx <= s0 <= s0 + n0 <= last <= |m| && size >= 1
    requires forall s :: first <= s < idx && s + size <= last ==> !AllFree(m, s, size)
    requires forall k :: idx <= k < s0 ==> m[k].File?
    requires AllFree(m, s0, n0) && (s0 + n0 == last || m[s0 + n0].File?)
    ensures forall s :: first <= s < s0 && s + size <= last ==> !AllFree(m, s, size)
    ensures n0 < size ==> forall s :: first <= s < s0 + n0 && s + size <= last ==> !AllFree(m, s, size)
  {
    forall s | idx <= s < s0 && s + size <= last
      ensures !AllFree(m, s, size)
    {
      assert m[s].File?;
    }
    if n0 < size {
      forall s | s0 <= s < s0 + n0 && s + size <= last
        ensures !AllFree(m, s, size)
      {
        assert s < s0 + n0 < s + size;
        assert m[s0 + n0].File?;
      }
    }
  }

  /** The two disjoint ranges `[a, a + n)` and `[b, b + n)` exchanged block by block. */
  function SwapRanges(m: seq<Block>, a: nat, b: nat, n: nat): (r: seq<Block>)
    requires a + n <= |m| && b + n <= |m| && (a + n <= b || b + n <= a)
    ensures |r| == |m|
  {
    seq(|m|, k requires 0 <= k < |m| =>
      if a <= k < a + n then m[b + (k - a)] else if b <= k < b + n then m[a + (k - b)] else m[k])
  }

  /** Exchanging two ranges moves blocks without changing them. */
  lemma SwapRangesMultiset(m: seq<Block>, a: nat, b: nat, n: nat)
    requires a + n <= |m| && b + n <= a
    ensures multiset(SwapRanges(m, a, b, n)) == multiset(m)
  {
    var r := SwapRanges(m, a, b, n);
    var p, x, q, y, t := m[..b], m[b..b + n], m[b + n..a], m[a..a + n], m[a + n..];
    assert m == p + x + q + y + t;
    assert r == p + y + q + x + t;
  }

  /**
   * One step of part 2 from position `idx`: the last file at or before `idx`
   * moves into the leftmost run of free blocks in front of it that holds it,
   * if there is one.
   */
  method MoveFile(disk: seq<Block>, idx: int) returns (r: seq<Block>, start: int, n: int, target: int)
    requires 0 <= idx < |disk| && disk[0].File?
    ensures LastFileRun(disk, idx, start, n)
    ensures |r| == |disk| && multiset(r) == multiset(disk)
    ensures target == -1 ==> r == disk && forall s :: s + n <= start ==> !AllFree(disk, s, n)
    ensures target != -1 ==>
      AllFree(disk, target, n) && target + n <= start
      && (forall s :: 0 <= s < target ==> !AllFree(disk, s, n))
      && r == SwapRanges(disk, start, target, n)
    ensures r[0].File?
  {
    start, n := ReverseFindFileBlock(disk, idx);
    r, target := disk, -1;
    if n >= 1 {
      var emptyStart, emptyCount := FindEmptyBlockIfSize(disk, 0, start, n);
      if emptyCount >= n {
        SwapRangesMultiset(disk, start, emptyStart, n);
        r, target := SwapRanges(disk, start, emptyStart, n), emptyStart;
      } else {
        assert emptyStart == -1;
      }
    }
  }

  /** Two runs that both satisfy `LastFileRun` are the same run. */
  lemma LastFileRunUnique(m: seq<Block>, idx: int, s1: int, n1: int, s2: int, n2: int)
    requires LastFileRun(m, idx, s1, n1) && LastFileRun(m, idx, s2, n2)
    ensures s1 == s2 && n1 == n2
  {
    var e1, e2 := s1 + n1 - 1, s2 + n2 - 1;
    assert m[e1].File? && m[e2].File?;
    assert e1 == e2;
  }

  /** Going left from `e`, the run of `m[e]` that ends at `e` begins somewhere. */
  lemma {:induction false} RunStartExists(m: seq<Block>, e: int, k: int) returns (start: int)
    requires 0 <= k <= e < |m|
    requires forall i :: k <= i <= e ==> m[i] == m[e]
    ensures 0 <= start <= k
    ensures forall i :: start <= i <= e ==> m[i] == m[e]
    ensures start == 0 || m[start - 1] != m[start]
    decreases k
  {
    if k == 0 || m[k - 1] != m[k] {
      start := k;
    } else {
      start := RunStartExists(m, e, k - 1);
    }
  }

  /** With a file block at or before `idx` there is a last file run there. */
  lemma {:induction false} LastFileRunExists(m: seq<Block>, idx: int, j: int) returns (start: int, n: int)
    requires 0 <= j <= idx < |m| && m[j].File?
    ensures LastFileRun(m, idx, start, n)
    decreases idx
  {
    if m[idx].Free? {
      start, n := LastFileRunExists(m, idx - 1, j);
    } else {
      start := RunStartExists(m, idx, idx);
      n := idx - start + 1;
    }
  }

  lemma LastRunExists(m: seq<Block>, idx: int)
    requires 0 <= idx < |m| && m[0].File?
    ensures exists r: (int, int) :: LastFileRun(m, idx, r.0, r.1)
  {
    var s, n := LastFileRunExists(m, idx, 0);
    assert LastFileRun(m, idx, (s, n).0, (s, n).1);
  }

  /** The run `ReverseFindFileBlock` finds, picked by its specification. */
  ghost function LastRun(m: seq<Block>, idx: int): (r: (int, int))
    requires 0 <= idx < |m| && m[0].File?
    ensures LastFileRun(m, idx, r.0, r.1)
  {
    LastRunExists(m, idx);
    var r: (int, int) :| LastFileRun(m, idx, r.0, r.1);
    r
  }

  /** The leftmost `s` from `from` on with `n` free blocks at `s` ending by `limit`, or -1. */
  function FirstFit(m: seq<Block>, from: nat, limit: int, n: nat): (t: int)
    ensures t == -1 <==> forall s :: from <= s && s + n <= limit ==> !AllFree(m, s, n)
    ensures t != -1 ==>
      from <= t && t + n <= limit && AllFree(m, t, n) && forall s :: from <= s < t ==> !AllFree(m, s, n)
    decreases limit - from
  {
    if from + n > limit then -1
    else if AllFree(m, from, n) then from
    else FirstFit(m, from + 1, limit, n)
  }

  /**
   * One step of part 2 as a reference: the last file at or before `idx`
   * moves into the leftmost free run in front of it that holds it, if any;
   * the scan goes on just before where the file was.
   */
  ghost function CompactStep(m: seq<Block>, idx: int): (r: (seq<Block>, int))
    requires 0 <= idx < |m| && m[0].File?
    ensures |r.0| == |m| && r.0[0].File? && multiset(r.0) == multiset(m)
    ensures -1 <= r.1 < idx
  {
    var (start, n) := LastRun(m, idx);
    var t := FirstFit(m, 0, start, n);
    if t == -1 then (m, start - 1)
    else
      assert t > 0 && start > 0 by {
        assert m[0].File? && n >= 1;
      }
      SwapRangesMultiset(m, start, t, n);
      (SwapRanges(m, start, t, n), start - 1)
  }

  /** Part 2 as a reference: `CompactStep` from `idx` down until the scan passes the front. */
  ghost function Compact(m: seq<Block>, idx: int): (r: seq<Block>)
    requires -1 <= idx < |m| && (|m| > 0 ==> m[0].File?)
    decreases idx + 1
  {
    if idx < 0 then m
    else
      var (r, j) := CompactStep(m, idx);
      Compact(r, j)
  }

  /** Compacting only moves blocks: the disk keeps its size and its blocks. */
  lemma {:induction false} CompactPermutes(m: seq<Block>, idx: int)
    requires -1 <= idx < |m| && (|m| > 0 ==> m[0].File?)
    ensures |Compact(m, idx)| == |m| && multiset(Compact(m, idx)) == multiset(m)
    decreases idx + 1
  {
    if idx >= 0 {
      var (r, j) := CompactStep(m, idx);
      CompactPermutes(r, j);
    }
  }

  /** The leftmost fit `MoveFile` reports is the one `FirstFit` finds. */
  lemma FitIsTarget(disk: seq<Block>, start: int, n: int, target: int)
    requires target == -1 ==> forall s :: s + n <= start ==> !AllFree(disk, s, n)
    requires target != -1 ==>
      AllFree(disk, target, n) && target + n <= start && forall s :: 0 <= s < target ==> !AllFree(disk, s, n)
    requires n >= 0
    ensures FirstFit(disk, 0, start, n) == target
  {
    assert target != -1 ==> 0 <= target;
  }

  /** One `MoveFile` step is one step of `Compact`. */
  lemma MoveFileCompacts(disk: seq<Block>, idx: int, r: seq<Block>, start: int, n: int, target: int)
    requires 0 <= idx < |disk| && disk[0].File?
    requires LastFileRun(disk, idx, start, n)
    requires |r| == |disk| && r[0].File?
    requires target == -1 ==> r == disk && forall s :: s + n <= start ==> !AllFree(disk, s, n)
    requires target != -1 ==>
      AllFree(disk, target, n) && target + n <= start
      && (forall s :: 0 <= s < target ==> !AllFree(disk, s, n))
      && r == SwapRanges(disk, start, target, n)
    ensures Compact(disk, idx) == Compact(r, start - 1)
  {
    hide *;
    StepIsMove(disk, idx, r, start, n, target);
    CompactUnfold(disk, idx);
  }

  lemma CompactUnfold(m: seq<Block>, idx: int)
    requires 0 <= idx < |m| && m[0].File?
    ensures Compact(m, idx) == Compact(CompactStep(m, idx).0, CompactStep(m, idx).1)
  {
    hide CompactStep;
  }

  lemma StepIsMove(disk: seq<Block>, idx: int, r: seq<Block>, start: int, n: int, target: int)
    requires 0 <= idx < |disk| && disk[0].File?
    requires LastFileRun(disk, idx, start, n)
    requires target == -1 ==> r == disk && forall s :: s + n <= start ==> !AllFree(disk, s, n)
    requires target != -1 ==>
      AllFree(disk, target, n) && target + n <= start
      && (forall s :: 0 <= s < target ==> !AllFree(disk, s, n))
      && r == SwapRanges(disk, start, target, n)
    ensures CompactStep(disk, idx) == (r, start - 1)
  {
    var (s, k) := LastRun(disk, idx);
    LastFileRunUnique(disk, idx, s, k, start, n);
    FitIsTarget(disk, start, n, target);
    hide Compact, SwapRanges, AllFree, LastFileRun, LastRun, FirstFit;
  }

  /**
   * Part 2: the checksum once every file, from the last down, has had its
   * chance to move into the leftmost free run in front of it that holds it.
   */
  method Day9Part2(input: string) returns (sum: nat)
    requires AllDigits(input) && (|input| == 0 || input[0] != '0')
    ensures |input| > 0 ==> |DiskMap(input)| > 0 && DiskMap(input)[0].File?
    ensures sum == Checksum(Compact(DiskMap(input), |DiskMap(input)| - 1))
    ensures multiset(Compact(DiskMap(input), |DiskMap(input)| - 1)) == multiset(DiskMap(input))
  {
    var disk := ConvertStringToDiskMap(input);
    if |input| > 0 {
      LeadingFile(input);
    } else {
      assert |disk| == 0;
    }
    hide *;
    var moved := MoveFiles(disk);
    CompactPermutes(disk, |disk| - 1);
    sum := CalculateChecksum(moved);
  }

  /** The loop of `Day9Part2`: `MoveFile` from the last block down, each time before the file it looked at. */
  method MoveFiles(m: seq<Block>) returns (disk: seq<Block>)
    requires |m| > 0 ==> m[0].File?
    ensures disk == Compact(m, |m| - 1)
  {
    hide *;
    disk := m;
    var idx := |disk| - 1;
    while idx >= 0
      invariant -1 <= idx < |disk| && |disk| == |m|
      invariant |disk| > 0 ==> disk[0].File?
      invariant Compact(disk, idx) == Compact(m, |m| - 1)
      decreases idx + 1
    {
      var start, n, target;
      ghost var before := disk;
      disk, start, n, target := MoveFile(disk, idx);
      MoveFileCompacts(before, idx, disk, start, n, target);
      idx := start - 1;
    }
    CompactDone(disk);
  }

  lemma CompactDone(m: seq<Block>)
    requires |m| > 0 ==> m[0].File?
    ensures Compact(m, -1) == m
  {
  }

  /** A map whose first digit is not zero starts with a block of file 0. */
  lemma {:induction false} LeadingFile(s: string)
    requires AllDigits(s) && |s| > 0 && s[0] != '0'
    ensures |DiskMap(s)| > 0 && DiskMap(s)[0] == File(0)
    decreases |s|
  {
    if |s| == 1 {
      assert DiskMap(s) == DiskMap(s[..0]) + Segment(0, s[0]);
    } else {
      LeadingFile(s[..|s| - 1]);
      assert s[..|s| - 1][0] == s[0];
    }
  }
}
