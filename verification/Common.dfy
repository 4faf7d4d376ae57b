/**
 * Shared vocabulary for the puzzle models: an optional value for
 * operations that throw or find nothing, sums and counts over sequences,
 * and the token splitting that `std::getline` with a delimiter performs.
 */
module Common {

  /** A value that may be absent: `None` stands for a thrown exception or "not found". */
  datatype Option<T> = None | Some(value: T)

  /** Sum of a sequence of integers, peeled from the back. */
  function Sum(s: seq<int>): int
  {
    if |s| == 0 then 0 else Sum(s[..|s| - 1]) + s[|s| - 1]
  }

  lemma {:induction false} SumAppend(a: seq<int>, b: seq<int>)
    ensures Sum(a + b) == Sum(a) + Sum(b)
    decreases |b|
  {
    if |b| == 0 {
      assert a + b == a;
    } else {
      assert (a + b)[..|a + b| - 1] == a + b[..|b| - 1];
      SumAppend(a, b[..|b| - 1]);
    }
  }

  lemma {:induction false} SumNonNegative(s: seq<int>)
    requires forall i :: 0 <= i < |s| ==> s[i] >= 0
    ensures Sum(s) >= 0
    decreases |s|
  {
    if |s| > 0 {
      SumNonNegative(s[..|s| - 1]);
    }
  }

  lemma {:induction false} SumMonotone(s: seq<int>, t: seq<int>)
    requires |s| == |t|
    requires forall i :: 0 <= i < |s| ==> s[i] <= t[i]
    ensures Sum(s) <= Sum(t)
    decreases |s|
  {
    if |s| > 0 {
      SumMonotone(s[..|s| - 1], t[..|t| - 1]);
    }
  }

  lemma {:induction false} SumZero(s: seq<int>)
    requires forall i :: 0 <= i < |s| ==> s[i] == 0
    ensures Sum(s) == 0
    decreases |s|
  {
    if |s| > 0 {
      SumZero(s[..|s| - 1]);
    }
  }

  /** Replacing one element changes the sum by the difference. */
  lemma SumUpdate(s: seq<int>, k: int, v: int)
    requires 0 <= k < |s|
    ensures Sum(s[k := v]) == Sum(s) - s[k] + v
  {
    assert s == s[..k] + [s[k]] + s[k + 1..];
    assert s[k := v] == s[..k] + [v] + s[k + 1..];
    SumAppend(s[..k] + [s[k]], s[k + 1..]);
    SumAppend(s[..k], [s[k]]);
    SumAppend(s[..k] + [v], s[k + 1..]);
    SumAppend(s[..k], [v]);
    assert [v][..0] == [] && [s[k]][..0] == [];
  }

  /** Number of positions of `s` holding `x`. */
  function Count<T(==)>(s: seq<T>, x: T): nat
  {
    if |s| == 0 then 0 else Count(s[..|s| - 1], x) + (if s[|s| - 1] == x then 1 else 0)
  }

  lemma {:induction false} CountAppend<T>(a: seq<T>, b: seq<T>, x: T)
    ensures Count(a + b, x) == Count(a, x) + Count(b, x)
    decreases |b|
  {
    if |b| == 0 {
      assert a + b == a;
    } else {
      assert (a + b)[..|a + b| - 1] == a + b[..|b| - 1];
      CountAppend(a, b[..|b| - 1], x);
    }
  }

  lemma {:induction false} CountBound<T>(s: seq<T>, x: T)
    ensures Count(s, x) <= |s|
    ensures Count(s, x) == 0 <==> x !in s
    decreases |s|
  {
    if |s| > 0 {
      CountBound(s[..|s| - 1], x);
      assert s == s[..|s| - 1] + [s[|s| - 1]];
    }
  }

  /** Replacing one element moves one occurrence from the old value to the new. */
  lemma CountUpdate<T>(s: seq<T>, k: int, v: T, x: T)
    requires 0 <= k < |s|
    ensures Count(s[k := v], x) == Count(s, x) - (if s[k] == x then 1 else 0) + (if v == x then 1 else 0)
  {
    assert s == s[..k] + [s[k]] + s[k + 1..];
    assert s[k := v] == s[..k] + [v] + s[k + 1..];
    CountAppend(s[..k] + [s[k]], s[k + 1..], x);
    CountAppend(s[..k], [s[k]], x);
    CountAppend(s[..k] + [v], s[k + 1..], x);
    CountAppend(s[..k], [v], x);
    assert [v][..0] == [] && [s[k]][..0] == [];
  }

  /** `Count` is the multiplicity in the multiset of the sequence. */
  lemma {:induction false} MultisetCount<T>(s: seq<T>, x: T)
    ensures multiset(s)[x] == Count(s, x)
    decreases |s|
  {
    if |s| > 0 {
      MultisetCount(s[..|s| - 1], x);
      assert s == s[..|s| - 1] + [s[|s| - 1]];
    }
  }

  /** `x` occurs at least twice exactly when two different positions hold it. */
  lemma {:induction false} CountTwice<T>(s: seq<T>, x: T)
    ensures Count(s, x) >= 2 <==> exists i, j :: 0 <= i < j < |s| && s[i] == x && s[j] == x
    decreases |s|
  {
    if |s| > 0 {
      var t := s[..|s| - 1];
      CountTwice(t, x);
      CountBound(t, x);
      if Count(s, x) >= 2 {
        if s[|s| - 1] == x {
          var i :| 0 <= i < |t| && t[i] == x;
          assert s[i] == x;
        } else {
          var i, j :| 0 <= i < j < |t| && t[i] == x && t[j] == x;
          assert s[i] == x && s[j] == x;
        }
      }
      if exists i, j :: 0 <= i < j < |s| && s[i] == x && s[j] == x {
        var i, j :| 0 <= i < j < |s| && s[i] == x && s[j] == x;
        if j == |s| - 1 {
          assert t[i] == x;
        } else {
          assert t[i] == x && t[j] == x;
        }
      }
    }
  }

  /** No element occurs twice. */
  predicate Distinct<T(==)>(s: seq<T>)
  {
    forall i, j :: 0 <= i < j < |s| ==> s[i] != s[j]
  }

  /** In a sequence without repeats every value occurs at most once. */
  lemma DistinctCount<T>(s: seq<T>, x: T)
    requires Distinct(s)
    ensures Count(s, x) <= 1
  {
    CountTwice(s, x);
  }

  /** `tag` paired with every element of `s`. */
  function Tag<T>(tag: int, s: set<T>): set<(int, T)>
  {
    set x | x in s :: (tag, x)
  }

  /** Tagging keeps the number of elements. */
  lemma {:induction false} TagSize<T>(tag: int, s: set<T>)
    ensures |Tag(tag, s)| == |s|
    decreases |s|
  {
    if s != {} {
      var x :| x in s;
      var rest := s - {x};
      TagSize(tag, rest);
      assert Tag(tag, s) == Tag(tag, rest) + {(tag, x)};
    }
  }

  /** Adding the tagged set of a tag not used so far adds its size. */
  lemma AddDisjoint<T>(a: set<(int, T)>, tag: int, b: set<T>)
    requires forall p :: p in a ==> p.0 != tag
    ensures |a + Tag(tag, b)| == |a| + |b|
  {
    TagSize(tag, b);
    assert a * Tag(tag, b) == {};
  }

  /** Concatenation of a sequence of sequences, in order. */
  function Flatten<T>(ss: seq<seq<T>>): seq<T>
  {
    if |ss| == 0 then [] else ss[0] + Flatten(ss[1..])
  }

  /** Index of the first `d` in `s`, or `|s|` when there is none. */
  function IndexOf<T(==)>(s: seq<T>, d: T): (i: nat)
    ensures i <= |s|
    ensures i < |s| ==> s[i] == d
    ensures forall k :: 0 <= k < i ==> s[k] != d
  {
    if |s| == 0 then 0 else if s[0] == d then 0 else 1 + IndexOf(s[1..], d)
  }

  /**
   * The tokens that repeated `getline(stream, token, d)` yields: the pieces
   * between delimiters in order, where a trailing delimiter does not open
   * an empty last token and the empty string yields no token at all.
   */
  function Split<T(==)>(s: seq<T>, d: T): (r: seq<seq<T>>)
    ensures forall k, j :: 0 <= k < |r| && 0 <= j < |r[k]| ==> r[k][j] != d
    ensures |s| == 0 <==> |r| == 0
    decreases |s|
  {
    if |s| == 0 then []
    else
      var i := IndexOf(s, d);
      if i == |s| then [s] else [s[..i]] + Split(s[i + 1..], d)
  }

  /** The tokens glued back together with one `d` between neighbours. */
  function Join<T>(ts: seq<seq<T>>, d: T): seq<T>
  {
    if |ts| == 0 then [] else if |ts| == 1 then ts[0] else ts[0] + [d] + Join(ts[1..], d)
  }

  /** Splitting loses nothing but a trailing delimiter. */
  lemma {:induction false} JoinSplit<T>(s: seq<T>, d: T)
    ensures Join(Split(s, d), d) + Trailing(s, d) == s
    decreases |s|
  {
    if |s| > 0 {
      var i := IndexOf(s, d);
      SplitStep(s, d);
      if i < |s| {
        var head, rest := s[..i], s[i + 1..];
        var ts := Split(rest, d);
        JoinCons(head, ts, d);
        TrailingAfter(head, rest, d);
        hide *;
        if |rest| > 0 {
          JoinSplit(rest, d);
          var j := Join(ts, d);
          assert (head + [d] + j) + Trailing(s, d) == head + [d] + (j + Trailing(s, d));
        }
      }
    }
  }

  /** One token is cut off the front: up to the first delimiter, or all of `s` when it has none. */
  lemma SplitStep<T>(s: seq<T>, d: T)
    requires |s| > 0
    ensures var i := IndexOf(s, d);
      && (i < |s| ==> Split(s, d) == [s[..i]] + Split(s[i + 1..], d) && s == s[..i] + [d] + s[i + 1..])
      && (i < |s| && |s[i + 1..]| == 0 ==> Split(s[i + 1..], d) == [])
      && (i == |s| ==> Split(s, d) == [s] && Join([s], d) == s && Trailing(s, d) == [])
  {
    hide *;
    var i := IndexOf(s, d);
    if i < |s| {
      SplitCut(s, d);
      assert s == s[..i] + [d] + s[i + 1..];
      if |s[i + 1..]| == 0 {
        SplitEmpty(s[i + 1..], d);
      }
    } else {
      SplitWhole(s, d);
    }
  }

  lemma SplitCut<T>(s: seq<T>, d: T)
    requires |s| > 0 && IndexOf(s, d) < |s|
    ensures Split(s, d) == [s[..IndexOf(s, d)]] + Split(s[IndexOf(s, d) + 1..], d)
  {
  }

  lemma SplitEmpty<T>(s: seq<T>, d: T)
    requires |s| == 0
    ensures Split(s, d) == []
  {
  }

  lemma SplitWhole<T>(s: seq<T>, d: T)
    requires |s| > 0 && IndexOf(s, d) == |s|
    ensures Split(s, d) == [s] && Join([s], d) == s && Trailing(s, d) == []
  {
  }

  lemma JoinCons<T>(h: seq<T>, ts: seq<seq<T>>, d: T)
    ensures |ts| == 0 ==> Join([h] + ts, d) == h
    ensures |ts| > 0 ==> Join([h] + ts, d) == h + [d] + Join(ts, d)
  {
    assert ([h] + ts)[1..] == ts;
  }

  /** What ends `head + [d] + rest` also ends `rest`, unless `rest` is empty. */
  lemma TrailingAfter<T>(head: seq<T>, rest: seq<T>, d: T)
    ensures |rest| == 0 ==> Trailing(head + [d] + rest, d) == [d] && head + [d] + rest == head + [d]
    ensures |rest| > 0 ==> Trailing(head + [d] + rest, d) == Trailing(rest, d)
  {
    assert |rest| == 0 ==> head + [d] + rest == head + [d];
  }

  /** The delimiter that ends `s`, if it ends with one. */
  function Trailing<T(==)>(s: seq<T>, d: T): seq<T>
  {
    if |s| > 0 && s[|s| - 1] == d then [d] else []
  }

  /** A delimiter-free text is one token, so splitting inverts joining for such tokens. */
  lemma {:induction false} SplitJoin<T>(ts: seq<seq<T>>, d: T)
    requires forall k, j :: 0 <= k < |ts| && 0 <= j < |ts[k]| ==> ts[k][j] != d
    requires forall k :: 0 <= k < |ts| ==> |ts[k]| > 0
    ensures Split(Join(ts, d), d) == ts
    decreases |ts|
  {
    if |ts| == 1 {
      assert IndexOf(ts[0], d) == |ts[0]|;
    } else if |ts| > 1 {
      var s := Join(ts, d);
      var tail := ts[1..];
      SplitJoin(tail, d);
      assert s == ts[0] + [d] + Join(tail, d);
      IndexOfPrefix(ts[0], Join(tail, d), d);
      assert s[..|ts[0]|] == ts[0];
      assert s[|ts[0]| + 1..] == Join(tail, d);
    }
  }

  lemma {:induction false} IndexOfPrefix<T>(a: seq<T>, b: seq<T>, d: T)
    requires forall j :: 0 <= j < |a| ==> a[j] != d
    ensures IndexOf(a + [d] + b, d) == |a|
    decreases |a|
  {
    if |a| > 0 {
      assert (a + [d] + b)[1..] == a[1..] + [d] + b;
      IndexOfPrefix(a[1..], b, d);
    }
  }

  // ---------------------------------------------------------------------
  // Grids as sequences of rows

  /** `rows` rows, each `cols` long. */
  predicate Rect<T>(g: seq<seq<T>>, rows: int, cols: int)
  {
    |g| == rows && forall i :: 0 <= i < |g| ==> |g[i]| == cols
  }

  /** Two grids of the same shape with the same cells are the same grid. */
  lemma GridEq<T>(a: seq<seq<T>>, b: seq<seq<T>>, rows: int, cols: int)
    requires Rect(a, rows, cols) && Rect(b, rows, cols)
    requires forall i, j :: 0 <= i < rows && 0 <= j < cols ==> a[i][j] == b[i][j]
    ensures a == b
  {
    forall i | 0 <= i < rows
      ensures a[i] == b[i]
    {
      assert forall j :: 0 <= j < cols ==> a[i][j] == b[i][j];
    }
  }

  // ---------------------------------------------------------------------
  // Sorting ascending, the order `std::sort` leaves with its default comparison

  predicate Sorted(s: seq<int>)
  {
    forall i, j :: 0 <= i < j < |s| ==> s[i] <= s[j]
  }

  function InsertAscending(x: int, s: seq<int>): (r: seq<int>)
    requires Sorted(s)
    ensures Sorted(r)
    ensures multiset(r) == multiset(s) + multiset{x}
    ensures |r| == |s| + 1
  {
    if |s| == 0 then [x]
    else if x <= s[0] then [x] + s
    else
      var t := InsertAscending(x, s[1..]);
      InsertStep(x, s, t);
      [s[0]] + t
  }

  /** Putting the head back in front of the tail with `x` inserted keeps the order and the elements. */
  lemma InsertStep(x: int, s: seq<int>, t: seq<int>)
    requires Sorted(s) && |s| > 0 && s[0] < x
    requires Sorted(t) && multiset(t) == multiset(s[1..]) + multiset{x}
    ensures Sorted([s[0]] + t)
    ensures multiset([s[0]] + t) == multiset(s) + multiset{x}
  {
    assert s == [s[0]] + s[1..];
    forall k | 0 <= k < |t| ensures s[0] <= t[k] {
      assert t[k] in multiset(t);
      if t[k] != x {
        assert t[k] in multiset(s[1..]);
        var i :| 0 <= i < |s[1..]| && s[1..][i] == t[k];
        assert s[i + 1] == t[k];
      }
    }
  }

  function SortAscending(s: seq<int>): (r: seq<int>)
    ensures Sorted(r)
    ensures multiset(r) == multiset(s)
    ensures |r| == |s|
  {
    if |s| == 0 then []
    else
      assert s == [s[0]] + s[1..];
      InsertAscending(s[0], SortAscending(s[1..]))
  }

  lemma MultisetCons(s: seq<int>)
    requires |s| > 0
    ensures multiset(s) == multiset{s[0]} + multiset(s[1..])
  {
    assert s == [s[0]] + s[1..];
  }

  /** The first of an ascending sequence is its least element. */
  lemma SortedHeadLeast(s: seq<int>, x: int)
    requires Sorted(s) && x in multiset(s)
    ensures |s| > 0 && s[0] <= x
  {
    var i :| 0 <= i < |s| && s[i] == x;
  }

  /** Equal sums with a common part have equal other parts. */
  lemma MultisetCancel<T>(x: multiset<T>, y: multiset<T>, r: multiset<T>)
    requires x + r == y + r || r + x == r + y
    ensures x == y
  {
    assert x + r == r + x && y + r == r + y;
    assert x == (x + r) - r;
    assert y == (y + r) - r;
  }

  lemma SortedTail(s: seq<int>)
    requires Sorted(s) && |s| > 0
    ensures Sorted(s[1..])
  {
  }

  /** A multiset has one ascending arrangement. */
  lemma {:induction false} SortedUnique(s: seq<int>, t: seq<int>)
    requires Sorted(s) && Sorted(t)
    requires multiset(s) == multiset(t)
    ensures s == t
    decreases |s|
  {
    hide *;
    assert |s| == |multiset(s)| == |t|;
    if |s| > 0 {
      SortedTail(s);
      SortedTail(t);
      assert s[0] in multiset(s) && t[0] in multiset(t);
      SortedHeadLeast(t, s[0]);
      SortedHeadLeast(s, t[0]);
      assert s[0] == t[0];
      MultisetCons(s);
      MultisetCons(t);
      MultisetCancel(multiset(s[1..]), multiset(t[1..]), multiset{s[0]});
      SortedUnique(s[1..], t[1..]);
      assert s == [s[0]] + s[1..] && t == [t[0]] + t[1..];
    }
  }

  /** Sorting depends only on the multiset of the elements. */
  lemma SortAscendingOfPermutation(s: seq<int>, t: seq<int>)
    requires multiset(s) == multiset(t)
    ensures SortAscending(s) == SortAscending(t)
  {
    SortedUnique(SortAscending(s), SortAscending(t));
  }

  function Pow(b: nat, e: nat): (r: nat)
    ensures b >= 1 ==> r >= 1
  {
    if e == 0 then 1 else b * Pow(b, e - 1)
  }

  lemma {:induction false} PowAdd(b: nat, x: nat, y: nat)
    ensures Pow(b, x + y) == Pow(b, x) * Pow(b, y)
    decreases y
  {
    if y > 0 {
      PowAdd(b, x, y - 1);
      var p, q := Pow(b, x), Pow(b, y - 1);
      assert Pow(b, x + y) == b * (p * q);
      assert Pow(b, y) == b * q;
      MulSwap(b, p, q);
    }
  }

  lemma MulSwap(a: int, b: int, c: int)
    ensures a * (b * c) == b * (a * c)
  {
  }

  function Abs(x: int): nat
  {
    if x < 0 then -x else x
  }

  /**
   * Integer division as C++ does it on signed operands: the quotient is
   * truncated toward zero (Dafny's own `/` is Euclidean).
   */
  function TDiv(a: int, b: int): int
    requires b != 0
  {
    var q := Abs(a) / Abs(b);
    if (a < 0) == (b < 0) then q else -q
  }

  /**
   * The remainder of C++ `%` on signed operands: it takes the sign of the
   * dividend (Dafny's own `%` is never negative).
   */
  function TRem(a: int, b: int): int
    requires b != 0
  {
    if a < 0 then -(Abs(a) % Abs(b)) else Abs(a) % Abs(b)
  }

  /** An exact division is undone by multiplying back. */
  lemma TDivExact(q: int, b: int)
    requires b != 0
    ensures TDiv(q * b, b) == q
  {
    var a := q * b;
    assert Abs(a) == Abs(q) * Abs(b) by {
      if q < 0 && b < 0 { assert a == (-q) * (-b); }
      else if q < 0 { assert -a == (-q) * b; }
      else if b < 0 { assert -a == q * (-b); }
    }
    MulDivCancel(Abs(q), Abs(b));
  }

  lemma MulSign(e: int, y: int)
    requires y > 0
    ensures e >= 1 ==> e * y >= y
    ensures e <= -1 ==> e * y <= -y
  {
  }

  /** Euclidean division is unique: a quotient and remainder in range are the ones `/` and `%` give. */
  lemma ModUnique(a: int, m: int, q: int, r: int)
    requires m > 0 && a == m * q + r && 0 <= r < m
    ensures a / m == q && a % m == r
  {
    var q', r' := a / m, a % m;
    assert m * q + r == m * q' + r';
    if q' < q {
      assert m * (q - q') == r' - r;
      MulSign(q - q', m);
    } else if q' > q {
      assert m * (q' - q) == r - r';
      MulSign(q' - q, m);
    }
  }

  lemma MulMono(n: int, x: int, y: int)
    requires n >= 0 && x >= y
    ensures n * x >= n * y
  {
    if n > 0 && x > y {
      MulSign(x - y, n);
      assert (x - y) * n == n * x - n * y;
    }
  }

  /** Below `n * p` the quotient by `n` is below `p`. */
  lemma DivBelow(x: nat, n: nat, p: nat)
    requires n > 0 && x < n * p
    ensures x / n < p
  {
    var q := x / n;
    assert x == n * q + x % n;
    if q >= p {
      MulMono(n, q, p);
    }
  }

  /** Division by a positive number keeps the order. */
  lemma DivMono(a: nat, b: nat, n: nat)
    requires n >= 1 && a <= b
    ensures a / n <= b / n
  {
    var qa, qb := a / n, b / n;
    assert a == n * qa + a % n && b == n * qb + b % n;
    if qa > qb {
      MulMono(n, qa, qb + 1);
    }
  }

  lemma MulDivCancel(x: nat, y: nat)
    requires y > 0
    ensures (x * y) / y == x
  {
    var d, r := (x * y) / y, (x * y) % y;
    assert x * y == d * y + r;
    assert (x - d) * y == x * y - d * y;
    MulSign(x - d, y);
  }
}
