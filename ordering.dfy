/** The query-side operations that both stores perform for the application:
    keep the rows satisfying a condition, order them by a numeric key from
    highest to lowest, cut the result to a page, and count rows. */
module Ordering {

  /** Non-increasing in `key`. */
  ghost predicate SortedDesc<T>(s: seq<T>, key: T -> int) {
    forall i, j :: 0 <= i < j < |s| ==> key(s[i]) >= key(s[j])
  }

  function InsertDesc<T>(x: T, s: seq<T>, key: T -> int): (r: seq<T>)
    ensures |r| == |s| + 1
    ensures multiset(r) == multiset(s) + multiset{x}
    ensures forall y :: y in r ==> y == x || y in s
  {
    if s == [] || key(x) >= key(s[0]) then [x] + s
    else
      assert s == [s[0]] + s[1..];
      [s[0]] + InsertDesc(x, s[1..], key)
  }

  lemma {:induction false} InsertDescSorted<T>(x: T, s: seq<T>, key: T -> int)
    requires SortedDesc(s, key)
    ensures SortedDesc(InsertDesc(x, s, key), key)
  {
    if s != [] && key(x) < key(s[0]) {
      var rest := InsertDesc(x, s[1..], key);
      InsertDescSorted(x, s[1..], key);
      forall y | y in rest ensures key(y) <= key(s[0]) {
        if y != x {
          var k :| 0 <= k < |s[1..]| && s[1..][k] == y;
          assert s[k + 1] == y;
        }
      }
      assert InsertDesc(x, s, key) == [s[0]] + rest;
      ConsSorted(s[0], rest, key);
    }
  }

  /** A row no lower than every row of a sorted sequence can go in front. */
  lemma ConsSorted<T>(h: T, rest: seq<T>, key: T -> int)
    requires SortedDesc(rest, key)
    requires forall y :: y in rest ==> key(y) <= key(h)
    ensures SortedDesc([h] + rest, key)
  {
    var r := [h] + rest;
    forall i, j | 0 <= i < j < |r| ensures key(r[i]) >= key(r[j]) {
      assert r[j] == rest[j - 1];
      if i > 0 {
        assert r[i] == rest[i - 1];
      } else {
        assert r[j] in rest;
      }
    }
  }

  /** Rows in non-increasing order of `key`: the ORDER BY ... DESC of both
      stores.  Rows with equal keys keep their relative order. */
  function SortDesc<T>(s: seq<T>, key: T -> int): (r: seq<T>)
    ensures |r| == |s|
    ensures multiset(r) == multiset(s)
    ensures SortedDesc(r, key)
  {
    if s == [] then []
    else
      assert s == [s[0]] + s[1..];
      var rest := SortDesc(s[1..], key);
      InsertDescSorted(s[0], rest, key);
      InsertDesc(s[0], rest, key)
  }

  /** The first row after sorting is a row of the input with the highest
      key. */
  lemma SortedFirstIsMax<T>(s: seq<T>, key: T -> int)
    requires s != []
    ensures SortDesc(s, key)[0] in s
    ensures forall x :: x in s ==> key(x) <= key(SortDesc(s, key)[0])
  {
    var sorted := SortDesc(s, key);
    assert sorted[0] in multiset(s);
    forall x | x in s ensures key(x) <= key(sorted[0]) {
      assert x in multiset(sorted);
      var j :| 0 <= j < |sorted| && sorted[j] == x;
      if j > 0 {
        assert key(sorted[0]) >= key(sorted[j]);
      }
    }
  }

  function Filter<T>(s: seq<T>, p: T -> bool): (r: seq<T>)
    ensures |r| <= |s|
    ensures forall i :: 0 <= i < |r| ==> p(r[i])
    ensures forall x :: x in r ==> x in s
    ensures forall x :: x in s && p(x) ==> x in r
  {
    if s == [] then []
    else
      assert s == [s[0]] + s[1..];
      (if p(s[0]) then [s[0]] else []) + Filter(s[1..], p)
  }

  function Count<T>(s: seq<T>, p: T -> bool): (n: nat)
    ensures n <= |s|
  {
    if s == [] then 0 else (if p(s[0]) then 1 else 0) + Count(s[1..], p)
  }

  /** The first n rows, or all of them when there are fewer (LIMIT n). */
  function Take<T>(s: seq<T>, n: nat): (r: seq<T>)
    ensures |r| == if n < |s| then n else |s|
    ensures r == s[..|r|]
  {
    if n < |s| then s[..n] else s
  }

  lemma {:induction false} CountAppend<T>(a: seq<T>, b: seq<T>, p: T -> bool)
    ensures Count(a + b, p) == Count(a, p) + Count(b, p)
  {
    if a == [] {
      assert a + b == b;
    } else {
      assert (a + b)[0] == a[0];
      assert (a + b)[1..] == a[1..] + b;
      CountAppend(a[1..], b, p);
    }
  }

  /** Taking out one occurrence of a[0] from both sides of a multiset
      equality. */
  lemma RemoveFirst<T>(a: seq<T>, b: seq<T>, i: nat)
    requires multiset(a) == multiset(b) && a != [] && i < |b| && b[i] == a[0]
    ensures multiset(a[1..]) == multiset(b[..i] + b[i + 1..])
  {
    var b' := b[..i] + b[i + 1..];
    assert b == b[..i] + [b[i]] + b[i + 1..];
    assert a == [a[0]] + a[1..];
    assert multiset(b) == multiset(b[..i]) + multiset{b[i]} + multiset(b[i + 1..]);
    assert multiset(a) == multiset{a[0]} + multiset(a[1..]);
    assert multiset(b') == multiset(b[..i]) + multiset(b[i + 1..]);
    forall y ensures multiset(a[1..])[y] == multiset(b')[y] {
      assert multiset(a)[y] == multiset{a[0]}[y] + multiset(a[1..])[y];
    }
  }

  /** Count depends only on the multiset of rows, not on their order. */
  lemma {:induction false} CountPermutation<T>(a: seq<T>, b: seq<T>, p: T -> bool)
    requires multiset(a) == multiset(b)
    ensures Count(a, p) == Count(b, p)
  {
    if a != [] {
      assert a[0] in multiset(b);
      var i :| 0 <= i < |b| && b[i] == a[0];
      var b' := b[..i] + b[i + 1..];
      RemoveFirst(a, b, i);
      CountPermutation(a[1..], b', p);
      assert b == b[..i] + ([b[i]] + b[i + 1..]);
      CountAppend(b[..i], [b[i]] + b[i + 1..], p);
      CountAppend([b[i]], b[i + 1..], p);
      CountAppend(b[..i], b[i + 1..], p);
    }
  }

  /** A row is counted by exactly one of two complementary conditions, so
      the two counts add up to the number of rows. */
  lemma {:induction false} CountSplit<T>(s: seq<T>, p: T -> bool, q: T -> bool)
    requires forall x :: p(x) != q(x)
    ensures Count(s, p) + Count(s, q) == |s|
  {
    if s != [] {
      CountSplit(s[1..], p, q);
    }
  }

  /** SUM of a numeric column. */
  function Sum<T>(s: seq<T>, f: T -> int): int {
    if s == [] then 0 else f(s[0]) + Sum(s[1..], f)
  }

  lemma {:induction false} SumAppend<T>(a: seq<T>, b: seq<T>, f: T -> int)
    ensures Sum(a + b, f) == Sum(a, f) + Sum(b, f)
  {
    if a == [] {
      assert a + b == b;
    } else {
      assert (a + b)[0] == a[0];
      assert (a + b)[1..] == a[1..] + b;
      SumAppend(a[1..], b, f);
    }
  }

  /** A sum depends only on the multiset of rows, not on their order. */
  lemma {:induction false} SumPermutation<T>(a: seq<T>, b: seq<T>, f: T -> int)
    requires multiset(a) == multiset(b)
    ensures Sum(a, f) == Sum(b, f)
  {
    if a != [] {
      assert a[0] in multiset(b);
      var i :| 0 <= i < |b| && b[i] == a[0];
      RemoveFirst(a, b, i);
      SumPermutation(a[1..], b[..i] + b[i + 1..], f);
      assert b == b[..i] + ([b[i]] + b[i + 1..]);
      SumAppend(b[..i], [b[i]] + b[i + 1..], f);
      SumAppend(b[..i], b[i + 1..], f);
    }
  }

  /** Filtering keeps exactly the rows that Count counts. */
  lemma {:induction false} FilterCount<T>(s: seq<T>, p: T -> bool)
    ensures |Filter(s, p)| == Count(s, p)
  {
    if s != [] {
      FilterCount(s[1..], p);
    }
  }

  lemma {:induction false} CountAll<T>(s: seq<T>, p: T -> bool)
    requires forall i :: 0 <= i < |s| ==> p(s[i])
    ensures Count(s, p) == |s|
  {
    if s != [] {
      CountAll(s[1..], p);
    }
  }

  lemma {:induction false} CountNone<T>(s: seq<T>, p: T -> bool)
    requires forall i :: 0 <= i < |s| ==> !p(s[i])
    ensures Count(s, p) == 0
  {
    if s != [] {
      CountNone(s[1..], p);
    }
  }

  lemma {:induction false} CountPositive<T>(s: seq<T>, p: T -> bool, i: nat)
    requires i < |s| && p(s[i])
    ensures Count(s, p) >= 1
  {
    if i > 0 {
      CountPositive(s[1..], p, i - 1);
    }
  }

  /** The sorted selection holds exactly the rows that satisfy p. */
  lemma SortedSelection<T>(s: seq<T>, p: T -> bool, key: T -> int)
    ensures var sorted := SortDesc(Filter(s, p), key);
      && |sorted| == Count(s, p)
      && (forall i :: 0 <= i < |sorted| ==> sorted[i] in s && p(sorted[i]))
      && (forall x :: x in s && p(x) ==> x in multiset(sorted))
  {
    var f := Filter(s, p);
    var sorted := SortDesc(f, key);
    FilterCount(s, p);
    forall i | 0 <= i < |sorted| ensures sorted[i] in s && p(sorted[i]) {
      assert sorted[i] in multiset(f);
      var k :| 0 <= k < |f| && f[k] == sorted[i];
    }
    forall x | x in s && p(x) ensures x in multiset(sorted) {
      assert x in f;
    }
  }

  /** In a sorted page, everything left after the first k rows scores no
      higher than any of the first k: a LIMIT keeps the top rows. */
  lemma PrefixDominates<T>(s: seq<T>, key: T -> int, k: nat)
    requires SortedDesc(s, key) && k <= |s|
    ensures forall x, i :: x in multiset(s) - multiset(s[..k]) && 0 <= i < k ==> key(x) <= key(s[i])
  {
    assert s == s[..k] + s[k..];
    assert multiset(s) - multiset(s[..k]) == multiset(s[k..]);
    forall x, i | x in multiset(s) - multiset(s[..k]) && 0 <= i < k
      ensures key(x) <= key(s[i])
    {
      assert x in s[k..];
      var j :| k <= j < |s| && s[j] == x;
    }
  }

  /** In a sorted sequence, rows whose key is strictly above that of row j
      all sit before j, so there are at most j of them; when every row
      before j is one of them, there are exactly j. */
  lemma RowsAboveSitBefore<T>(s: seq<T>, key: T -> int, j: nat, above: T -> bool)
    requires SortedDesc(s, key) && j < |s|
    requires forall x :: above(x) ==> key(x) > key(s[j])
    ensures Count(s, above) <= j
    ensures (forall i :: 0 <= i < j ==> above(s[i])) ==> Count(s, above) == j
  {
    assert s == s[..j] + s[j..];
    CountAppend(s[..j], s[j..], above);
    forall i | 0 <= i < |s[j..]| ensures !above(s[j..][i]) {
      assert s[j..][i] == s[j + i];
    }
    CountNone(s[j..], above);
    if forall i :: 0 <= i < j ==> above(s[i]) {
      CountAll(s[..j], above);
    }
  }

  /** Filtering keeps the rows in their order: the k-th kept row is the
      row at idx[k], and the positions increase. */
  lemma {:induction false} FilterIndices<T>(s: seq<T>, p: T -> bool) returns (idx: seq<int>)
    ensures |idx| == |Filter(s, p)|
    ensures forall k :: 0 <= k < |idx| ==> 0 <= idx[k] < |s| && s[idx[k]] == Filter(s, p)[k]
    ensures forall k, l :: 0 <= k < l < |idx| ==> idx[k] < idx[l]
  {
    if s == [] {
      idx := [];
    } else {
      var rest := FilterIndices(s[1..], p);
      var tail := Filter(s[1..], p);
      var shifted := ShiftIndices(s, tail, rest);
      if p(s[0]) {
        assert Filter(s, p) == [s[0]] + tail;
        idx := PrependIndex(s, tail, shifted);
      } else {
        assert Filter(s, p) == tail;
        idx := shifted;
      }
    }
  }

  /** Positions of r in s after position 0, with position 0 put in front:
      the positions of [s[0]] + r. */
  lemma PrependIndex<T>(s: seq<T>, r: seq<T>, shifted: seq<int>) returns (idx: seq<int>)
    requires s != [] && |shifted| == |r|
    requires forall k :: 0 <= k < |shifted| ==> 1 <= shifted[k] < |s| && s[shifted[k]] == r[k]
    requires forall k, l :: 0 <= k < l < |shifted| ==> shifted[k] < shifted[l]
    ensures |idx| == |[s[0]] + r|
    ensures forall k :: 0 <= k < |idx| ==> 0 <= idx[k] < |s| && s[idx[k]] == ([s[0]] + r)[k]
    ensures forall k, l :: 0 <= k < l < |idx| ==> idx[k] < idx[l]
  {
    idx := [0] + shifted;
    forall k | 0 <= k < |idx| ensures 0 <= idx[k] < |s| && s[idx[k]] == ([s[0]] + r)[k] {
      if k > 0 {
        assert idx[k] == shifted[k - 1] && ([s[0]] + r)[k] == r[k - 1];
      }
    }
  }

  /** Positions into s[1..] moved to positions into s. */
  lemma ShiftIndices<T>(s: seq<T>, r: seq<T>, rest: seq<int>) returns (idx: seq<int>)
    requires s != [] && |rest| == |r|
    requires forall k :: 0 <= k < |rest| ==> 0 <= rest[k] < |s| - 1 && s[1..][rest[k]] == r[k]
    requires forall k, l :: 0 <= k < l < |rest| ==> rest[k] < rest[l]
    ensures |idx| == |r|
    ensures forall k :: 0 <= k < |idx| ==> 1 <= idx[k] < |s| && s[idx[k]] == r[k]
    ensures forall k, l :: 0 <= k < l < |idx| ==> idx[k] < idx[l]
  {
    idx := seq(|rest|, k requires 0 <= k < |rest| => rest[k] + 1);
  }

  ghost predicate NonDecreasing(s: seq<int>) {
    forall i, j :: 0 <= i < j < |s| ==> s[i] <= s[j]
  }

  /** Filtering a non-decreasing sequence leaves it non-decreasing. */
  lemma {:induction false} FilterNonDecreasing(s: seq<int>, p: int -> bool)
    ensures NonDecreasing(s) ==> NonDecreasing(Filter(s, p))
  {
    if s != [] && NonDecreasing(s) {
      assert NonDecreasing(s[1..]);
      FilterNonDecreasing(s[1..], p);
      var rest := Filter(s[1..], p);
      forall x | x in rest ensures s[0] <= x {
        var j :| 0 <= j < |s[1..]| && s[1..][j] == x;
        assert s[j + 1] == x;
      }
      if p(s[0]) {
        assert Filter(s, p) == [s[0]] + rest;
        ConsNonDecreasing(s[0], rest);
      } else {
        assert Filter(s, p) == rest;
      }
    }
  }

  lemma ConsNonDecreasing(h: int, rest: seq<int>)
    requires NonDecreasing(rest) && forall x :: x in rest ==> h <= x
    ensures NonDecreasing([h] + rest)
  {
    var r := [h] + rest;
    forall i, j | 0 <= i < j < |r| ensures r[i] <= r[j] {
      assert r[j] == rest[j - 1] && rest[j - 1] in rest;
      if i > 0 {
        assert r[i] == rest[i - 1];
      }
    }
  }

  /** Filtering an appended row keeps it exactly when it satisfies p. */
  lemma {:induction false} FilterAppend<T>(s: seq<T>, x: T, p: T -> bool)
    ensures Filter(s + [x], p) == Filter(s, p) + (if p(x) then [x] else [])
  {
    if s == [] {
      assert [x][1..] == [];
    } else {
      assert (s + [x])[0] == s[0];
      assert (s + [x])[1..] == s[1..] + [x];
      FilterAppend(s[1..], x, p);
    }
  }

  /** Filtering twice, by a condition and then by a stronger one, is
      filtering once by the stronger one. */
  lemma {:induction false} FilterImplied<T>(s: seq<T>, p: T -> bool, q: T -> bool)
    requires forall x :: q(x) ==> p(x)
    ensures Filter(Filter(s, p), q) == Filter(s, q)
  {
    if s != [] {
      FilterImplied(s[1..], p, q);
      if p(s[0]) {
        var rest := Filter(s[1..], p);
        var f := [s[0]] + rest;
        assert Filter(s, p) == f;
        assert f[0] == s[0] && f[1..] == rest;
        assert Filter(f, q) == (if q(s[0]) then [s[0]] else []) + Filter(rest, q);
      } else {
        assert !q(s[0]);
        assert Filter(s, p) == Filter(s[1..], p);
        assert Filter(s, q) == Filter(s[1..], q);
      }
    }
  }
}
