/** Sequence helpers shared by the model: JavaScript's `Array.prototype.filter`,
    a `reduce` that sums, `reverse`, and the stable `Array.prototype.sort` with a
    comparator `(a, b) => key(b) - key(a)` (descending by an integer key). */
module Seqs {

  /** `s.filter(p)`: the elements satisfying `p`, in their original order. */
  function Filter<T>(s: seq<T>, p: T -> bool): (r: seq<T>)
    ensures |r| <= |s|
    ensures forall x | x in r :: x in s && p(x)
    ensures forall i | 0 <= i < |s| && p(s[i]) :: s[i] in r
    ensures forall i | 0 <= i < |r| :: p(r[i])
  {
    if s == [] then []
    else if p(s[0]) then [s[0]] + Filter(s[1..], p)
    else Filter(s[1..], p)
  }

  lemma {:induction false} FilterAppend<T>(a: seq<T>, b: seq<T>, p: T -> bool)
    ensures Filter(a + b, p) == Filter(a, p) + Filter(b, p)
  {
    if a == [] {
      assert a + b == b;
    } else {
      assert (a + b)[1..] == a[1..] + b;
      FilterAppend(a[1..], b, p);
    }
  }

  /** The filter of a non-empty sequence is that of all but its last element,
      followed by the last one when it passes. */
  lemma FilterLast<T>(s: seq<T>, p: T -> bool)
    requires s != []
    ensures Filter(s, p) == Filter(s[..|s| - 1], p) + (if p(s[|s| - 1]) then [s[|s| - 1]] else [])
  {
    var init, last := s[..|s| - 1], s[|s| - 1];
    assert s == init + [last];
    FilterAppend(init, [last], p);
    assert Filter([last], p) == if p(last) then [last] else [] by {
      assert [last][1..] == [];
    }
  }

  /** A filter that every element passes returns its input. */
  lemma {:induction false} FilterAll<T>(s: seq<T>, p: T -> bool)
    requires forall i | 0 <= i < |s| :: p(s[i])
    ensures Filter(s, p) == s
  {
    if s != [] {
      FilterAll(s[1..], p);
    }
  }

  /** A filter that no element passes returns nothing. */
  lemma {:induction false} FilterNone<T>(s: seq<T>, p: T -> bool)
    requires forall i | 0 <= i < |s| :: !p(s[i])
    ensures Filter(s, p) == []
  {
    if s != [] {
      FilterNone(s[1..], p);
    }
  }

  /** Filtering keeps the multiset of kept elements and drops the others. */
  lemma {:induction false} FilterMultiset<T>(s: seq<T>, p: T -> bool)
    ensures multiset(Filter(s, p)) + multiset(Filter(s, x => !p(x))) == multiset(s)
  {
    if s != [] {
      FilterMultiset(s[1..], p);
      assert s == [s[0]] + s[1..];
    }
  }

  /** A filter keeps the relative order: it is a subsequence, so any property
      of pairs `i < j` of the input also holds of the output. */
  lemma {:induction false} FilterKeepsOrdered<T>(s: seq<T>, p: T -> bool, lt: (T, T) -> bool)
    requires Ordered(s, lt)
    ensures Ordered(Filter(s, p), lt)
  {
    if s != [] {
      OrderedTail(s, lt);
      FilterKeepsOrdered(s[1..], p, lt);
      if p(s[0]) {
        FilterBelow(s[0], s[1..], p, lt);
        OrderedCons(s[0], Filter(s[1..], p), lt);
      }
    }
  }

  /** The tail of an ordered sequence is ordered and follows its head. */
  lemma OrderedTail<T>(s: seq<T>, lt: (T, T) -> bool)
    requires s != [] && Ordered(s, lt)
    ensures Ordered(s[1..], lt)
    ensures forall k | 0 <= k < |s[1..]| :: lt(s[0], s[1..][k])
  {
    forall i, j | 0 <= i < j < |s[1..]| ensures lt(s[1..][i], s[1..][j]) {
      assert s[1..][i] == s[i + 1] && s[1..][j] == s[j + 1];
    }
    forall k | 0 <= k < |s[1..]| ensures lt(s[0], s[1..][k]) {
      assert s[1..][k] == s[k + 1];
    }
  }

  /** An element followed by an ordered sequence it precedes is ordered. */
  lemma OrderedCons<T>(a: T, t: seq<T>, lt: (T, T) -> bool)
    requires Ordered(t, lt) && forall k | 0 <= k < |t| :: lt(a, t[k])
    ensures Ordered([a] + t, lt)
  {
    var r := [a] + t;
    forall i, j | 0 <= i < j < |r| ensures lt(r[i], r[j]) {
      assert r[j] == t[j - 1];
      if i > 0 {
        assert r[i] == t[i - 1];
      }
    }
  }

  /** An element related to every element of `t` is related to every element
      of a filter of `t`. */
  lemma {:induction false} FilterBelow<T>(a: T, t: seq<T>, p: T -> bool, lt: (T, T) -> bool)
    requires forall k | 0 <= k < |t| :: lt(a, t[k])
    ensures forall k | 0 <= k < |Filter(t, p)| :: lt(a, Filter(t, p)[k])
  {
    if t != [] {
      forall k | 0 <= k < |t[1..]| ensures lt(a, t[1..][k]) {
        assert t[1..][k] == t[k + 1];
      }
      FilterBelow(a, t[1..], p, lt);
      var f := Filter(t[1..], p);
      if p(t[0]) {
        var r := [t[0]] + f;
        assert Filter(t, p) == r;
        forall k | 0 < k < |r| ensures lt(a, r[k]) {
          assert r[k] == f[k - 1];
        }
      }
    }
  }

  /** Every earlier element is related to every later one by `lt`. */
  ghost predicate Ordered<T>(s: seq<T>, lt: (T, T) -> bool) {
    forall i, j | 0 <= i < j < |s| :: lt(s[i], s[j])
  }

  /** The elements of `s` mapped through `f`, summed (a `reduce((s, x) => s + f(x), 0)`). */
  function SumOf<T>(s: seq<T>, f: T -> int): int {
    if s == [] then 0 else SumOf(s[..|s| - 1], f) + f(s[|s| - 1])
  }

  lemma {:induction false} SumOfAppend<T>(a: seq<T>, b: seq<T>, f: T -> int)
    ensures SumOf(a + b, f) == SumOf(a, f) + SumOf(b, f)
    decreases |b|
  {
    if b == [] {
      assert a + b == a;
    } else {
      assert (a + b)[..|a + b| - 1] == a + b[..|b| - 1];
      SumOfAppend(a, b[..|b| - 1], f);
    }
  }

  lemma {:induction false} SumOfNonNegative<T>(s: seq<T>, f: T -> int)
    requires forall i | 0 <= i < |s| :: f(s[i]) >= 0
    ensures SumOf(s, f) >= 0
  {
    if s != [] {
      SumOfNonNegative(s[..|s| - 1], f);
    }
  }

  function Reverse<T>(s: seq<T>): (r: seq<T>)
    ensures |r| == |s|
    ensures forall i | 0 <= i < |s| :: r[i] == s[|s| - 1 - i]
  {
    if s == [] then [] else [s[|s| - 1]] + Reverse(s[..|s| - 1])
  }

  /** Reversing turns "every earlier element is below every later one" around. */
  lemma ReverseOrdered<T>(s: seq<T>, lt: (T, T) -> bool)
    requires Ordered(s, lt)
    ensures forall i, j | 0 <= i < j < |s| :: lt(Reverse(s)[j], Reverse(s)[i])
  {
    var r := Reverse(s);
    forall i, j | 0 <= i < j < |s| ensures lt(r[j], r[i]) {
      assert r[j] == s[|s| - 1 - j] && r[i] == s[|s| - 1 - i];
    }
  }

  /** No two positions hold equal keys. */
  ghost predicate DistinctBy<T, K>(s: seq<T>, key: T -> K) {
    forall i, j | 0 <= i < j < |s| :: key(s[i]) != key(s[j])
  }

  /** Descending by `key`: a later element never has a larger key. */
  ghost predicate SortedDesc<T>(s: seq<T>, key: T -> int) {
    forall i, j | 0 <= i < j < |s| :: key(s[i]) >= key(s[j])
  }

  /** Inserts `x` into a descending `s` before the first element whose key is
      not larger, so that `x` stays ahead of the equal keys that followed it. */
  function InsertDesc<T>(x: T, s: seq<T>, key: T -> int): (r: seq<T>)
    ensures multiset(r) == multiset(s) + multiset{x}
  {
    if s == [] then [x]
    else if key(s[0]) > key(x) then
      assert s == [s[0]] + s[1..];
      [s[0]] + InsertDesc(x, s[1..], key)
    else
      [x] + s
  }

  lemma {:induction false} InsertDescSorted<T>(x: T, s: seq<T>, key: T -> int)
    requires SortedDesc(s, key)
    ensures SortedDesc(InsertDesc(x, s, key), key)
  {
    if s == [] {
    } else if key(s[0]) > key(x) {
      SortedDescTail(s, key);
      InsertDescSorted(x, s[1..], key);
      InsertDescBelow(key(s[0]), x, s[1..], key);
      SortedDescCons(s[0], InsertDesc(x, s[1..], key), key);
      assert InsertDesc(x, s, key) == [s[0]] + InsertDesc(x, s[1..], key);
    } else {
      forall k | 0 <= k < |s| ensures key(s[k]) <= key(x) {
        if k > 0 {
          assert key(s[0]) >= key(s[k]);
        }
      }
      SortedDescCons(x, s, key);
    }
  }

  /** The tail of a descending sequence is descending and bounded by its head. */
  lemma SortedDescTail<T>(s: seq<T>, key: T -> int)
    requires s != [] && SortedDesc(s, key)
    ensures SortedDesc(s[1..], key)
    ensures forall k | 0 <= k < |s[1..]| :: key(s[1..][k]) <= key(s[0])
  {
    forall i, j | 0 <= i < j < |s[1..]| ensures key(s[1..][i]) >= key(s[1..][j]) {
      assert s[1..][i] == s[i + 1] && s[1..][j] == s[j + 1];
    }
    forall k | 0 <= k < |s[1..]| ensures key(s[1..][k]) <= key(s[0]) {
      assert s[1..][k] == s[k + 1];
    }
  }

  /** An element whose key bounds a descending sequence heads it descending. */
  lemma SortedDescCons<T>(a: T, t: seq<T>, key: T -> int)
    requires SortedDesc(t, key) && forall k | 0 <= k < |t| :: key(t[k]) <= key(a)
    ensures SortedDesc([a] + t, key)
  {
    var r := [a] + t;
    forall i, j | 0 <= i < j < |r| ensures key(r[i]) >= key(r[j]) {
      assert r[j] == t[j - 1];
      if i > 0 {
        assert r[i] == t[i - 1];
      }
    }
  }

  /** A bound on the keys of `x` and of `s` bounds the keys after the insertion. */
  lemma {:induction false} InsertDescBelow<T>(b: int, x: T, s: seq<T>, key: T -> int)
    requires key(x) <= b && forall k | 0 <= k < |s| :: key(s[k]) <= b
    ensures forall k | 0 <= k < |InsertDesc(x, s, key)| :: key(InsertDesc(x, s, key)[k]) <= b
  {
    if s != [] && key(s[0]) > key(x) {
      InsertDescBelow(b, x, s[1..], key);
      var rest := InsertDesc(x, s[1..], key);
      var r := [s[0]] + rest;
      assert InsertDesc(x, s, key) == r;
      forall k | 0 < k < |r| ensures key(r[k]) <= b {
        assert r[k] == rest[k - 1];
      }
    } else if s != [] {
      var r := [x] + s;
      assert InsertDesc(x, s, key) == r;
      forall k | 0 < k < |r| ensures key(r[k]) <= b {
        assert r[k] == s[k - 1];
      }
    }
  }

  /** The stable sort in descending order of `key`, done as an insertion sort. */
  function SortDesc<T>(s: seq<T>, key: T -> int): (r: seq<T>)
    ensures multiset(r) == multiset(s)
    ensures |r| == |s|
    ensures SortedDesc(r, key)
  {
    if s == [] then []
    else
      assert s == [s[0]] + s[1..];
      var rest := SortDesc(s[1..], key);
      InsertDescSorted(s[0], rest, key);
      InsertDesc(s[0], rest, key)
  }

  /** A sorted permutation has the largest key first. */
  lemma SortDescHeadIsMax<T>(s: seq<T>, key: T -> int, x: T)
    requires x in s
    ensures var r := SortDesc(s, key); |r| > 0 && key(r[0]) >= key(x) && r[0] in s
  {
    var r := SortDesc(s, key);
    assert x in multiset(r);
    assert r[0] in multiset(s);
    var k :| 0 <= k < |r| && r[k] == x;
  }
}
