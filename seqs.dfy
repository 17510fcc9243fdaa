/** Sequence operations the dashboard relies on: `Array.prototype.filter`,
    `reverse`, `slice`, and the subsequence relation that filtering keeps. */
module Seqs {

  /** `s.filter(p)`: the elements of `s` that satisfy `p`, in their order. */
  function FilterSeq<T>(s: seq<T>, p: T -> bool): (r: seq<T>)
    ensures |r| <= |s|
    ensures forall x :: x in r ==> x in s && p(x)
    ensures forall x :: x in s && p(x) ==> x in r
  {
    if s == [] then []
    else if p(s[0]) then [s[0]] + FilterSeq(s[1..], p)
    else FilterSeq(s[1..], p)
  }

  /** `a` is obtained from `b` by deleting elements: order is kept and nothing is added. */
  predicate IsSubsequence<T(==)>(a: seq<T>, b: seq<T>)
  {
    if a == [] then true
    else if b == [] then false
    else (a[0] == b[0] && IsSubsequence(a[1..], b[1..])) || IsSubsequence(a, b[1..])
  }

  lemma {:induction false} FilterIsSubsequence<T>(s: seq<T>, p: T -> bool)
    ensures IsSubsequence(FilterSeq(s, p), s)
  {
    if s != [] {
      FilterIsSubsequence(s[1..], p);
      var r := FilterSeq(s[1..], p);
      if p(s[0]) {
        assert FilterSeq(s, p) == [s[0]] + r;
        assert ([s[0]] + r)[1..] == r;
      } else if r != [] {
        assert FilterSeq(s, p) == r;
      }
    }
  }

  /** Filtering with a predicate every element satisfies changes nothing. */
  lemma {:induction false} FilterAllKept<T>(s: seq<T>, p: T -> bool)
    requires forall x :: x in s ==> p(x)
    ensures FilterSeq(s, p) == s
  {
    if s != [] {
      assert s[0] in s;
      assert forall x :: x in s[1..] ==> x in s;
      FilterAllKept(s[1..], p);
      assert s == [s[0]] + s[1..];
    }
  }

  /** Two predicates that agree on the elements give the same filter. */
  lemma {:induction false} FilterSame<T>(s: seq<T>, p: T -> bool, q: T -> bool)
    requires forall x :: x in s ==> p(x) == q(x)
    ensures FilterSeq(s, p) == FilterSeq(s, q)
  {
    if s != [] {
      assert s[0] in s;
      assert forall x :: x in s[1..] ==> x in s;
      FilterSame(s[1..], p, q);
    }
  }

  /** Filtering by `p` and then by `q` is filtering once by their conjunction `pq`. */
  lemma {:induction false} FilterThen<T>(s: seq<T>, p: T -> bool, q: T -> bool, pq: T -> bool)
    requires forall x :: x in s ==> pq(x) == (p(x) && q(x))
    ensures FilterSeq(FilterSeq(s, p), q) == FilterSeq(s, pq)
  {
    if s != [] {
      assert s[0] in s;
      assert forall x :: x in s[1..] ==> x in s;
      FilterThen(s[1..], p, q, pq);
      if p(s[0]) {
        assert FilterSeq(s, p) == [s[0]] + FilterSeq(s[1..], p);
        assert ([s[0]] + FilterSeq(s[1..], p))[1..] == FilterSeq(s[1..], p);
      }
    }
  }

  /** How often `x` occurs in `s`, counted from the front. */
  function Count<T(==)>(s: seq<T>, x: T): nat {
    if s == [] then 0
    else Count(s[..|s| - 1], x) + (if s[|s| - 1] == x then 1 else 0)
  }

  /** Extending a prefix by one element adds one to that element's count only. */
  lemma CountStep<T>(s: seq<T>, i: int)
    requires 0 <= i < |s|
    ensures forall x :: Count(s[..i + 1], x) == Count(s[..i], x) + (if s[i] == x then 1 else 0)
  {
    assert s[..i + 1][..i] == s[..i];
  }

  lemma {:induction false} CountPositive<T>(s: seq<T>, x: T)
    ensures Count(s, x) > 0 <==> x in s
  {
    if s != [] {
      var p := s[..|s| - 1];
      CountPositive(p, x);
      assert s == p + [s[|s| - 1]];
    }
  }

  /** Counting over a concatenation adds the counts of the parts. */
  lemma {:induction false} CountAppend<T>(a: seq<T>, b: seq<T>, x: T)
    ensures Count(a + b, x) == Count(a, x) + Count(b, x)
  {
    if b == [] {
      assert a + b == a;
    } else {
      var b' := b[..|b| - 1];
      assert (a + b)[..|a + b| - 1] == a + b';
      assert (a + b)[|a + b| - 1] == b[|b| - 1];
      CountAppend(a, b', x);
    }
  }

  /** Filtering keeps every occurrence of a value the predicate accepts. */
  lemma {:induction false} FilterCount<T>(s: seq<T>, p: T -> bool, x: T)
    requires p(x)
    ensures Count(FilterSeq(s, p), x) == Count(s, x)
  {
    if s != [] {
      var rest := FilterSeq(s[1..], p);
      FilterCount(s[1..], p, x);
      assert [s[0]][..0] == [];
      CountAppend([s[0]], s[1..], x);
      assert s == [s[0]] + s[1..];
      if p(s[0]) {
        CountAppend([s[0]], rest, x);
      } else {
        assert s[0] != x;
      }
    }
  }

  lemma FilterCounts<T>(s: seq<T>, p: T -> bool)
    ensures forall x :: p(x) ==> Count(FilterSeq(s, p), x) == Count(s, x)
  {
    forall x | p(x)
      ensures Count(FilterSeq(s, p), x) == Count(s, x)
    {
      FilterCount(s, p, x);
    }
  }

  /** A value counts more than once exactly when two different positions hold it. */
  lemma CountTwice<T>(s: seq<T>, x: T)
    ensures Count(s, x) > 1 <==> exists i, j :: 0 <= i < j < |s| && s[i] == x && s[j] == x
  {
    if Count(s, x) > 1 {
      TwiceHasPair(s, x);
    }
    if exists i, j :: 0 <= i < j < |s| && s[i] == x && s[j] == x {
      var i, j :| 0 <= i < j < |s| && s[i] == x && s[j] == x;
      PairCountsTwice(s, x, i, j);
    }
  }

  lemma {:induction false} TwiceHasPair<T>(s: seq<T>, x: T)
    requires Count(s, x) > 1
    ensures exists i, j :: 0 <= i < j < |s| && s[i] == x && s[j] == x
  {
    var p := s[..|s| - 1];
    var n := |s| - 1;
    if s[n] == x {
      CountPositive(p, x);
      var i :| 0 <= i < |p| && p[i] == x;
      assert s[i] == x && s[n] == x;
    } else {
      TwiceHasPair(p, x);
      var i, j :| 0 <= i < j < |p| && p[i] == x && p[j] == x;
      assert s[i] == x && s[j] == x;
    }
  }

  lemma {:induction false} PairCountsTwice<T>(s: seq<T>, x: T, i: int, j: int)
    requires 0 <= i < j < |s| && s[i] == x && s[j] == x
    ensures Count(s, x) > 1
  {
    var p := s[..|s| - 1];
    assert p[i] == x;
    if j == |s| - 1 {
      CountPositive(p, x);
    } else {
      assert p[j] == x;
      PairCountsTwice(p, x, i, j);
    }
  }

  /** A slice of a sequence whose pairs are in order has its pairs in order. */
  lemma SliceOrdered<T>(s: seq<T>, lo: int, hi: int, ok: (T, T) -> bool)
    requires 0 <= lo <= hi <= |s|
    requires forall i, j :: 0 <= i < j < |s| ==> ok(s[i], s[j])
    ensures forall i, j :: 0 <= i < j < hi - lo ==> ok(s[lo..hi][i], s[lo..hi][j])
  {
    forall i, j | 0 <= i < j < hi - lo
      ensures ok(s[lo..hi][i], s[lo..hi][j])
    {
      assert s[lo..hi][i] == s[lo + i] && s[lo..hi][j] == s[lo + j];
    }
  }

  /** `s.reverse()` on a copy. */
  function Reverse<T>(s: seq<T>): (r: seq<T>)
    ensures |r| == |s|
    ensures forall i :: 0 <= i < |s| ==> r[i] == s[|s| - 1 - i]
  {
    if s == [] then [] else Reverse(s[1..]) + [s[0]]
  }

  /** `s.slice(begin, end)` with JavaScript's index rules: a negative index
      counts from the end, indices are clamped to the length, and an empty
      range yields the empty array. */
  function JsSlice<T>(s: seq<T>, begin: int, end: int): (r: seq<T>)
    ensures 0 <= begin <= end ==> r == s[Clamp(begin, |s|)..Clamp(end, |s|)]
    ensures |r| <= |s|
    ensures forall x :: x in r ==> x in s
    ensures begin <= end ==> |r| <= end - begin
    ensures 0 <= end <= begin ==> r == []
  {
    var b := JsIndex(begin, |s|);
    var e := JsIndex(end, |s|);
    if b < e then s[b..e] else []
  }

  /** A `slice` index resolved against a length `n`. */
  function JsIndex(i: int, n: nat): (r: nat)
    ensures r <= n
    ensures i >= 0 ==> r == Clamp(i, n)
  {
    if i < 0 then (if n + i < 0 then 0 else n + i) else Clamp(i, n)
  }

  function Clamp(i: nat, n: nat): (r: nat)
    ensures r <= n && r <= i && (r == i || r == n)
  {
    if i < n then i else n
  }
}
