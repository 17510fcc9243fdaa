/** `[...xs].sort(cmp)`: sorting a copy with a comparator that returns a
    negative number, zero or a positive number. The host runtime's sort
    algorithm is not modelled; an insertion sort stands for it, and what is
    proved of it is what any correct sort guarantees: the result is a
    permutation of the input and is ordered by the comparator whenever the
    comparator is consistent on the input. */
module Sorting {
  import opened Seqs

  datatype Order = Asc | Desc

  /** The other direction. */
  function Flip(o: Order): (r: Order)
    ensures r != o
  {
    if o == Asc then Desc else Asc
  }

  /** Puts `x` before the first element it does not compare after. */
  function Insert<T>(x: T, s: seq<T>, cmp: (T, T) -> int): (r: seq<T>)
    ensures multiset(r) == multiset(s) + multiset{x}
  {
    if s == [] then [x]
    else if cmp(x, s[0]) <= 0 then [x] + s
    else
      assert s == [s[0]] + s[1..];
      [s[0]] + Insert(x, s[1..], cmp)
  }

  function SortBy<T>(s: seq<T>, cmp: (T, T) -> int): (r: seq<T>)
    ensures multiset(r) == multiset(s)
  {
    if s == [] then []
    else
      assert s == [s[0]] + s[1..];
      Insert(s[0], SortBy(s[1..], cmp), cmp)
  }

  /** Every element compares at or before every later one. */
  ghost predicate SortedBy<T>(s: seq<T>, cmp: (T, T) -> int) {
    forall i, j :: 0 <= i < j < |s| ==> cmp(s[i], s[j]) <= 0
  }

  /** What a sort needs of its comparator on the values present: any two are
      ordered one way or the other, and "at or before" is transitive. */
  ghost predicate ConsistentOn<T>(cmp: (T, T) -> int, s: seq<T>) {
    && (forall a, b :: a in s && b in s ==> cmp(a, b) <= 0 || cmp(b, a) <= 0)
    && (forall a, b, c :: a in s && b in s && c in s && cmp(a, b) <= 0 && cmp(b, c) <= 0 ==> cmp(a, c) <= 0)
  }

  lemma ConsistentOnSub<T>(cmp: (T, T) -> int, s: seq<T>, t: seq<T>)
    requires ConsistentOn(cmp, s)
    requires forall x :: x in t ==> x in s
    ensures ConsistentOn(cmp, t)
  {
  }

  /** What `Insert` returns holds `x` and the elements of `s`, nothing else. */
  lemma InsertElements<T>(x: T, s: seq<T>, cmp: (T, T) -> int, y: T)
    requires y in Insert(x, s, cmp)
    ensures y == x || y in s
  {
    assert y in multiset(Insert(x, s, cmp));
  }

  /** A sorted sequence stays sorted with an element in front that compares at or before its head. */
  lemma SortedCons<T>(x: T, s: seq<T>, cmp: (T, T) -> int)
    requires SortedBy(s, cmp)
    requires forall j :: 0 <= j < |s| ==> cmp(x, s[j]) <= 0
    ensures SortedBy([x] + s, cmp)
  {
    var r := [x] + s;
    forall i, j | 0 <= i < j < |r| ensures cmp(r[i], r[j]) <= 0 {
      if i > 0 { assert r[i] == s[i - 1] && r[j] == s[j - 1]; }
    }
  }

  lemma {:induction false} InsertSorted<T>(x: T, s: seq<T>, cmp: (T, T) -> int)
    requires SortedBy(s, cmp)
    requires ConsistentOn(cmp, [x] + s)
    ensures SortedBy(Insert(x, s, cmp), cmp)
  {
    if s == [] {
    } else if cmp(x, s[0]) <= 0 {
      forall j | 0 <= j < |s| ensures cmp(x, s[j]) <= 0 {
        if j > 0 {
          assert cmp(s[0], s[j]) <= 0;
          assert x in [x] + s && s[0] in [x] + s && s[j] in [x] + s;
        }
      }
      SortedCons(x, s, cmp);
    } else {
      var tail := s[1..];
      assert x in [x] + s && s[0] in [x] + s;
      assert cmp(s[0], x) <= 0;
      ConsistentOnSub(cmp, [x] + s, [x] + tail);
      InsertSorted(x, tail, cmp);
      var rest := Insert(x, tail, cmp);
      forall j | 0 <= j < |rest| ensures cmp(s[0], rest[j]) <= 0 {
        InsertElements(x, tail, cmp, rest[j]);
        if rest[j] != x {
          var k :| 0 <= k < |tail| && tail[k] == rest[j];
          assert s[k + 1] == rest[j];
        }
      }
      SortedCons(s[0], rest, cmp);
    }
  }

  /** The sorted copy is ordered by a comparator that is consistent on the input. */
  lemma {:induction false} SortBySorted<T>(s: seq<T>, cmp: (T, T) -> int)
    requires ConsistentOn(cmp, s)
    ensures SortedBy(SortBy(s, cmp), cmp)
  {
    if s != [] {
      ConsistentOnSub(cmp, s, s[1..]);
      SortBySorted(s[1..], cmp);
      var sorted := SortBy(s[1..], cmp);
      forall y | y in [s[0]] + sorted ensures y in s {
        if y != s[0] {
          assert y in multiset(sorted);
        }
      }
      ConsistentOnSub(cmp, s, [s[0]] + sorted);
      InsertSorted(s[0], sorted, cmp);
    }
  }

  /** `cmp` puts two values of `s` at the same place only when they are equal. */
  ghost predicate TiesOnlyEqual<T>(cmp: (T, T) -> int, s: seq<T>) {
    forall x, y :: x in s && y in s && cmp(x, y) <= 0 && cmp(y, x) <= 0 ==> x == y
  }

  /** The head of a sorted sequence compares at or before every other element. */
  lemma HeadBefore<T>(a: seq<T>, cmp: (T, T) -> int, y: T)
    requires SortedBy(a, cmp) && y in a && y != a[0]
    ensures cmp(a[0], y) <= 0
  {
    var i :| 0 <= i < |a| && a[i] == y;
  }

  lemma TailMultiset<T>(a: seq<T>, b: seq<T>)
    requires a != [] && b != [] && a[0] == b[0] && multiset(a) == multiset(b)
    ensures multiset(a[1..]) == multiset(b[1..])
  {
    assert a == [a[0]] + a[1..] && b == [b[0]] + b[1..];
    assert multiset(a) == multiset{a[0]} + multiset(a[1..]);
    assert multiset(b) == multiset{b[0]} + multiset(b[1..]);
    assert multiset(a[1..]) == multiset(a) - multiset{a[0]};
    assert multiset(b[1..]) == multiset(b) - multiset{b[0]};
  }

  /** Two non-empty orderings of the same elements start with the same element. */
  lemma HeadsEqual<T>(a: seq<T>, b: seq<T>, cmp: (T, T) -> int)
    requires a != [] && multiset(a) == multiset(b)
    requires SortedBy(a, cmp) && SortedBy(b, cmp)
    requires TiesOnlyEqual(cmp, a)
    ensures b != [] && a[0] == b[0]
  {
    assert a[0] in multiset(b);
    assert b[0] in multiset(a);
    if a[0] != b[0] {
      HeadBefore(b, cmp, a[0]);
    }
  }

  /** Two orderings of the same elements by a comparator that ties only equal
      elements are the same sequence: a sorted permutation is unique. */
  lemma {:induction false} SortedUnique<T>(a: seq<T>, b: seq<T>, cmp: (T, T) -> int)
    requires multiset(a) == multiset(b)
    requires SortedBy(a, cmp) && SortedBy(b, cmp)
    requires TiesOnlyEqual(cmp, a)
    ensures a == b
  {
    if a == [] {
      assert |b| == |multiset(b)| == 0;
    } else {
      HeadsEqual(a, b, cmp);
      TailMultiset(a, b);
      assert forall x :: x in a[1..] ==> x in a;
      SortedUnique(a[1..], b[1..], cmp);
      assert a == [a[0]] + a[1..] && b == [b[0]] + b[1..];
    }
  }

  /** Reversing a sequence ordered by `cmp` gives one ordered by `rev`, the
      comparator with its arguments swapped. */
  lemma ReverseSorted<T>(s: seq<T>, cmp: (T, T) -> int, rev: (T, T) -> int)
    requires SortedBy(s, cmp)
    requires forall x, y :: x in s && y in s ==> rev(x, y) == cmp(y, x)
    ensures SortedBy(Reverse(s), rev)
  {
    var r := Reverse(s);
    forall i, j | 0 <= i < j < |r| ensures rev(r[i], r[j]) <= 0 {
      assert r[i] == s[|s| - 1 - i] && r[j] == s[|s| - 1 - j];
      assert cmp(s[|s| - 1 - j], s[|s| - 1 - i]) <= 0;
    }
  }

  lemma ReversePermutes<T>(s: seq<T>)
    ensures multiset(Reverse(s)) == multiset(s)
  {
    if s != [] {
      ReversePermutes(s[1..]);
      assert s == [s[0]] + s[1..];
    }
  }

  /** A comparator that ties every pair leaves the order as it is. */
  lemma {:induction false} SortByAllTies<T>(s: seq<T>, cmp: (T, T) -> int)
    requires forall a, b :: a in s && b in s ==> cmp(a, b) == 0
    ensures SortBy(s, cmp) == s
  {
    if s != [] {
      var t := s[1..];
      TailTies(s, cmp);
      SortByAllTies(t, cmp);
      if t != [] {
        assert t[0] in s;
      }
      InsertFront(s[0], t, cmp);
      assert s == [s[0]] + t;
    }
  }

  lemma TailTies<T>(s: seq<T>, cmp: (T, T) -> int)
    requires s != [] && forall a, b :: a in s && b in s ==> cmp(a, b) == 0
    ensures forall a, b :: a in s[1..] && b in s[1..] ==> cmp(a, b) == 0
  {
    assert forall x :: x in s[1..] ==> x in s;
  }

  /** An element that goes no later than the head is inserted in front. */
  lemma InsertFront<T>(x: T, s: seq<T>, cmp: (T, T) -> int)
    requires s != [] ==> cmp(x, s[0]) <= 0
    ensures Insert(x, s, cmp) == [x] + s
  {
  }
}
