/** Stable sorting by a caller's order, standing for Python's `sorted`. */
module Sorting {
  ghost predicate TotalPreorder<T(!new)>(leq: (T, T) -> bool) {
    && (forall x, y :: leq(x, y) || leq(y, x))
    && (forall x, y, z :: leq(x, y) && leq(y, z) ==> leq(x, z))
  }

  ghost predicate Antisymmetric<T(!new)>(leq: (T, T) -> bool) {
    forall x, y :: leq(x, y) && leq(y, x) ==> x == y
  }

  ghost predicate Ordered<T(!new)>(s: seq<T>, leq: (T, T) -> bool) {
    forall i, j | 0 <= i < j < |s| :: leq(s[i], s[j])
  }

  function Insert<T>(x: T, s: seq<T>, leq: (T, T) -> bool): seq<T> {
    if s == [] then [x]
    else if leq(x, s[0]) then [x] + s
    else [s[0]] + Insert(x, s[1..], leq)
  }

  function Sort<T>(s: seq<T>, leq: (T, T) -> bool): seq<T> {
    if s == [] then [] else Insert(s[0], Sort(s[1..], leq), leq)
  }

  lemma {:induction false} InsertContents<T>(x: T, s: seq<T>, leq: (T, T) -> bool)
    ensures multiset(Insert(x, s, leq)) == multiset{x} + multiset(s)
  {
    if s == [] {
    } else if leq(x, s[0]) {
    } else {
      InsertContents(x, s[1..], leq);
      assert s == [s[0]] + s[1..];
    }
  }

  lemma {:induction false} SortContents<T>(s: seq<T>, leq: (T, T) -> bool)
    ensures multiset(Sort(s, leq)) == multiset(s) && |Sort(s, leq)| == |s|
  {
    if s == [] {
    } else {
      SortContents(s[1..], leq);
      InsertContents(s[0], Sort(s[1..], leq), leq);
      assert s == [s[0]] + s[1..];
    }
    assert |multiset(Sort(s, leq))| == |multiset(s)|;
  }

  lemma SortMembers<T>(s: seq<T>, leq: (T, T) -> bool, x: T)
    ensures x in Sort(s, leq) <==> x in s
  {
    SortContents(s, leq);
    assert x in multiset(Sort(s, leq)) <==> x in multiset(s);
  }

  lemma {:induction false} InsertOrdered<T(!new)>(x: T, s: seq<T>, leq: (T, T) -> bool)
    requires TotalPreorder(leq) && Ordered(s, leq)
    ensures Ordered(Insert(x, s, leq), leq)
  {
    if s == [] {
    } else if leq(x, s[0]) {
      var r := [x] + s;
      forall j | 0 < j < |r|
        ensures leq(x, r[j])
      {
        assert r[j] == s[j - 1] && (j > 1 ==> leq(s[0], s[j - 1]));
      }
      forall i, j | 0 <= i < j < |r|
        ensures leq(r[i], r[j])
      {
        if i > 0 {
          assert leq(s[i - 1], s[j - 1]);
        }
      }
    } else {
      var tail := s[1..];
      InsertOrdered(x, tail, leq);
      InsertContents(x, tail, leq);
      var r := Insert(x, tail, leq);
      forall j | 0 <= j < |r|
        ensures leq(s[0], r[j])
      {
        assert r[j] in multiset(r);
        if r[j] != x {
          assert r[j] in multiset(tail);
          var k :| 0 <= k < |tail| && tail[k] == r[j];
          assert leq(s[0], s[k + 1]);
        }
      }
    }
  }

  lemma {:induction false} SortOrdered<T(!new)>(s: seq<T>, leq: (T, T) -> bool)
    requires TotalPreorder(leq)
    ensures Ordered(Sort(s, leq), leq)
  {
    if s == [] {
    } else {
      SortOrdered(s[1..], leq);
      InsertOrdered(s[0], Sort(s[1..], leq), leq);
    }
  }

  /** Two ordered arrangements of the same elements are the same sequence. */
  lemma {:induction false} OrderedUnique<T(!new)>(a: seq<T>, b: seq<T>, leq: (T, T) -> bool)
    requires TotalPreorder(leq) && Antisymmetric(leq)
    requires Ordered(a, leq) && Ordered(b, leq) && multiset(a) == multiset(b)
    ensures a == b
  {
    assert b != [] ==> b[0] in multiset(b);
    assert a != [] ==> a[0] in multiset(a);
    assert |multiset(a)| == |multiset(b)|;
    if a == [] {
    } else {
      FirstIsLeast(a, b[0], leq);
      FirstIsLeast(b, a[0], leq);
      assert multiset(a[1..]) == multiset(a) - multiset{a[0]} by { assert a == [a[0]] + a[1..]; }
      assert multiset(b[1..]) == multiset(b) - multiset{b[0]} by { assert b == [b[0]] + b[1..]; }
      OrderedUnique(a[1..], b[1..], leq);
      assert a == [a[0]] + a[1..] && b == [b[0]] + b[1..];
    }
  }

  lemma FirstIsLeast<T(!new)>(s: seq<T>, x: T, leq: (T, T) -> bool)
    requires TotalPreorder(leq) && Ordered(s, leq) && s != []
    ensures x in multiset(s) ==> leq(s[0], x)
  {
    assert leq(x, x);
    if x in multiset(s) {
      var i :| 0 <= i < |s| && s[i] == x;
    }
  }

  /** Sorting forgets the order the elements came in, when the order tells them all apart. */
  lemma SortCanonical<T(!new)>(a: seq<T>, b: seq<T>, leq: (T, T) -> bool)
    requires TotalPreorder(leq) && Antisymmetric(leq)
    ensures Sort(a, leq) == Sort(b, leq) <==> multiset(a) == multiset(b)
  {
    SortContents(a, leq);
    SortContents(b, leq);
    SortOrdered(a, leq);
    SortOrdered(b, leq);
    if multiset(a) == multiset(b) {
      OrderedUnique(Sort(a, leq), Sort(b, leq), leq);
    }
  }

  /** Sequences with the same contents repeat themselves alike. */
  lemma {:induction false} DistinctByContents<T>(a: seq<T>, b: seq<T>)
    requires multiset(a) == multiset(b) && forall i, j | 0 <= i < j < |a| :: a[i] != a[j]
    ensures forall i, j | 0 <= i < j < |b| :: b[i] != b[j]
  {
    forall x
      ensures multiset(a)[x] <= 1
    {
      CountAtMostOnce(a, x);
    }
    forall i, j | 0 <= i < j < |b|
      ensures b[i] != b[j]
    {
      assert multiset(a)[b[i]] <= 1;
      if b[i] == b[j] {
        RepeatCounts(b, i, j);
      }
    }
  }

  lemma {:induction false} RepeatCounts<T>(b: seq<T>, i: nat, j: nat)
    requires i < j < |b| && b[i] == b[j]
    ensures multiset(b)[b[i]] >= 2
  {
    assert b == [b[0]] + b[1..];
    if i == 0 {
      assert b[1..][j - 1] in multiset(b[1..]);
    } else {
      RepeatCounts(b[1..], i - 1, j - 1);
    }
  }

  lemma {:induction false} CountAtMostOnce<T>(a: seq<T>, x: T)
    requires forall i, j | 0 <= i < j < |a| :: a[i] != a[j]
    ensures multiset(a)[x] <= 1
  {
    if a == [] {
    } else {
      CountAtMostOnce(a[1..], x);
      assert a == [a[0]] + a[1..];
      assert a[0] !in a[1..];
    }
  }

  /** Two sequences without repeats and with the same members have the same contents. */
  lemma SameMembersSameContents<T>(a: seq<T>, b: seq<T>)
    requires forall i, j | 0 <= i < j < |a| :: a[i] != a[j]
    requires forall i, j | 0 <= i < j < |b| :: b[i] != b[j]
    requires forall x :: x in a <==> x in b
    ensures multiset(a) == multiset(b)
  {
    forall x
      ensures multiset(a)[x] == multiset(b)[x]
    {
      CountAtMostOnce(a, x);
      CountAtMostOnce(b, x);
      assert x in multiset(a) <==> x in a;
      assert x in multiset(b) <==> x in b;
    }
  }
}
