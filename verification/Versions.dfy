/** Versions as the numbers between their dots, compared with missing parts read as zero. */
module Versions {
  import opened Wrappers

  type Version = seq<nat>

  function Part(v: Version, i: nat): nat {
    if i < |v| then v[i] else 0
  }

  function Tail(v: Version): Version {
    if v == [] then [] else v[1..]
  }

  /** `compare_versions(a, b) < 0`. */
  predicate Before(a: Version, b: Version)
    decreases |a| + |b|
  {
    if a == [] && b == [] then false
    else Part(a, 0) < Part(b, 0) || (Part(a, 0) == Part(b, 0) && Before(Tail(a), Tail(b)))
  }

  /** Python's own order on tuples, where a shorter tuple precedes its extensions. */
  predicate TupleLeq(a: Version, b: Version) {
    a == [] || (b != [] && (a[0] < b[0] || (a[0] == b[0] && TupleLeq(a[1..], b[1..]))))
  }

  /** `is_in_range`: half open, both bounds optional, no version in no range. */
  predicate InRange(v: Version, introduced: Option<Version>, fixed: Option<Version>) {
    && v != []
    && (introduced.Some? ==> !Before(v, introduced.value))
    && (fixed.Some? ==> Before(v, fixed.value))
  }

  /** The same MAJOR.MINOR release line. */
  predicate SameLine(a: Version, b: Version) {
    Part(a, 0) == Part(b, 0) && Part(a, 1) == Part(b, 1)
  }

  /** `a` is on a later release line than `b`. */
  predicate LaterLine(a: Version, b: Version) {
    Part(a, 0) > Part(b, 0) || (Part(a, 0) == Part(b, 0) && Part(a, 1) > Part(b, 1))
  }

  lemma {:induction false} BeforeIrreflexive(a: Version)
    ensures !Before(a, a)
  {
    if a == [] {
    } else {
      BeforeIrreflexive(a[1..]);
    }
  }

  lemma {:induction false} BeforeTransitive(a: Version, b: Version, c: Version)
    requires Before(a, b) && Before(b, c)
    ensures Before(a, c)
    decreases |a| + |b| + |c|
  {
    if Part(a, 0) == Part(b, 0) == Part(c, 0) {
      BeforeTransitive(Tail(a), Tail(b), Tail(c));
    }
  }

  /** Not being before is transitive too: the order has no gaps to slip through. */
  lemma {:induction false} NotBeforeTransitive(a: Version, b: Version, c: Version)
    requires !Before(a, b) && !Before(b, c)
    ensures !Before(a, c)
    decreases |a| + |b| + |c|
  {
    if Before(a, c) && Part(a, 0) == Part(b, 0) == Part(c, 0) {
      NotBeforeTransitive(Tail(a), Tail(b), Tail(c));
    }
  }

  lemma BeforeAsymmetric(a: Version, b: Version)
    requires Before(a, b)
    ensures !Before(b, a)
  {
    if Before(b, a) {
      BeforeTransitive(a, b, a);
      BeforeIrreflexive(a);
    }
  }

  /** The two orders agree wherever the padded one decides. */
  lemma {:induction false} TupleOrderRefines(a: Version, b: Version)
    requires TupleLeq(a, b)
    ensures !Before(b, a)
  {
    if a == [] {
      NothingBeforeEmpty(b);
    } else if a[0] == b[0] {
      TupleOrderRefines(a[1..], b[1..]);
    }
  }

  lemma {:induction false} NothingBeforeEmpty(b: Version)
    ensures !Before(b, [])
  {
    if b == [] {
    } else {
      NothingBeforeEmpty(b[1..]);
    }
  }

  lemma {:induction false} TupleLeqTotal(a: Version, b: Version)
    ensures TupleLeq(a, b) || TupleLeq(b, a)
  {
    if a != [] && b != [] {
      TupleLeqTotal(a[1..], b[1..]);
    }
  }

  lemma {:induction false} TupleLeqTransitive(a: Version, b: Version, c: Version)
    requires TupleLeq(a, b) && TupleLeq(b, c)
    ensures TupleLeq(a, c)
  {
    if a != [] && a[0] == b[0] == c[0] {
      TupleLeqTransitive(a[1..], b[1..], c[1..]);
    }
  }

  /** Only the first two parts and the rest decide an order. */
  lemma BeforeByLine(a: Version, b: Version)
    ensures LaterLine(b, a) ==> Before(a, b)
    ensures Before(a, b) ==> LaterLine(b, a) || SameLine(a, b)
  {
    assert Part(Tail(a), 0) == Part(a, 1) && Part(Tail(b), 0) == Part(b, 1);
    assert Before(Tail(a), Tail(b)) ==> Part(Tail(a), 0) <= Part(Tail(b), 0);
  }

  /** The first part that differs decides, missing parts read as zero. */
  lemma {:induction false} BeforeIff(a: Version, b: Version)
    ensures Before(a, b) <==> exists k: nat :: Part(a, k) < Part(b, k) && forall i: nat | i < k :: Part(a, i) == Part(b, i)
    decreases |a| + |b|
  {
    if a == [] && b == [] {
    } else {
      forall v: Version, i: nat
        ensures Part(v, i + 1) == Part(Tail(v), i)
      {
      }
      BeforeIff(Tail(a), Tail(b));
      if k: nat :| Part(a, k) < Part(b, k) && forall i: nat | i < k :: Part(a, i) == Part(b, i) {
        if k > 0 {
          assert Part(a, 0) == Part(b, 0);
          assert Part(Tail(a), k - 1) < Part(Tail(b), k - 1);
          forall i: nat | i < k - 1
            ensures Part(Tail(a), i) == Part(Tail(b), i)
          {
            assert Part(a, i + 1) == Part(b, i + 1);
          }
        }
      }
      if Part(a, 0) == Part(b, 0) && Before(Tail(a), Tail(b)) {
        var k: nat :| Part(Tail(a), k) < Part(Tail(b), k) && forall i: nat | i < k :: Part(Tail(a), i) == Part(Tail(b), i);
        assert Part(a, k + 1) < Part(b, k + 1);
        forall i: nat | i < k + 1
          ensures Part(a, i) == Part(b, i)
        {
          assert i > 0 ==> Part(a, i) == Part(Tail(a), i - 1) && Part(b, i) == Part(Tail(b), i - 1);
        }
      }
    }
  }
}
