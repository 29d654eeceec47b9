/** What the free-text bounds of a repository advisory mean as half-open version ranges. */
module AdvisoryRanges {
  import opened Wrappers
  import opened Sorting
  import opened Versions

  datatype Operator = Below | UpTo | Above | From | Exactly

  /** One tokenised bound; the version has at least one part. */
  datatype Bound = Bound(operator: Operator, version: Version) {
    predicate Upper() { operator.Below? || operator.UpTo? }

    predicate SetsLower() { operator.From? || operator.Above? || operator.Exactly? }

    predicate SetsUpper() { Upper() || operator.Exactly? }
  }

  datatype Range = Range(introduced: Option<Version>, fixed: Option<Version>) {
    predicate Contains(v: Version) { InRange(v, introduced, fixed) }
  }

  const FIRST_RELEASE: Version := [1, 0, 0]

  predicate Tokenised(bounds: seq<Bound>) {
    forall i | 0 <= i < |bounds| :: bounds[i].version != []
  }

  /** The first unaffected version for '< x' or '<= x'. */
  function UpperBound(b: Bound): Version
    requires b.version != []
  {
    var last := |b.version| - 1;
    if b.operator.Below? then b.version else b.version[last := b.version[last] + 1]
  }

  /** The first release of the line after the one `v` is on. */
  function LineAfter(v: Version): Version {
    [Part(v, 0), Part(v, 1) + 1, 0]
  }

  predicate AllUpper(bounds: seq<Bound>) {
    forall i | 0 <= i < |bounds| :: bounds[i].Upper()
  }

  function Fixes(bounds: seq<Bound>): (fixes: seq<Version>)
    requires Tokenised(bounds)
    ensures forall i, j | 0 <= i < j < |fixes| :: fixes[i] != fixes[j]
    ensures forall f :: f in fixes <==> exists i | 0 <= i < |bounds| :: UpperBound(bounds[i]) == f
    decreases |bounds|
  {
    if bounds == [] then []
    else
      var front, last := bounds[..|bounds| - 1], UpperBound(bounds[|bounds| - 1]);
      var fixes := Fixes(front);
      if last in fixes then fixes else fixes + [last]
  }

  /** One range per fix: from the first release, or from the line after the previous fix. */
  function LineRanges(fixes: seq<Version>): (ranges: seq<Range>)
    requires fixes != []
    ensures |ranges| == |fixes|
  {
    if |fixes| == 1 then [Range(Some(FIRST_RELEASE), Some(fixes[0]))]
    else
      var n := |fixes|;
      LineRanges(fixes[..n - 1]) + [Range(Some(LineAfter(fixes[n - 2])), Some(fixes[n - 1]))]
  }

  /** The first version a lower bound takes in. */
  function LowerEnd(b: Bound): Version {
    if b.operator.Above? then b.version + [1] else b.version
  }

  /** The first version an upper or an exact bound leaves out. */
  function UpperEnd(b: Bound): Version
    requires b.version != []
  {
    if b.operator.Exactly? then b.version + [1] else UpperBound(b)
  }

  /** The bound that decides the lower end: the last that states one. */
  function LastLower(bounds: seq<Bound>): Option<Version>
    requires Tokenised(bounds)
  {
    if bounds == [] then None
    else
      var b := bounds[|bounds| - 1];
      if b.SetsLower() then Some(LowerEnd(b)) else LastLower(bounds[..|bounds| - 1])
  }

  function LastUpper(bounds: seq<Bound>): Option<Version>
    requires Tokenised(bounds)
  {
    if bounds == [] then None
    else
      var b := bounds[|bounds| - 1];
      if b.SetsUpper() then Some(UpperEnd(b)) else LastUpper(bounds[..|bounds| - 1])
  }

  /** The ranges of a tokenised expression; no bounds stands for text that is not a bound list. */
  function RangesOf(bounds: seq<Bound>): seq<Range>
    requires Tokenised(bounds)
  {
    if |bounds| > 1 && AllUpper(bounds) then
      UpperBoundIsFix(bounds);
      SortContents(Fixes(bounds), TupleLeq);
      LineRanges(Sort(Fixes(bounds), TupleLeq))
    else if bounds == [] then []
    else [Range(Some(match LastLower(bounds) case Some(v) => v case None => FIRST_RELEASE), LastUpper(bounds))]
  }

  lemma UpperBoundIsFix(bounds: seq<Bound>)
    requires Tokenised(bounds) && bounds != []
    ensures Fixes(bounds) != []
  {
    assert UpperBound(bounds[0]) in Fixes(bounds);
  }

  method RepositoryRanges(bounds: seq<Bound>) returns (ranges: seq<Range>)
    requires Tokenised(bounds)
    ensures ranges == RangesOf(bounds)
  {
    ranges := [];
    if bounds == [] {
      return;
    }
    if |bounds| > 1 && AllUpper(bounds) {
      UpperBoundIsFix(bounds);
      SortContents(Fixes(bounds), TupleLeq);
      var fixes := Sort(Fixes(bounds), TupleLeq);
      ranges := [Range(Some(FIRST_RELEASE), Some(fixes[0]))];
      for i := 1 to |fixes|
        invariant ranges == LineRanges(fixes[..i])
      {
        assert fixes[..i + 1][..i] == fixes[..i];
        ranges := ranges + [Range(Some(LineAfter(fixes[i - 1])), Some(fixes[i]))];
      }
      assert fixes[..|fixes|] == fixes;
      return;
    }
    var introduced: Option<Version> := None;
    var fixed: Option<Version> := None;
    for i := 0 to |bounds|
      invariant introduced == LastLower(bounds[..i])
      invariant fixed == LastUpper(bounds[..i])
    {
      assert bounds[..i + 1][..i] == bounds[..i];
      var version := bounds[i].version;
      match bounds[i].operator {
        case From => introduced := Some(version);
        case Above => introduced := Some(version + [1]);
        case Below => fixed := Some(UpperBound(bounds[i]));
        case UpTo => fixed := Some(UpperBound(bounds[i]));
        case Exactly => introduced, fixed := Some(version), Some(version + [1]);
      }
    }
    assert bounds[..|bounds|] == bounds;
    SomeBoundIsSet(bounds);
    if fixed == None && introduced == None {
      return;
    }
    ranges := [Range(Some(if introduced == None then FIRST_RELEASE else introduced.value), fixed)];
  }

  lemma SomeBoundIsSet(bounds: seq<Bound>)
    requires Tokenised(bounds) && bounds != []
    ensures LastLower(bounds).Some? || LastUpper(bounds).Some?
  {
    assert bounds[|bounds| - 1].SetsLower() || bounds[|bounds| - 1].Upper();
  }

  /** The expression is read line by line when it has several bounds and all are upper ones. */
  lemma AllUpperIff(bounds: seq<Bound>)
    ensures AllUpper(bounds) <==> forall b | b in bounds :: b.operator == Below || b.operator == UpTo
  {
    if AllUpper(bounds) {
      forall b | b in bounds
        ensures b.Upper()
      {
        var i :| 0 <= i < |bounds| && bounds[i] == b;
      }
    }
  }

  /** Text that holds no bounds is no range. */
  lemma NoBoundsNoRanges()
    ensures RangesOf([]) == []
  {
  }

  /** What is older than 1.0.0 has a 0 in front. */
  lemma OlderThanTheFirstReleaseIff(v: Version)
    ensures Before(v, FIRST_RELEASE) <==> Part(v, 0) == 0
    ensures FIRST_RELEASE == [1, 0, 0]
  {
    BeforeIff(v, FIRST_RELEASE);
    assert Part(FIRST_RELEASE, 0) == 1 && forall k: nat | k > 0 :: Part(FIRST_RELEASE, k) == 0;
    assert forall i: nat | i < 0 :: Part(v, i) == Part(FIRST_RELEASE, i);
    hide Before;
  }

  // ----- several upper bounds: one range per release line

  ghost predicate InSome(v: Version, ranges: seq<Range>) {
    exists i | 0 <= i < |ranges| :: ranges[i].Contains(v)
  }

  /** Fixes in increasing order. */
  ghost predicate Ascending(fixes: seq<Version>) {
    forall i, j | 0 <= i < j < |fixes| :: !Before(fixes[j], fixes[i])
  }

  lemma SortedFixesAscend(bounds: seq<Bound>)
    requires Tokenised(bounds)
    ensures Ascending(Sort(Fixes(bounds), TupleLeq))
  {
    forall x: Version, y: Version
      ensures TupleLeq(x, y) || TupleLeq(y, x)
    {
      TupleLeqTotal(x, y);
    }
    forall x: Version, y: Version, z: Version | TupleLeq(x, y) && TupleLeq(y, z)
      ensures TupleLeq(x, z)
    {
      TupleLeqTransitive(x, y, z);
    }
    var fixes := Sort(Fixes(bounds), TupleLeq);
    SortOrdered(Fixes(bounds), TupleLeq);
    forall i, j | 0 <= i < j < |fixes|
      ensures !Before(fixes[j], fixes[i])
    {
      TupleOrderRefines(fixes[i], fixes[j]);
    }
  }

  /** Reaching the line after `f` is being on a later line. */
  lemma LineAfterMeans(v: Version, f: Version)
    ensures !Before(v, LineAfter(f)) <==> LaterLine(v, f)
  {
    var t := Tail(Tail(v));
    assert Part(Tail(v), 0) == Part(v, 1);
    assert LineAfter(f)[1..][1..] == [0];
    ZeroIsLeast(t);
  }

  lemma {:induction false} ZeroIsLeast(v: Version)
    ensures !Before(v, [0])
  {
    NothingBeforeEmpty(Tail(v));
  }

  /** The i-th range: its fix, and the lower end its predecessor gives it. */
  lemma {:induction false} LineRangeAt(fixes: seq<Version>, i: nat)
    requires i < |fixes|
    ensures LineRanges(fixes)[i] == Range(Some(if i == 0 then FIRST_RELEASE else LineAfter(fixes[i - 1])), Some(fixes[i]))
    decreases |fixes|
  {
    if |fixes| > 1 {
      LineRangeAt(fixes[..|fixes| - 1], if i < |fixes| - 1 then i else 0);
    }
  }

  /** No fix is on `v`'s release line at or below `v`: `v` has not been patched. */
  ghost predicate Unpatched(v: Version, fixes: seq<Version>) {
    forall i | 0 <= i < |fixes| :: SameLine(v, fixes[i]) ==> Before(v, fixes[i])
  }

  /** `v` is old enough to be affected by something OpenCloud shipped. */
  ghost predicate Shipped(v: Version, fixes: seq<Version>) {
    !Before(v, FIRST_RELEASE) || exists i | 0 <= i < |fixes| :: !Before(v, fixes[i])
  }

  lemma RangeIsUnpatched(fixes: seq<Version>, v: Version, i: nat)
    requires Ascending(fixes) && i < |fixes| && v != [] && LineRanges(fixes)[i].Contains(v)
    ensures Before(v, fixes[|fixes| - 1]) && Unpatched(v, fixes) && Shipped(v, fixes)
  {
    LineRangeAt(fixes, i);
    if i < |fixes| - 1 {
      BelowLater(v, fixes[i], fixes[|fixes| - 1]);
    }
    if i > 0 {
      LineAfterMeans(v, fixes[i - 1]);
      BeforeByLine(fixes[i - 1], v);
      BeforeAsymmetric(fixes[i - 1], v);
    }
    forall k | 0 <= k < i
      ensures !SameLine(v, fixes[k])
    {
      if k < i - 1 {
        BeforeByLine(fixes[i - 1], fixes[k]);
      }
      assert LaterLine(v, fixes[i - 1]) && !LaterLine(fixes[k], fixes[i - 1]);
    }
    forall k | i < k < |fixes|
      ensures Before(v, fixes[k])
    {
      BelowLater(v, fixes[i], fixes[k]);
    }
  }

  lemma BelowLater(v: Version, f: Version, g: Version)
    requires Before(v, f) && !Before(g, f)
    ensures Before(v, g)
  {
    if !Before(v, g) {
      NotBeforeTransitive(v, g, f);
    }
  }

  /** The range an unpatched version falls into: that of the least fix above it. */
  lemma UnpatchedHasRange(fixes: seq<Version>, v: Version) returns (i: nat)
    requires Ascending(fixes) && fixes != [] && v != []
    requires Before(v, fixes[|fixes| - 1]) && Unpatched(v, fixes) && Shipped(v, fixes)
    ensures i < |fixes| && LineRanges(fixes)[i].Contains(v)
  {
    i := 0;
    while !Before(v, fixes[i])
      invariant i < |fixes|
      invariant forall k | 0 <= k < i :: !Before(v, fixes[k])
      decreases |fixes| - i
    {
      i := i + 1;
    }
    LineRangeAt(fixes, i);
    if i == 0 {
      forall k | 0 <= k < |fixes|
        ensures Before(v, fixes[k])
      {
        if k > 0 {
          BelowLater(v, fixes[0], fixes[k]);
        }
      }
    } else {
      var f := fixes[i - 1];
      assert !SameLine(v, f);
      BeforeByLine(v, f);
      LineAfterMeans(v, f);
    }
  }

  /**
   The exact meaning of an expression of upper bounds only: a version is in the
   union of the ranges iff it is below the largest fix, not patched on its own
   line, and no older than the first release or some fix.
   */
  lemma UpperBoundsMean(bounds: seq<Bound>, v: Version)
    requires Tokenised(bounds) && |bounds| > 1 && AllUpper(bounds) && v != []
    ensures var fixes := Sort(Fixes(bounds), TupleLeq);
            InSome(v, RangesOf(bounds)) <==>
            (exists f | f in fixes :: Before(v, f)) && Unpatched(v, fixes) && Shipped(v, fixes)
  {
    var fixes := Sort(Fixes(bounds), TupleLeq);
    UpperBoundIsFix(bounds);
    SortContents(Fixes(bounds), TupleLeq);
    SortedFixesAscend(bounds);
    LineRangeAt(fixes, 0);
    if InSome(v, RangesOf(bounds)) {
      var i :| 0 <= i < |fixes| && LineRanges(fixes)[i].Contains(v);
      RangeIsUnpatched(fixes, v, i);
      assert fixes[|fixes| - 1] in fixes;
    }
    if (exists f | f in fixes :: Before(v, f)) && Unpatched(v, fixes) && Shipped(v, fixes) {
      var k :| 0 <= k < |fixes| && Before(v, fixes[k]);
      if k < |fixes| - 1 {
        BelowLater(v, fixes[k], fixes[|fixes| - 1]);
      }
      var i := UnpatchedHasRange(fixes, v);
    }
  }

  /**
   With every fix at least 1.0.0 the lower limit is the first release, and a
   fixed release, or any later patch on its line, is never reported affected.
   */
  lemma ReleasedUpperBoundsMean(bounds: seq<Bound>, v: Version)
    requires Tokenised(bounds) && |bounds| > 1 && AllUpper(bounds) && v != []
    requires forall i | 0 <= i < |bounds| :: !Before(UpperBound(bounds[i]), FIRST_RELEASE)
    ensures InSome(v, RangesOf(bounds)) <==>
            && !Before(v, FIRST_RELEASE)
            && (exists i | 0 <= i < |bounds| :: Before(v, UpperBound(bounds[i])))
            && (forall i | 0 <= i < |bounds| :: SameLine(v, UpperBound(bounds[i])) ==> Before(v, UpperBound(bounds[i])))
  {
    var fixes := Sort(Fixes(bounds), TupleLeq);
    UpperBoundsMean(bounds, v);
    FixMembers(bounds);
    forall k | 0 <= k < |fixes| && !Before(v, fixes[k])
      ensures !Before(v, FIRST_RELEASE)
    {
      assert fixes[k] in fixes;
      NotBeforeTransitive(v, fixes[k], FIRST_RELEASE);
    }
    forall i | 0 <= i < |bounds|
      ensures UpperBound(bounds[i]) in fixes
    {
    }
    forall k | 0 <= k < |fixes|
      ensures exists i | 0 <= i < |bounds| :: UpperBound(bounds[i]) == fixes[k]
    {
      assert fixes[k] in fixes;
    }
  }

  lemma {:induction false} FixMembers(bounds: seq<Bound>)
    requires Tokenised(bounds)
    ensures forall f :: f in Sort(Fixes(bounds), TupleLeq) <==> exists i | 0 <= i < |bounds| :: UpperBound(bounds[i]) == f
  {
    forall f
      ensures f in Sort(Fixes(bounds), TupleLeq) <==> f in Fixes(bounds)
    {
      SortMembers(Fixes(bounds), TupleLeq, f);
    }
  }

  /** The ranges come out in order and no version is in two of them. */
  lemma RangesAreDisjoint(bounds: seq<Bound>, i: nat, j: nat, v: Version)
    requires Tokenised(bounds) && |bounds| > 1 && AllUpper(bounds)
    requires i < j < |RangesOf(bounds)|
    requires RangesOf(bounds)[j].Contains(v)
    ensures !RangesOf(bounds)[i].Contains(v)
    ensures forall u | RangesOf(bounds)[i].Contains(u) :: Before(u, v)
  {
    var fixes := Sort(Fixes(bounds), TupleLeq);
    UpperBoundIsFix(bounds);
    SortContents(Fixes(bounds), TupleLeq);
    SortedFixesAscend(bounds);
    LineRangeAt(fixes, i);
    LineRangeAt(fixes, j);
    LineAfterMeans(v, fixes[j - 1]);
    BeforeByLine(fixes[j - 1], v);
    if i < j - 1 {
      NotBeforeThenBefore(fixes[i], fixes[j - 1], v);
    }
    BeforeAsymmetric(fixes[i], v);
    forall u | RangesOf(bounds)[i].Contains(u)
      ensures Before(u, v)
    {
      BeforeTransitive(u, fixes[i], v);
    }
  }

  lemma NotBeforeThenBefore(a: Version, b: Version, c: Version)
    requires !Before(b, a) && Before(b, c)
    ensures Before(a, c)
  {
    if !Before(a, c) {
      NotBeforeTransitive(b, a, c);
    }
  }

  /** A version between two fixes, on neither one's line, is affected. */
  lemma BetweenTwoFixes(bounds: seq<Bound>, v: Version)
    requires |bounds| == 2 && bounds[0].operator.Below? && bounds[1].operator.Below? && Tokenised(bounds)
    requires !Before(v, bounds[0].version) && Before(v, bounds[1].version) && v != []
    requires !SameLine(v, bounds[0].version) && !SameLine(v, bounds[1].version)
    ensures InSome(v, RangesOf(bounds))
  {
    hide Before, SameLine, Sort, Fixes, RangesOf, InSome, TupleLeq;
    var fixes := Sort(Fixes(bounds), TupleLeq);
    UpperBoundsMean(bounds, v);
    FixMembers(bounds);
    assert UpperBound(bounds[0]) == bounds[0].version && UpperBound(bounds[1]) == bounds[1].version;
    assert bounds[0].version in fixes && bounds[1].version in fixes;
    forall i | 0 <= i < |fixes|
      ensures !SameLine(v, fixes[i])
    {
      assert fixes[i] in fixes;
    }
  }

  /**
   The promise that nothing older than 1.0.0 is ever affected does not hold for
   fixes below 1.0.0: "< 0.5.0, < 0.9.0" reports 0.7.0.
   */
  lemma OldFixesReachBelowTheFirstRelease() returns (bounds: seq<Bound>, v: Version)
    ensures bounds == [Bound(Below, [0, 5, 0]), Bound(Below, [0, 9, 0])] && v == [0, 7, 0]
    ensures Tokenised(bounds) && AllUpper(bounds)
    ensures Before(v, FIRST_RELEASE) && InSome(v, RangesOf(bounds))
  {
    bounds, v := [Bound(Below, [0, 5, 0]), Bound(Below, [0, 9, 0])], [0, 7, 0];
    OldVersionsCompared();
    BetweenTwoFixes(bounds, v);
  }

  lemma OldVersionsCompared()
    ensures Before([0, 7, 0], FIRST_RELEASE) && Before([0, 7, 0], [0, 9, 0]) && !Before([0, 7, 0], [0, 5, 0])
    ensures !SameLine([0, 7, 0], [0, 9, 0]) && !SameLine([0, 7, 0], [0, 5, 0])
  {
  }

  /** No fix below 1.0.0 leaves room between its line and the next larger fix. */
  ghost predicate NoRoomBelowFirst(fixes: seq<Version>) {
    forall i | 1 <= i < |fixes| :: Part(fixes[i - 1], 0) > 0 || !Before(LineAfter(fixes[i - 1]), fixes[i])
  }

  ghost predicate NothingOlderAffected(ranges: seq<Range>) {
    forall v: Version :: InSome(v, ranges) ==> !Before(v, FIRST_RELEASE)
  }

  /** The promise holds for an expression exactly when its fixes leave no such room. */
  lemma {:induction false} FirstReleasePromiseIff(bounds: seq<Bound>)
    requires Tokenised(bounds) && |bounds| > 1 && AllUpper(bounds)
    ensures NothingOlderAffected(RangesOf(bounds))
            <==> NoRoomBelowFirst(Sort(Fixes(bounds), TupleLeq))
  {
    var fixes := Sort(Fixes(bounds), TupleLeq);
    UpperBoundIsFix(bounds);
    SortContents(Fixes(bounds), TupleLeq);
    forall i | 1 <= i < |fixes| && Part(fixes[i - 1], 0) == 0 && Before(LineAfter(fixes[i - 1]), fixes[i])
      ensures !NothingOlderAffected(RangesOf(bounds))
    {
      var v := LineAfter(fixes[i - 1]);
      LineRangeAt(fixes, i);
      BeforeIrreflexive(v);
      assert InSome(v, RangesOf(bounds)) by { assert LineRanges(fixes)[i].Contains(v); }
    }
    forall v: Version | InSome(v, RangesOf(bounds)) && NoRoomBelowFirst(fixes)
      ensures !Before(v, FIRST_RELEASE)
    {
      var i :| 0 <= i < |fixes| && LineRanges(fixes)[i].Contains(v);
      LineRangeAt(fixes, i);
      if i > 0 {
        var start := LineAfter(fixes[i - 1]);
        NotBeforeThenBefore(start, v, fixes[i]);
        assert !Before(start, FIRST_RELEASE);
        NotBeforeTransitive(v, start, FIRST_RELEASE);
      }
    }
  }

  // ----- one range

  /** The first parts of a version. */
  function Leading(v: Version, parts: nat): Version {
    if |v| <= parts then v else v[..parts]
  }

  /**
   The lower end of a bound as its operator reads, to the precision it is written
   in: one more part decides what is above 7.2.
   */
  predicate AdmitsFrom(b: Bound, v: Version) {
    match b.operator
    case Above => Before(b.version, Leading(v, |b.version| + 1))
    case From => !Before(v, b.version)
    case Exactly => !Before(v, b.version)
    case _ => true
  }

  /** The upper end: `<= 7.2` takes in every 7.2.x, and one more part decides what is equal to 7.2. */
  predicate AdmitsUpTo(b: Bound, v: Version) {
    match b.operator
    case Below => Before(v, b.version)
    case UpTo => !Before(b.version, Leading(v, |b.version|))
    case Exactly => !Before(b.version, Leading(v, |b.version| + 1))
    case _ => true
  }

  lemma {:induction false} IncrementedBound(x: Version, v: Version)
    requires x != []
    ensures Before(v, x[|x| - 1 := x[|x| - 1] + 1]) <==> !Before(x, Leading(v, |x|))
    decreases |x|
  {
    var up := x[|x| - 1 := x[|x| - 1] + 1];
    LeadingParts(v, |x|);
    if |x| == 1 {
      assert Tail(up) == [] && Tail(x) == [] && Tail(Leading(v, 1)) == [];
      NothingBeforeEmpty(Tail(v));
    } else {
      assert up[1..] == x[1..][|x| - 2 := x[|x| - 1] + 1];
      IncrementedBound(x[1..], Tail(v));
    }
  }

  lemma LeadingParts(v: Version, parts: nat)
    requires parts > 0
    ensures Part(Leading(v, parts), 0) == Part(v, 0) && Tail(Leading(v, parts)) == Leading(Tail(v), parts - 1)
  {
  }

  lemma {:induction false} ExtendedBound(x: Version, v: Version)
    ensures !Before(v, x + [1]) <==> Before(x, Leading(v, |x| + 1))
    decreases |x|
  {
    LeadingParts(v, |x| + 1);
    if x == [] {
      assert Tail([1]) == [] && Tail(Leading(v, 1)) == [];
      NothingBeforeEmpty(Tail(v));
    } else {
      assert (x + [1])[1..] == x[1..] + [1];
      ExtendedBound(x[1..], Tail(v));
    }
  }

  /** `>=`, `>` and `=` say where a range begins; `<`, `<=` and `=` say where it ends. */
  predicate StatesLower(op: Operator) {
    op == From || op == Above || op == Exactly
  }

  predicate StatesUpper(op: Operator) {
    op == Below || op == UpTo || op == Exactly
  }

  predicate AnyLower(bounds: seq<Bound>) {
    exists b | b in bounds :: StatesLower(b.operator)
  }

  /** No later bound states the lower end. */
  predicate DecidesLower(bounds: seq<Bound>, i: nat)
    requires i < |bounds|
  {
    StatesLower(bounds[i].operator) && forall j | i < j < |bounds| :: !StatesLower(bounds[j].operator)
  }

  predicate DecidesUpper(bounds: seq<Bound>, i: nat)
    requires i < |bounds|
  {
    StatesUpper(bounds[i].operator) && forall j | i < j < |bounds| :: !StatesUpper(bounds[j].operator)
  }

  lemma EndsMean(b: Bound, v: Version)
    requires b.version != []
    ensures b.SetsLower() ==> (Before(v, LowerEnd(b)) <==> !AdmitsFrom(b, v))
    ensures b.SetsUpper() ==> (!Before(v, UpperEnd(b)) <==> !AdmitsUpTo(b, v))
  {
    ExtendedBound(b.version, v);
    IncrementedBound(b.version, v);
    hide Before, Leading;
  }

  lemma {:induction false} LowerIsSet(bounds: seq<Bound>)
    requires Tokenised(bounds)
    ensures LastLower(bounds).Some? <==> AnyLower(bounds)
    decreases |bounds|
  {
    if bounds == [] {
    } else {
      var front, b := bounds[..|bounds| - 1], bounds[|bounds| - 1];
      LowerIsSet(front);
      assert forall c :: c in bounds <==> c in front || c == b;
    }
  }

  lemma {:induction false} LastLowerMeans(bounds: seq<Bound>, v: Version)
    requires Tokenised(bounds)
    ensures LastLower(bounds).Some? && Before(v, LastLower(bounds).value)
            <==> exists i: nat | i < |bounds| :: DecidesLower(bounds, i) && !AdmitsFrom(bounds[i], v)
    decreases |bounds|
  {
    if bounds == [] {
    } else {
      hide Before, AdmitsFrom, LowerEnd;
      var front, b := bounds[..|bounds| - 1], bounds[|bounds| - 1];
      EndsMean(b, v);
      if b.SetsLower() {
        assert DecidesLower(bounds, |front|);
      } else {
        LastLowerMeans(front, v);
        assert forall i: nat | i < |front| :: DecidesLower(bounds, i) <==> DecidesLower(front, i);
      }
    }
  }

  lemma {:induction false} LastUpperMeans(bounds: seq<Bound>, v: Version)
    requires Tokenised(bounds)
    ensures LastUpper(bounds).Some? && !Before(v, LastUpper(bounds).value)
            <==> exists i: nat | i < |bounds| :: DecidesUpper(bounds, i) && !AdmitsUpTo(bounds[i], v)
    decreases |bounds|
  {
    if bounds == [] {
    } else {
      hide Before, AdmitsUpTo, UpperEnd;
      var front, b := bounds[..|bounds| - 1], bounds[|bounds| - 1];
      EndsMean(b, v);
      if b.SetsUpper() {
        assert DecidesUpper(bounds, |front|);
      } else {
        LastUpperMeans(front, v);
        assert forall i: nat | i < |front| :: DecidesUpper(bounds, i) <==> DecidesUpper(front, i);
      }
    }
  }

  /**
   Any expression but several upper bounds is one range. It contains exactly the
   versions that the last bound to state the lower end and the last to state the
   upper end admit, from 1.0.0 on when no bound states where to start. Versions are
   read to the precision the bounds are written in.
   */
  lemma SingleRangeMeans(bounds: seq<Bound>, v: Version)
    requires Tokenised(bounds) && bounds != [] && !(|bounds| > 1 && AllUpper(bounds))
    ensures |RangesOf(bounds)| == 1
    ensures RangesOf(bounds)[0].Contains(v) <==>
            && v != []
            && (forall i: nat | i < |bounds| && DecidesLower(bounds, i) :: AdmitsFrom(bounds[i], v))
            && (forall i: nat | i < |bounds| && DecidesUpper(bounds, i) :: AdmitsUpTo(bounds[i], v))
            && (AnyLower(bounds) || !Before(v, FIRST_RELEASE))
  {
    LowerIsSet(bounds);
    LastLowerMeans(bounds, v);
    LastUpperMeans(bounds, v);
    hide Before, AdmitsFrom, AdmitsUpTo, DecidesLower, DecidesUpper, LastLower, LastUpper, AnyLower;
  }
}
