/** Two result documents compared finding by finding, severities kept. */
module Findings {
  import opened Wrappers
  import opened Sorting
  import opened Text
  import opened Documents
  import opened Severities

  /** One finding as one of the two documents recorded it. */
  datatype Side = Side(severity: Severity, passed: bool, waived: bool) {
    predicate Failing() { !passed }
  }

  datatype Status = Introduced | Resolved | Open | Passing | Appeared | Disappeared

  datatype Delta = Delta(id: string, category: string, before: Option<Side>, after: Option<Side>, status: Status) {
    predicate SeverityMoved() {
      before.Some? && after.Some? && before.value.severity != after.value.severity
    }

    predicate SeverityWorsened() {
      SeverityMoved() && after.value.severity.Rank() < before.value.severity.Rank()
    }

    predicate WaiverMoved() {
      before.Some? && after.Some? && before.value.waived != after.value.waived
    }

    predicate Changed() {
      if status.Passing? then false
      else if !status.Open? then true
      else SeverityMoved() || WaiverMoved()
    }
  }

  /** The sides of one document by identifier, in the order a dictionary lists them. */
  datatype Book = Book(order: seq<string>, at: map<string, Side>) {
    ghost predicate Valid() {
      && (forall id :: id in order <==> id in at)
      && (forall i, j | 0 <= i < j < |order| :: order[i] != order[j])
    }

    function Lookup(id: string): Option<Side> {
      if id in at then Some(at[id]) else None
    }

    function Record(id: string, side: Side): (next: Book)
      requires Valid()
      ensures next.Valid()
    {
      Book(if id in at then order else order + [id], at[id := side])
    }
  }

  // ----- reading a document

  function SideOf(c: ExtraCheck): Side {
    Side(NormaliseSeverity(c.severity), c.passed, c.ignored)
  }

  function ChecksOf(entries: seq<ExtraCheck>): (book: Book)
    ensures book.Valid()
  {
    if entries == [] then Book([], map[])
    else
      var book, c := ChecksOf(entries[..|entries| - 1]), entries[|entries| - 1];
      if c.id == "" then book else book.Record(c.id, SideOf(c))
  }

  /** A listed advisory applies, so it is a failing side. */
  function AdvisoriesOf(entries: seq<Vulnerability>): (book: Book)
    ensures book.Valid() && forall id | id in book.at :: book.at[id].Failing()
  {
    if entries == [] then Book([], map[])
    else
      var book, v := AdvisoriesOf(entries[..|entries| - 1]), entries[|entries| - 1];
      if AdvisoryId(v) == "" then book
      else book.Record(AdvisoryId(v), Side(NormaliseSeverity(v.severity), false, false))
  }

  method Checks(entries: seq<ExtraCheck>) returns (book: Book)
    ensures book == ChecksOf(entries)
  {
    book := Book([], map[]);
    for i := 0 to |entries|
      invariant book == ChecksOf(entries[..i])
    {
      assert entries[..i + 1][..i] == entries[..i];
      if entries[i].id == "" {
        continue;
      }
      book := book.Record(entries[i].id, SideOf(entries[i]));
    }
    assert entries[..|entries|] == entries;
  }

  method Advisories(entries: seq<Vulnerability>) returns (book: Book)
    ensures book == AdvisoriesOf(entries)
  {
    book := Book([], map[]);
    for i := 0 to |entries|
      invariant book == AdvisoriesOf(entries[..i])
    {
      assert entries[..i + 1][..i] == entries[..i];
      var id := AdvisoryId(entries[i]);
      if id == "" {
        continue;
      }
      book := book.Record(id, Side(NormaliseSeverity(entries[i].severity), false, false));
    }
    assert entries[..|entries|] == entries;
  }

  lemma {:induction false} ListedIff(entries: seq<ExtraCheck>, id: string)
    ensures id in ChecksOf(entries).at <==> id != "" && exists c | c in entries :: c.id == id
  {
    if entries == [] {
    } else {
      var front, last := entries[..|entries| - 1], entries[|entries| - 1];
      assert entries == front + [last];
      ListedIff(front, id);
    }
  }

  /** The last entry of an identifier is the one that counts. */
  lemma {:induction false} LastEntryCounts(entries: seq<ExtraCheck>, i: nat)
    requires i < |entries| && entries[i].id != ""
    requires forall j | i < j < |entries| :: entries[j].id != entries[i].id
    ensures ChecksOf(entries).Lookup(entries[i].id) == Some(SideOf(entries[i]))
  {
    if i < |entries| - 1 {
      LastEntryCounts(entries[..|entries| - 1], i);
    }
  }

  // ----- the differences

  function StatusOf(before: Option<Side>, after: Option<Side>): Status {
    if before.None? then Appeared
    else if after.None? then Disappeared
    else if before.value.Failing() && after.value.Failing() then Open
    else if after.value.Failing() then Introduced
    else if before.value.Failing() then Resolved
    else Passing
  }

  function Without(order: seq<string>, at: map<string, Side>): (rest: seq<string>)
    requires forall i, j | 0 <= i < j < |order| :: order[i] != order[j]
    ensures forall id :: id in rest <==> id in order && id !in at
    ensures forall i, j | 0 <= i < j < |rest| :: rest[i] != rest[j]
  {
    if order == [] then []
    else
      var rest := Without(order[1..], at);
      assert forall id :: id in order <==> id == order[0] || id in order[1..];
      if order[0] in at then rest else [order[0]] + rest
  }

  /** `set(before) | set(after)`, before sorting. */
  function Union(before: Book, after: Book): (ids: seq<string>)
    requires before.Valid() && after.Valid()
    ensures forall id :: id in ids <==> id in before.at || id in after.at
  {
    before.order + Without(after.order, before.at)
  }

  lemma UnionListsOnce(before: Book, after: Book)
    requires before.Valid() && after.Valid()
    ensures forall i, j | 0 <= i < j < |Union(before, after)| :: Union(before, after)[i] != Union(before, after)[j]
  {
    var rest, ids := Without(after.order, before.at), Union(before, after);
    hide Without;
    forall i, j | 0 <= i < j < |ids|
      ensures ids[i] != ids[j]
    {
      if i < |before.order| <= j {
        assert ids[i] in before.order && ids[j] == rest[j - |before.order|] && ids[j] in rest;
      } else if |before.order| <= i {
        assert rest[i - |before.order|] != rest[j - |before.order|];
      }
    }
  }

  /** How a category is found: fixed for advisories, looked up for checks. */
  type Catalogue = string -> string

  function DeltaOf(id: string, before: Book, after: Book, category: Catalogue): Delta {
    Delta(id, category(id), before.Lookup(id), after.Lookup(id), StatusOf(before.Lookup(id), after.Lookup(id)))
  }

  function DeltasFor(ids: seq<string>, before: Book, after: Book, category: Catalogue): (deltas: seq<Delta>)
    ensures |deltas| == |ids| && forall i | 0 <= i < |ids| :: deltas[i] == DeltaOf(ids[i], before, after, category)
  {
    if ids == [] then [] else [DeltaOf(ids[0], before, after, category)] + DeltasFor(ids[1..], before, after, category)
  }

  function Deltas(before: Book, after: Book, category: Catalogue): seq<Delta>
    requires before.Valid() && after.Valid()
  {
    DeltasFor(Sort(Union(before, after), StringLeq), before, after, category)
  }

  const ADVISORY_CATEGORY := "advisory"

  function AllDeltas(previous: Document, current: Document, catalogue: Catalogue): seq<Delta> {
    Deltas(ChecksOf(previous.extraChecks), ChecksOf(current.extraChecks), catalogue)
    + Deltas(AdvisoriesOf(previous.vulnerabilities), AdvisoriesOf(current.vulnerabilities), id => ADVISORY_CATEGORY)
  }

  /** The categories asked for; none asks for all. */
  function Wanted(categories: seq<string>): set<string> {
    set name | name in categories && Strip(name) != "" :: Lower(Strip(name))
  }

  predicate Selected(d: Delta, wanted: set<string>, changedOnly: bool) {
    && (wanted != {} ==> Lower(d.category) in wanted)
    && (changedOnly ==> d.Changed())
  }

  function Keep(deltas: seq<Delta>, wanted: set<string>, changedOnly: bool): seq<Delta> {
    if deltas == [] then []
    else
      (if Selected(deltas[0], wanted, changedOnly) then [deltas[0]] else [])
      + Keep(deltas[1..], wanted, changedOnly)
  }

  function UrgencyOf(d: Delta): nat {
    if d.status.Introduced? || d.status.Appeared? then 0
    else if d.SeverityWorsened() then 1
    else if d.status.Open? then 2
    else if d.status.Resolved? || d.status.Disappeared? then 3
    else 4
  }

  function SeverityRank(d: Delta): nat {
    if d.after.Some? then d.after.value.severity.Rank()
    else if d.before.Some? then d.before.value.severity.Rank()
    else UnknownSeverity.Rank()
  }

  predicate DeltaLeq(a: Delta, b: Delta) {
    if UrgencyOf(a) != UrgencyOf(b) then UrgencyOf(a) < UrgencyOf(b)
    else if SeverityRank(a) != SeverityRank(b) then SeverityRank(a) < SeverityRank(b)
    else StringLeq(a.id, b.id)
  }

  /** What was asked for, before it is sorted. */
  function Kept(previous: Document, current: Document, catalogue: Catalogue,
                categories: seq<string>, changedOnly: bool): seq<Delta> {
    Keep(AllDeltas(previous, current, catalogue), Wanted(categories), changedOnly)
  }

  function Compare(previous: Document, current: Document, catalogue: Catalogue,
                   categories: seq<string>, changedOnly: bool): seq<Delta> {
    Sort(Kept(previous, current, catalogue, categories, changedOnly), DeltaLeq)
  }

  // ----- what the comparison holds, and in which order

  lemma DeltaOrder()
    ensures TotalPreorder(DeltaLeq)
  {
    hide UrgencyOf, SeverityRank, StringLeq;
    forall a, b
      ensures DeltaLeq(a, b) || DeltaLeq(b, a)
    {
      StringLeqTotal(a.id, b.id);
    }
    forall a, b, c | DeltaLeq(a, b) && DeltaLeq(b, c)
      ensures DeltaLeq(a, c)
    {
      if StringLeq(a.id, b.id) && StringLeq(b.id, c.id) {
        StringLeqTransitive(a.id, b.id, c.id);
      }
    }
  }

  predicate Fresh(d: Delta) {
    d.status.Introduced? || d.status.Appeared?
  }

  /** The output is in the order of urgency, severity and identifier, so the first line is the one worth reading first. */
  lemma WorstComesFirst(previous: Document, current: Document, catalogue: Catalogue,
                        categories: seq<string>, changedOnly: bool)
    ensures var out := Compare(previous, current, catalogue, categories, changedOnly);
            && Ordered(out, DeltaLeq)
            && (forall i, j | 0 <= i < j < |out| && Fresh(out[j]) :: Fresh(out[i]))
  {
    DeltaOrder();
    SortOrdered(Kept(previous, current, catalogue, categories, changedOnly), DeltaLeq);
    var out := Compare(previous, current, catalogue, categories, changedOnly);
    hide Kept, Sort, TotalPreorder, Compare, SeverityRank, StringLeq;
    forall i, j | 0 <= i < j < |out| && Fresh(out[j])
      ensures Fresh(out[i])
    {
      assert DeltaLeq(out[i], out[j]);
    }
  }

  // ----- the order that is promised

  /** Neither new nor worse: what is promised to follow by severity. */
  predicate AmongTheRest(d: Delta) {
    UrgencyOf(d) >= 2
  }

  predicate SeverityThenId(a: Delta, b: Delta) {
    if SeverityRank(a) != SeverityRank(b) then SeverityRank(a) < SeverityRank(b) else StringLeq(a.id, b.id)
  }

  /** New findings, then severity increases, then everything else, each by severity and then by identifier. */
  predicate PromisedLeq(a: Delta, b: Delta) {
    if (AmongTheRest(a) && AmongTheRest(b)) || UrgencyOf(a) == UrgencyOf(b) then SeverityThenId(a, b)
    else UrgencyOf(a) < UrgencyOf(b)
  }

  /** No finding still open is milder than one resolved, and neither is milder than one passing throughout. */
  ghost predicate UrgencyFollowsSeverity(deltas: seq<Delta>) {
    forall a, b | a in deltas && b in deltas && AmongTheRest(a) && UrgencyOf(a) < UrgencyOf(b) ::
      SeverityRank(a) <= SeverityRank(b)
  }

  /** And where they are equally severe, identifiers do not decide otherwise. */
  ghost predicate UrgencyFollowsSeverityAndId(deltas: seq<Delta>) {
    forall a, b | a in deltas && b in deltas && AmongTheRest(a) && UrgencyOf(a) < UrgencyOf(b) :: SeverityThenId(a, b)
  }

  ghost predicate RestBySeverity(out: seq<Delta>) {
    forall i, j | 0 <= i < j < |out| && AmongTheRest(out[i]) :: SeverityRank(out[i]) <= SeverityRank(out[j])
  }

  lemma MoreUrgentStandsBefore(out: seq<Delta>, a: Delta, b: Delta) returns (i: nat, j: nat)
    requires Ordered(out, DeltaLeq) && a in out && b in out && UrgencyOf(a) < UrgencyOf(b)
    ensures i < j < |out| && out[i] == a && out[j] == b
  {
    hide UrgencyOf, SeverityRank, StringLeq;
    i :| 0 <= i < |out| && out[i] == a;
    j :| 0 <= j < |out| && out[j] == b;
    assert j < i ==> DeltaLeq(out[j], out[i]);
  }

  lemma OrderedIsPromisedIff(out: seq<Delta>)
    requires Ordered(out, DeltaLeq)
    ensures Ordered(out, PromisedLeq) <==> UrgencyFollowsSeverityAndId(out)
  {
    hide UrgencyOf, SeverityRank, StringLeq;
    forall i, j | 0 <= i < j < |out|
      ensures DeltaLeq(out[i], out[j])
    {
    }
    if Ordered(out, PromisedLeq) {
      forall a, b | a in out && b in out && AmongTheRest(a) && UrgencyOf(a) < UrgencyOf(b)
        ensures SeverityThenId(a, b)
      {
        var i, j := MoreUrgentStandsBefore(out, a, b);
        assert PromisedLeq(out[i], out[j]);
      }
    }
  }

  lemma RestBySeverityIff(out: seq<Delta>)
    requires Ordered(out, DeltaLeq)
    ensures RestBySeverity(out) <==> UrgencyFollowsSeverity(out)
  {
    hide UrgencyOf, SeverityRank, StringLeq;
    forall i, j | 0 <= i < j < |out|
      ensures DeltaLeq(out[i], out[j])
    {
    }
    if RestBySeverity(out) {
      forall a, b | a in out && b in out && AmongTheRest(a) && UrgencyOf(a) < UrgencyOf(b)
        ensures SeverityRank(a) <= SeverityRank(b)
      {
        var i, j := MoreUrgentStandsBefore(out, a, b);
      }
    }
  }

  /**
   Exactly when the output has the promised order, and exactly when its rest is
   at least in the order of severity.
   */
  lemma PromisedOrderIff(previous: Document, current: Document, catalogue: Catalogue,
                         categories: seq<string>, changedOnly: bool)
    ensures var kept := Kept(previous, current, catalogue, categories, changedOnly);
            var out := Compare(previous, current, catalogue, categories, changedOnly);
            && (Ordered(out, PromisedLeq) <==> UrgencyFollowsSeverityAndId(kept))
            && (RestBySeverity(out) <==> UrgencyFollowsSeverity(kept))
  {
    var kept := Kept(previous, current, catalogue, categories, changedOnly);
    var out := Compare(previous, current, catalogue, categories, changedOnly);
    WorstComesFirst(previous, current, catalogue, categories, changedOnly);
    forall d
      ensures d in kept <==> d in out
    {
      SortMembers(kept, DeltaLeq, d);
    }
    hide Kept, Compare, Sort, UrgencyOf, SeverityRank, StringLeq, DeltaLeq, PromisedLeq, Ordered, RestBySeverity, AmongTheRest, SeverityThenId;
    OrderedIsPromisedIff(out);
    RestBySeverityIff(out);
  }

  lemma {:induction false} KeepMembers(deltas: seq<Delta>, wanted: set<string>, changedOnly: bool, d: Delta)
    ensures d in Keep(deltas, wanted, changedOnly) <==> d in deltas && Selected(d, wanted, changedOnly)
  {
    if deltas == [] {
    } else {
      KeepMembers(deltas[1..], wanted, changedOnly, d);
      assert d in deltas <==> d == deltas[0] || d in deltas[1..];
    }
  }

  lemma DeltasMembers(before: Book, after: Book, category: Catalogue, d: Delta)
    requires before.Valid() && after.Valid()
    ensures d in Deltas(before, after, category)
            <==> (d.id in before.at || d.id in after.at) && d == DeltaOf(d.id, before, after, category)
  {
    var ids := Sort(Union(before, after), StringLeq);
    SortMembers(Union(before, after), StringLeq, d.id);
    hide Sort, Union, DeltaOf;
    var deltas := DeltasFor(ids, before, after, category);
    if d in deltas {
      var i :| 0 <= i < |deltas| && deltas[i] == d;
      assert DeltaOf(ids[i], before, after, category).id == ids[i] by { DeltaKeepsId(ids[i], before, after, category); }
    }
    if d.id in ids && d == DeltaOf(d.id, before, after, category) {
      var i :| 0 <= i < |ids| && ids[i] == d.id;
      assert deltas[i] == d;
    }
  }

  lemma DeltaKeepsId(id: string, before: Book, after: Book, category: Catalogue)
    ensures DeltaOf(id, before, after, category).id == id
  {
  }

  /** Exactly the differences of either document's findings that were asked for, nothing lost and nothing twice. */
  lemma ComparedExactly(previous: Document, current: Document, catalogue: Catalogue,
                        categories: seq<string>, changedOnly: bool, d: Delta)
    ensures var checks, checksNow := ChecksOf(previous.extraChecks), ChecksOf(current.extraChecks);
            var advisories, advisoriesNow := AdvisoriesOf(previous.vulnerabilities), AdvisoriesOf(current.vulnerabilities);
            d in Compare(previous, current, catalogue, categories, changedOnly)
            <==> && Selected(d, Wanted(categories), changedOnly)
                 && (|| ((d.id in checks.at || d.id in checksNow.at) && d == DeltaOf(d.id, checks, checksNow, catalogue))
                     || ((d.id in advisories.at || d.id in advisoriesNow.at)
                         && d == DeltaOf(d.id, advisories, advisoriesNow, id => ADVISORY_CATEGORY)))
    ensures multiset(Compare(previous, current, catalogue, categories, changedOnly))
            == multiset(Keep(AllDeltas(previous, current, catalogue), Wanted(categories), changedOnly))
  {
    var checks, checksNow := ChecksOf(previous.extraChecks), ChecksOf(current.extraChecks);
    var advisories, advisoriesNow := AdvisoriesOf(previous.vulnerabilities), AdvisoriesOf(current.vulnerabilities);
    var all := AllDeltas(previous, current, catalogue);
    SortMembers(Keep(all, Wanted(categories), changedOnly), DeltaLeq, d);
    SortContents(Keep(all, Wanted(categories), changedOnly), DeltaLeq);
    KeepMembers(all, Wanted(categories), changedOnly, d);
    DeltasMembers(checks, checksNow, catalogue, d);
    DeltasMembers(advisories, advisoriesNow, id => ADVISORY_CATEGORY, d);
    hide Sort, Keep, Deltas, Selected, DeltaOf, Wanted, ChecksOf, AdvisoriesOf;
  }

  // ----- the comparison, field by field

  /** The last check with this identifier. */
  ghost predicate LastCheck(checks: seq<ExtraCheck>, i: nat, id: string) {
    i < |checks| && checks[i].id == id && forall j | i < j < |checks| :: checks[j].id != id
  }

  /** What the checks of a document say of an identifier: nothing, or what the last entry with it says. */
  ghost predicate CheckSays(checks: seq<ExtraCheck>, id: string, side: Option<Side>) {
    match side
    case None => forall c | c in checks :: c.id != id
    case Some(s) => exists i: nat ::
      && LastCheck(checks, i, id)
      && s.passed == checks[i].passed && s.waived == checks[i].ignored && s.severity == NormaliseSeverity(checks[i].severity)
  }

  predicate NamesAdvisory(v: Vulnerability, id: string) {
    id == if v.id != "" then v.id else v.identifier
  }

  ghost predicate LastAdvisory(advisories: seq<Vulnerability>, i: nat, id: string) {
    i < |advisories| && NamesAdvisory(advisories[i], id) && forall j | i < j < |advisories| :: !NamesAdvisory(advisories[j], id)
  }

  /** The same for advisories, which are listed under their id or else under their identifier, and fail where they are listed. */
  ghost predicate AdvisorySays(advisories: seq<Vulnerability>, id: string, side: Option<Side>) {
    match side
    case None => forall v | v in advisories :: !NamesAdvisory(v, id)
    case Some(s) => exists i: nat ::
      LastAdvisory(advisories, i, id) && !s.passed && !s.waived && s.severity == NormaliseSeverity(advisories[i].severity)
  }

  lemma {:induction false} LastCheckExists(checks: seq<ExtraCheck>, id: string) returns (i: nat)
    requires exists c | c in checks :: c.id == id
    ensures LastCheck(checks, i, id)
  {
    i := |checks| - 1;
    if checks[i].id != id {
      assert checks == checks[..i] + [checks[i]];
      i := LastCheckExists(checks[..i], id);
    }
  }

  lemma {:induction false} LastAdvisoryExists(advisories: seq<Vulnerability>, id: string) returns (i: nat)
    requires exists v | v in advisories :: NamesAdvisory(v, id)
    ensures LastAdvisory(advisories, i, id)
  {
    i := |advisories| - 1;
    if !NamesAdvisory(advisories[i], id) {
      assert advisories == advisories[..i] + [advisories[i]];
      i := LastAdvisoryExists(advisories[..i], id);
    }
  }

  lemma CheckSaysMeans(checks: seq<ExtraCheck>, id: string)
    requires id != ""
    ensures CheckSays(checks, id, ChecksOf(checks).Lookup(id))
  {
    ListedIff(checks, id);
    if c :| c in checks && c.id == id {
      var i := LastCheckExists(checks, id);
      LastEntryCounts(checks, i);
    }
    hide ChecksOf, NormaliseSeverity;
  }

  /** The last entry of an advisory is the one that counts. */
  lemma {:induction false} LastAdvisoryCounts(advisories: seq<Vulnerability>, i: nat, id: string)
    requires id != "" && LastAdvisory(advisories, i, id)
    ensures AdvisoriesOf(advisories).Lookup(id) == Some(Side(NormaliseSeverity(advisories[i].severity), false, false))
  {
    hide NormaliseSeverity;
    if i < |advisories| - 1 {
      LastAdvisoryCounts(advisories[..|advisories| - 1], i, id);
    }
  }

  lemma {:induction false} AdvisoryListedIff(advisories: seq<Vulnerability>, id: string)
    ensures id in AdvisoriesOf(advisories).at <==> id != "" && exists v | v in advisories :: NamesAdvisory(v, id)
  {
    hide NormaliseSeverity;
    if advisories == [] {
    } else {
      var front, last := advisories[..|advisories| - 1], advisories[|advisories| - 1];
      AdvisoryListedIff(front, id);
      assert id in AdvisoriesOf(advisories).at <==> id in AdvisoriesOf(front).at || (id != "" && NamesAdvisory(last, id));
      hide AdvisoriesOf, NamesAdvisory;
      assert forall v :: v in advisories <==> v in front || v == last;
    }
  }

  lemma AdvisorySaysMeans(advisories: seq<Vulnerability>, id: string)
    requires id != ""
    ensures AdvisorySays(advisories, id, AdvisoriesOf(advisories).Lookup(id))
  {
    AdvisoryListedIff(advisories, id);
    if v :| v in advisories && NamesAdvisory(v, id) {
      var i := LastAdvisoryExists(advisories, id);
      LastAdvisoryCounts(advisories, i, id);
    }
    hide AdvisoriesOf, NormaliseSeverity;
  }

  /** The difference is what the two documents say of one check, or of one advisory, under its category. */
  ghost predicate ReadsOff(previous: Document, current: Document, catalogue: Catalogue, d: Delta) {
    || (d.category == catalogue(d.id)
        && CheckSays(previous.extraChecks, d.id, d.before) && CheckSays(current.extraChecks, d.id, d.after))
    || (d.category == "advisory"
        && AdvisorySays(previous.vulnerabilities, d.id, d.before) && AdvisorySays(current.vulnerabilities, d.id, d.after))
  }

  /** Every difference in the output names something, and holds what the documents say of it. */
  lemma DifferenceReadsOff(previous: Document, current: Document, catalogue: Catalogue,
                           categories: seq<string>, changedOnly: bool, d: Delta)
    requires d in Compare(previous, current, catalogue, categories, changedOnly)
    ensures d.id != "" && ReadsOff(previous, current, catalogue, d)
  {
    hide Compare, ChecksOf, AdvisoriesOf, Selected, StatusOf, CheckSays, AdvisorySays;
    ComparedExactly(previous, current, catalogue, categories, changedOnly, d);
    NamelessIsNotListed(previous);
    NamelessIsNotListed(current);
    if d.id != "" {
      CheckSaysMeans(previous.extraChecks, d.id);
      CheckSaysMeans(current.extraChecks, d.id);
      AdvisorySaysMeans(previous.vulnerabilities, d.id);
      AdvisorySaysMeans(current.vulnerabilities, d.id);
    }
  }

  lemma NamelessIsNotListed(d: Document)
    ensures "" !in ChecksOf(d.extraChecks).at && "" !in AdvisoriesOf(d.vulnerabilities).at
  {
    ListedIff(d.extraChecks, "");
    AdvisoryListedIff(d.vulnerabilities, "");
  }

  /** The status of every difference in the output, by which document says something and whether it fails there. */
  lemma StatusMeans(previous: Document, current: Document, catalogue: Catalogue,
                    categories: seq<string>, changedOnly: bool, d: Delta)
    requires d in Compare(previous, current, catalogue, categories, changedOnly)
    ensures d.status == Appeared <==> d.before == None
    ensures d.status == Disappeared <==> d.after == None
    ensures d.status == Introduced <==> d.before != None && d.after != None && d.before.value.passed && !d.after.value.passed
    ensures d.status == Resolved <==> d.before != None && d.after != None && !d.before.value.passed && d.after.value.passed
    ensures d.status == Open <==> d.before != None && d.after != None && !d.before.value.passed && !d.after.value.passed
    ensures d.status == Passing <==> d.before != None && d.after != None && d.before.value.passed && d.after.value.passed
  {
    hide Compare, ChecksOf, AdvisoriesOf, Selected;
    ComparedExactly(previous, current, catalogue, categories, changedOnly, d);
  }

  /** Nothing is missing: what either document says something of is in the full comparison. */
  lemma EveryDifferenceIsListed(previous: Document, current: Document, catalogue: Catalogue, id: string)
    requires id != ""
    ensures (exists c | c in previous.extraChecks + current.extraChecks :: c.id == id) ==>
              exists d | d in Compare(previous, current, catalogue, [], false) ::
                d.id == id && CheckSays(previous.extraChecks, id, d.before) && CheckSays(current.extraChecks, id, d.after)
    ensures (exists v | v in previous.vulnerabilities + current.vulnerabilities :: NamesAdvisory(v, id)) ==>
              exists d | d in Compare(previous, current, catalogue, [], false) ::
                d.id == id && AdvisorySays(previous.vulnerabilities, id, d.before) && AdvisorySays(current.vulnerabilities, id, d.after)
  {
    var checks, checksNow := ChecksOf(previous.extraChecks), ChecksOf(current.extraChecks);
    var advisories, advisoriesNow := AdvisoriesOf(previous.vulnerabilities), AdvisoriesOf(current.vulnerabilities);
    CheckSaysMeans(previous.extraChecks, id);
    CheckSaysMeans(current.extraChecks, id);
    AdvisorySaysMeans(previous.vulnerabilities, id);
    AdvisorySaysMeans(current.vulnerabilities, id);
    var check := DeltaOf(id, checks, checksNow, catalogue);
    var advisory := DeltaOf(id, advisories, advisoriesNow, id => ADVISORY_CATEGORY);
    ComparedExactly(previous, current, catalogue, [], false, check);
    ComparedExactly(previous, current, catalogue, [], false, advisory);
    assert Wanted([]) == {};
    hide Compare, ChecksOf, AdvisoriesOf, Wanted, StatusOf;
    if c :| c in previous.extraChecks + current.extraChecks && c.id == id {
      assert check.before.Some? || check.after.Some?;
    }
    if v :| v in previous.vulnerabilities + current.vulnerabilities && NamesAdvisory(v, id) {
      assert advisory.before.Some? || advisory.after.Some?;
    }
  }

  /** Something besides an unmoved finding: a check that came, went, broke or was fixed, or an open one restated. */
  predicate Moved(d: Delta) {
    || d.status in {Introduced, Resolved, Appeared, Disappeared}
    || (d.status == Open && d.before != None && d.after != None
        && (d.before.value.severity != d.after.value.severity || d.before.value.waived != d.after.value.waived))
  }

  /** Some category that is not blank asks for it, in any case and spacing, or none is asked for. */
  ghost predicate AskedFor(categories: seq<string>, d: Delta) {
    || (forall name | name in categories :: Strip(name) == "")
    || exists name | name in categories :: Strip(name) != "" && Lower(Strip(name)) == Lower(d.category)
  }

  lemma FilterMeans(previous: Document, current: Document, catalogue: Catalogue,
                    categories: seq<string>, changedOnly: bool, d: Delta)
    ensures d in Compare(previous, current, catalogue, categories, changedOnly)
            <==> && d in Compare(previous, current, catalogue, [], false)
                 && AskedFor(categories, d) && (changedOnly ==> Moved(d))
  {
    hide *;
    ComparedExactly(previous, current, catalogue, categories, changedOnly, d);
    ComparedExactly(previous, current, catalogue, [], false, d);
    SelectedMeans(d, categories, changedOnly);
    SelectedMeans(d, [], false);
    assert AskedFor([], d) by { NothingAskedFor(d); }
  }

  lemma NothingAskedFor(d: Delta)
    ensures AskedFor([], d)
  {
  }

  lemma SelectedMeans(d: Delta, categories: seq<string>, changedOnly: bool)
    ensures Selected(d, Wanted(categories), changedOnly) <==> AskedFor(categories, d) && (changedOnly ==> Moved(d))
  {
    WantedMeans(categories, Lower(d.category));
    hide Strip, Lower, Wanted;
  }

  lemma WantedMeans(categories: seq<string>, name: string)
    ensures Wanted(categories) == {} <==> forall other | other in categories :: Strip(other) == ""
    ensures name in Wanted(categories) <==> exists other | other in categories :: Strip(other) != "" && Lower(Strip(other)) == name
  {
    hide Strip, Lower;
    if other :| other in categories && Strip(other) != "" {
      assert Lower(Strip(other)) in Wanted(categories);
    }
  }

  /** The severity shown for a difference: the later document's, or the earlier one's where the later says nothing. */
  ghost predicate ShownSeverity(d: Delta, severity: Severity) {
    if d.after != None then d.after.value.severity == severity
    else d.before != None && d.before.value.severity == severity
  }

  predicate GotWorse(d: Delta) {
    d.before != None && d.after != None && d.after.value.severity.Rank() < d.before.value.severity.Rank()
  }

  /**
   Any two lines of the output: what is new stands before all else, then what got
   worse, then what is still open, then what was resolved or went away, then what
   passes; and within each of these the worse severity first, then the identifier.
   */
  lemma LinesStandInOrder(previous: Document, current: Document, catalogue: Catalogue,
                          categories: seq<string>, changedOnly: bool, i: nat, j: nat)
    requires i < j < |Compare(previous, current, catalogue, categories, changedOnly)|
    ensures var out := Compare(previous, current, catalogue, categories, changedOnly);
            var a, b := out[i], out[j];
            && (b.status in {Introduced, Appeared} ==> a.status in {Introduced, Appeared})
            && (GotWorse(b) ==> a.status in {Introduced, Appeared} || GotWorse(a))
            && (b.status == Open ==> a.status in {Introduced, Appeared, Open} || GotWorse(a))
            && (b.status in {Resolved, Disappeared} ==> a.status != Passing || GotWorse(a))
            && (a.status == b.status && (GotWorse(a) <==> GotWorse(b)) ==>
                  forall x, y | ShownSeverity(a, x) && ShownSeverity(b, y) :: x.Rank() <= y.Rank() && (x == y ==> StringLeq(a.id, b.id)))
  {
    WorstComesFirst(previous, current, catalogue, categories, changedOnly);
    var out := Compare(previous, current, catalogue, categories, changedOnly);
    hide Compare, StringLeq;
    assert DeltaLeq(out[i], out[j]);
    assert out[i] in out && out[j] in out;
    StatusMeans(previous, current, catalogue, categories, changedOnly, out[i]);
    StatusMeans(previous, current, catalogue, categories, changedOnly, out[j]);
  }

  // ----- two comparisons against the promised order

  /** A document whose scan made these checks and nothing else. */
  function ChecksOnly(checks: seq<ExtraCheck>): Document {
    Document(None, false, [], map[], map[], true, checks, {}, Listed(None), Lifecycle(false, None), None, None)
  }

  /** One critical check was failing and then passed, one of low severity failed both times. */
  const BEFORE: Document := ChecksOnly([ExtraCheck("hsts", false, false, "critical"), ExtraCheck("robots", false, false, "low")])
  const AFTER: Document := ChecksOnly([ExtraCheck("hsts", true, false, "critical"), ExtraCheck("robots", false, false, "low")])

  lemma TwoChecks(hsts: ExtraCheck, robots: ExtraCheck) returns (book: Book)
    requires hsts.id == "hsts" && robots.id == "robots"
    ensures book == ChecksOf([hsts, robots])
    ensures book.Lookup("hsts") == Some(SideOf(hsts)) && book.Lookup("robots") == Some(SideOf(robots))
  {
    hide SideOf;
    book := ChecksOf([hsts, robots]);
    LastEntryCounts([hsts, robots], 0);
    LastEntryCounts([hsts, robots], 1);
  }

  lemma PlainWords()
    ensures NormaliseSeverity("critical") == Critical && NormaliseSeverity("low") == Low
  {
    assert Strip("critical") == "critical" && Strip("low") == "low";
    assert Lower("critical") == "critical" && Lower("low") == "low";
  }

  /** How the two checks compare. */
  lemma TwoDeltas(catalogue: Catalogue) returns (open: Delta, resolved: Delta)
    ensures var before, after := ChecksOf(BEFORE.extraChecks), ChecksOf(AFTER.extraChecks);
            && open == DeltaOf("robots", before, after, catalogue) && open.id in before.at
            && resolved == DeltaOf("hsts", before, after, catalogue) && resolved.id in before.at
    ensures open.before == Some(Side(Low, false, false)) == open.after && open.status.Open?
    ensures resolved.before == Some(Side(Critical, false, false)) && resolved.after == Some(Side(Critical, true, false))
    ensures resolved.status.Resolved? && open.id == "robots" && resolved.id == "hsts"
  {
    PlainWords();
    hide ChecksOf, NormaliseSeverity;
    var before := TwoChecks(BEFORE.extraChecks[0], BEFORE.extraChecks[1]);
    var after := TwoChecks(AFTER.extraChecks[0], AFTER.extraChecks[1]);
    open, resolved := DeltaOf("robots", before, after, catalogue), DeltaOf("hsts", before, after, catalogue);
  }

  /** The full comparison lists the open finding of low severity before the resolved critical one. */
  lemma OpenLowPrecedesResolvedCritical(catalogue: Catalogue) returns (open: Delta, resolved: Delta)
    ensures var out := Compare(BEFORE, AFTER, catalogue, [], false);
            && open in out && open.status.Open? && SeverityRank(open) == Low.Rank()
            && resolved in out && resolved.status.Resolved? && SeverityRank(resolved) == Critical.Rank()
            && !RestBySeverity(out)
  {
    open, resolved := TwoDeltas(catalogue);
    hide *;
    EverythingIsListed(BEFORE, AFTER, catalogue, open);
    EverythingIsListed(BEFORE, AFTER, catalogue, resolved);
    MilderButMoreUrgent(open, resolved);
    MilderStandsBefore(BEFORE, AFTER, catalogue, open, resolved);
  }

  lemma EverythingIsListed(previous: Document, current: Document, catalogue: Catalogue, d: Delta)
    requires var before, after := ChecksOf(previous.extraChecks), ChecksOf(current.extraChecks);
             d.id in before.at && d == DeltaOf(d.id, before, after, catalogue)
    ensures d in Compare(previous, current, catalogue, [], false)
  {
    assert Wanted([]) == {};
    hide ChecksOf, AdvisoriesOf, DeltaOf, Wanted, Compare;
    ComparedExactly(previous, current, catalogue, [], false, d);
  }

  lemma MilderButMoreUrgent(open: Delta, resolved: Delta)
    requires open.before == Some(Side(Low, false, false)) == open.after && open.status.Open?
    requires resolved.before == Some(Side(Critical, false, false)) && resolved.after == Some(Side(Critical, true, false))
    requires resolved.status.Resolved?
    ensures AmongTheRest(open) && UrgencyOf(open) < UrgencyOf(resolved)
    ensures SeverityRank(open) == Low.Rank() > SeverityRank(resolved) == Critical.Rank()
  {
  }

  lemma MilderStandsBefore(previous: Document, current: Document, catalogue: Catalogue, first: Delta, second: Delta)
    requires var out := Compare(previous, current, catalogue, [], false); first in out && second in out
    requires AmongTheRest(first) && UrgencyOf(first) < UrgencyOf(second) && SeverityRank(first) > SeverityRank(second)
    ensures !RestBySeverity(Compare(previous, current, catalogue, [], false))
  {
    WorstComesFirst(previous, current, catalogue, [], false);
    hide Compare, UrgencyOf, SeverityRank, DeltaLeq, Ordered;
    var i, j := MoreUrgentStandsBefore(Compare(previous, current, catalogue, [], false), first, second);
  }

  /** A resolved finding whose recorded severity rose counts as one that got worse, ahead of every open one. */
  lemma ResolvedCountsAsWorse(resolved: Delta, open: Delta)
    requires resolved.status.Resolved? && resolved.SeverityWorsened()
    requires open.status.Open? && !open.SeverityWorsened()
    ensures DeltaLeq(resolved, open) && !DeltaLeq(open, resolved)
  {
  }

  // ----- swapping the documents

  function Flip(status: Status): Status {
    match status
    case Introduced => Resolved
    case Resolved => Introduced
    case Appeared => Disappeared
    case Disappeared => Appeared
    case Open => Open
    case Passing => Passing
  }

  function Mirror(d: Delta): Delta {
    Delta(d.id, d.category, d.after, d.before, Flip(d.status))
  }

  function MirrorAll(deltas: seq<Delta>): (mirrored: seq<Delta>)
    ensures |mirrored| == |deltas| && forall i | 0 <= i < |deltas| :: mirrored[i] == Mirror(deltas[i])
  {
    if deltas == [] then [] else [Mirror(deltas[0])] + MirrorAll(deltas[1..])
  }

  lemma UnionIsSymmetric(before: Book, after: Book)
    requires before.Valid() && after.Valid()
    ensures Sort(Union(before, after), StringLeq) == Sort(Union(after, before), StringLeq)
  {
    UnionListsOnce(before, after);
    UnionListsOnce(after, before);
    SameMembersSameContents(Union(before, after), Union(after, before));
    StringOrder();
    SortCanonical(Union(before, after), Union(after, before), StringLeq);
  }

  lemma DeltasMirror(before: Book, after: Book, category: Catalogue)
    requires before.Valid() && after.Valid()
    ensures Deltas(after, before, category) == MirrorAll(Deltas(before, after, category))
  {
    UnionIsSymmetric(before, after);
    hide Union, Sort, DeltaOf, Mirror;
    var ids := Sort(Union(before, after), StringLeq);
    forall i | 0 <= i < |ids|
      ensures DeltaOf(ids[i], after, before, category) == Mirror(DeltaOf(ids[i], before, after, category))
    {
      SortMembers(Union(before, after), StringLeq, ids[i]);
      DeltaMirror(ids[i], before, after, category);
    }
  }

  lemma DeltaMirror(id: string, before: Book, after: Book, category: Catalogue)
    requires id in before.at || id in after.at
    ensures DeltaOf(id, after, before, category) == Mirror(DeltaOf(id, before, after, category))
  {
  }

  lemma MirrorAppend(a: seq<Delta>, b: seq<Delta>)
    ensures MirrorAll(a + b) == MirrorAll(a) + MirrorAll(b)
  {
  }

  /** What a comparison asks for does not depend on which document came first. */
  lemma {:induction false} KeepMirror(deltas: seq<Delta>, wanted: set<string>, changedOnly: bool)
    ensures Keep(MirrorAll(deltas), wanted, changedOnly) == MirrorAll(Keep(deltas, wanted, changedOnly))
  {
    if deltas == [] {
    } else {
      KeepMirror(deltas[1..], wanted, changedOnly);
      assert MirrorAll(deltas)[1..] == MirrorAll(deltas[1..]);
      assert Mirror(deltas[0]).Changed() == deltas[0].Changed();
      var head := if Selected(deltas[0], wanted, changedOnly) then [deltas[0]] else [];
      MirrorAppend(head, Keep(deltas[1..], wanted, changedOnly));
    }
  }

  lemma KeptMirror(previous: Document, current: Document, catalogue: Catalogue, categories: seq<string>, changedOnly: bool)
    ensures Kept(current, previous, catalogue, categories, changedOnly)
            == MirrorAll(Kept(previous, current, catalogue, categories, changedOnly))
  {
    hide Deltas, Keep, Wanted, ChecksOf, AdvisoriesOf;
    var checks, checksNow := ChecksOf(previous.extraChecks), ChecksOf(current.extraChecks);
    var advisories, advisoriesNow := AdvisoriesOf(previous.vulnerabilities), AdvisoriesOf(current.vulnerabilities);
    DeltasMirror(checks, checksNow, catalogue);
    DeltasMirror(advisories, advisoriesNow, id => ADVISORY_CATEGORY);
    MirrorAppend(Deltas(checks, checksNow, catalogue), Deltas(advisories, advisoriesNow, id => ADVISORY_CATEGORY));
    KeepMirror(AllDeltas(previous, current, catalogue), Wanted(categories), changedOnly);
  }

  /** Swapping the documents turns every difference round: introduced and resolved, appeared and gone. */
  lemma SwapTurnsEveryDifference(previous: Document, current: Document, catalogue: Catalogue,
                                 categories: seq<string>, changedOnly: bool)
    ensures multiset(Compare(current, previous, catalogue, categories, changedOnly))
            == multiset(MirrorAll(Compare(previous, current, catalogue, categories, changedOnly)))
  {
    KeptMirror(previous, current, catalogue, categories, changedOnly);
    var kept := Kept(previous, current, catalogue, categories, changedOnly);
    SortContents(kept, DeltaLeq);
    SortContents(MirrorAll(kept), DeltaLeq);
    MirrorContents(Sort(kept, DeltaLeq), kept);
  }

  lemma {:induction false} MirrorContents(a: seq<Delta>, b: seq<Delta>)
    requires multiset(a) == multiset(b)
    ensures multiset(MirrorAll(a)) == multiset(MirrorAll(b))
  {
    forall d
      ensures multiset(MirrorAll(a))[d] == multiset(MirrorAll(b))[d]
    {
      MirrorCount(a, d);
      MirrorCount(b, d);
    }
  }

  lemma MirrorTwice(d: Delta)
    ensures Mirror(Mirror(d)) == d
  {
  }

  lemma {:induction false} MirrorCount(a: seq<Delta>, d: Delta)
    ensures multiset(MirrorAll(a))[d] == multiset(a)[Mirror(d)]
  {
    hide Mirror;
    if a == [] {
    } else {
      MirrorCount(a[1..], d);
      assert a == [a[0]] + a[1..];
      MirrorTwice(a[0]);
      MirrorTwice(d);
    }
  }

  // ----- totals

  type Totals = map<Severity, (nat, nat)>

  function AddSide(totals: Totals, side: Option<Side>, later: bool): Totals {
    if side.None? || !side.value.Failing() then totals
    else
      var known := if side.value.severity in totals then totals[side.value.severity] else (0, 0);
      totals[side.value.severity := if later then (known.0, known.1 + 1) else (known.0 + 1, known.1)]
  }

  function TotalsOf(deltas: seq<Delta>): Totals {
    if deltas == [] then map[]
    else
      var last := deltas[|deltas| - 1];
      AddSide(AddSide(TotalsOf(deltas[..|deltas| - 1]), last.before, false), last.after, true)
  }

  /** One line of the totals: how many failed before and after. */
  datatype TotalRow = TotalRow(severity: Severity, before: nat, after: nat)

  predicate SeverityLeq(a: Severity, b: Severity) {
    a.Rank() <= b.Rank()
  }

  /** Exactly the rows of the totals, each once, worst severity first. */
  ghost predicate RowsOf(rows: seq<TotalRow>, totals: Totals) {
    && (forall i, j | 0 <= i < j < |rows| :: rows[i].severity.Rank() < rows[j].severity.Rank())
    && (forall i | 0 <= i < |rows| :: rows[i].severity in totals && totals[rows[i].severity] == (rows[i].before, rows[i].after))
    && (forall s | s in totals :: exists i | 0 <= i < |rows| :: rows[i].severity == s)
  }

  method SeverityTotals(deltas: seq<Delta>) returns (rows: seq<TotalRow>)
    ensures RowsOf(rows, TotalsOf(deltas))
  {
    var totals: Totals, order: seq<Severity> := map[], [];
    for i := 0 to |deltas|
      invariant totals == TotalsOf(deltas[..i])
      invariant (forall s :: s in order <==> s in totals) && forall m, n | 0 <= m < n < |order| :: order[m] != order[n]
    {
      assert deltas[..i + 1][..i] == deltas[..i];
      totals, order := Tally(totals, order, deltas[i].before, false);
      totals, order := Tally(totals, order, deltas[i].after, true);
    }
    assert deltas[..|deltas|] == deltas;
    var sorted := WorstFirst(order);
    rows := [];
    for i := 0 to |sorted|
      invariant |rows| == i
      invariant forall k | 0 <= k < i :: rows[k].severity == sorted[k] && sorted[k] in totals && totals[sorted[k]] == (rows[k].before, rows[k].after)
    {
      assert sorted[i] in sorted;
      rows := rows + [TotalRow(sorted[i], totals[sorted[i]].0, totals[sorted[i]].1)];
    }
    forall s | s in totals
      ensures exists i | 0 <= i < |rows| :: rows[i].severity == s
    {
      assert s in sorted;
      var i :| 0 <= i < |sorted| && sorted[i] == s;
      assert rows[i].severity == s;
    }
  }

  /** Count one side, noting the severity when it is seen for the first time. */
  method Tally(totals: Totals, order: seq<Severity>, side: Option<Side>, later: bool) returns (next: Totals, seen: seq<Severity>)
    requires (forall s :: s in order <==> s in totals) && forall m, n | 0 <= m < n < |order| :: order[m] != order[n]
    ensures next == AddSide(totals, side, later)
    ensures (forall s :: s in seen <==> s in next) && forall m, n | 0 <= m < n < |seen| :: seen[m] != seen[n]
  {
    next, seen := AddSide(totals, side, later), order;
    if side.Some? && side.value.Failing() && side.value.severity !in totals {
      seen := seen + [side.value.severity];
    }
  }

  method WorstFirst(order: seq<Severity>) returns (sorted: seq<Severity>)
    requires forall m, n | 0 <= m < n < |order| :: order[m] != order[n]
    ensures forall s :: s in sorted <==> s in order
    ensures forall i, j | 0 <= i < j < |sorted| :: sorted[i].Rank() < sorted[j].Rank()
  {
    sorted := Sort(order, SeverityLeq);
    forall s
      ensures s in sorted <==> s in order
    {
      SortMembers(order, SeverityLeq, s);
    }
    SortContents(order, SeverityLeq);
    SortOrdered(order, SeverityLeq);
    DistinctByContents(order, sorted);
    assert forall i, j | 0 <= i < j < |sorted| :: SeverityLeq(sorted[i], sorted[j]) && sorted[i] != sorted[j];
  }

  function One(side: Option<Side>, s: Severity): nat {
    if side.Some? && side.value.Failing() && side.value.severity == s then 1 else 0
  }

  /** How many differences fail at a severity on one of the sides. */
  function Count(deltas: seq<Delta>, s: Severity, later: bool): nat {
    if deltas == [] then 0
    else One(if later then deltas[0].after else deltas[0].before, s) + Count(deltas[1..], s, later)
  }

  lemma {:induction false} CountAppend(a: seq<Delta>, b: seq<Delta>, s: Severity, later: bool)
    ensures Count(a + b, s, later) == Count(a, s, later) + Count(b, s, later)
  {
    if a == [] {
      assert a + b == b;
    } else {
      assert (a + b)[1..] == a[1..] + b;
      CountAppend(a[1..], b, s, later);
    }
  }

  ghost predicate RowIs(totals: Totals, s: Severity, before: nat, after: nat) {
    && (s in totals <==> before + after > 0)
    && (s in totals ==> totals[s] == (before, after))
  }

  lemma RowAfterSide(totals: Totals, side: Option<Side>, later: bool, s: Severity, before: nat, after: nat)
    requires RowIs(totals, s, before, after)
    ensures RowIs(AddSide(totals, side, later), s, if later then before else before + One(side, s), if later then after + One(side, s) else after)
  {
  }

  /** Every column says how many failing findings carry the severity, and only severities seen are listed. */
  lemma {:induction false} TotalsCount(deltas: seq<Delta>, s: Severity)
    ensures RowIs(TotalsOf(deltas), s, Count(deltas, s, false), Count(deltas, s, true))
  {
    hide RowIs, AddSide, One;
    if deltas == [] {
      assert RowIs(map[], s, 0, 0) by { NoRow(s); }
    } else {
      var front, last := deltas[..|deltas| - 1], deltas[|deltas| - 1];
      assert deltas == front + [last];
      TotalsCount(front, s);
      CountAppend(front, [last], s, false);
      CountAppend(front, [last], s, true);
      var before, after := Count(front, s, false), Count(front, s, true);
      RowAfterSide(TotalsOf(front), last.before, false, s, before, after);
      RowAfterSide(AddSide(TotalsOf(front), last.before, false), last.after, true, s, before + One(last.before, s), after);
    }
  }

  lemma NoRow(s: Severity)
    ensures RowIs(map[], s, 0, 0)
  {
  }

  lemma {:induction false} CountInsert(d: Delta, deltas: seq<Delta>, s: Severity, later: bool)
    ensures Count(Insert(d, deltas, DeltaLeq), s, later) == Count([d], s, later) + Count(deltas, s, later)
  {
    hide DeltaLeq;
    if deltas == [] {
    } else if DeltaLeq(d, deltas[0]) {
      CountAppend([d], deltas, s, later);
    } else {
      CountInsert(d, deltas[1..], s, later);
    }
  }

  lemma {:induction false} CountSorted(deltas: seq<Delta>, s: Severity, later: bool)
    ensures Count(Sort(deltas, DeltaLeq), s, later) == Count(deltas, s, later)
  {
    hide DeltaLeq;
    if deltas == [] {
    } else {
      CountSorted(deltas[1..], s, later);
      CountInsert(deltas[0], Sort(deltas[1..], DeltaLeq), s, later);
    }
  }

  lemma {:induction false} CountMirror(deltas: seq<Delta>, s: Severity, later: bool)
    ensures Count(MirrorAll(deltas), s, later) == Count(deltas, s, !later)
  {
    if deltas == [] {
    } else {
      assert MirrorAll(deltas)[1..] == MirrorAll(deltas[1..]);
      CountMirror(deltas[1..], s, later);
    }
  }

  function Swapped(totals: Totals): Totals {
    map s | s in totals :: (totals[s].1, totals[s].0)
  }

  /** Swapping the documents swaps the two columns. */
  lemma SwapSwapsTheColumns(previous: Document, current: Document, catalogue: Catalogue,
                            categories: seq<string>, changedOnly: bool)
    ensures TotalsOf(Compare(current, previous, catalogue, categories, changedOnly))
            == Swapped(TotalsOf(Compare(previous, current, catalogue, categories, changedOnly)))
  {
    KeptMirror(previous, current, catalogue, categories, changedOnly);
    var kept := Kept(previous, current, catalogue, categories, changedOnly);
    var mirrored := MirrorAll(kept);
    hide TotalsOf, Sort, Count, MirrorAll;
    forall s: Severity
      ensures Count(Sort(mirrored, DeltaLeq), s, false) == Count(Sort(kept, DeltaLeq), s, true)
      ensures Count(Sort(mirrored, DeltaLeq), s, true) == Count(Sort(kept, DeltaLeq), s, false)
    {
      CountSorted(kept, s, false);
      CountSorted(kept, s, true);
      CountSorted(mirrored, s, false);
      CountSorted(mirrored, s, true);
      CountMirror(kept, s, false);
      CountMirror(kept, s, true);
    }
    forall s: Severity
      ensures s in TotalsOf(Sort(mirrored, DeltaLeq)) <==> s in TotalsOf(Sort(kept, DeltaLeq))
      ensures s in TotalsOf(Sort(kept, DeltaLeq)) ==>
                TotalsOf(Sort(mirrored, DeltaLeq))[s] == (TotalsOf(Sort(kept, DeltaLeq))[s].1, TotalsOf(Sort(kept, DeltaLeq))[s].0)
    {
      TotalsCount(Sort(mirrored, DeltaLeq), s);
      TotalsCount(Sort(kept, DeltaLeq), s);
    }
  }

  /** What an unchanged difference adds to one column it adds to the other. */
  lemma UnchangedIsBalanced(d: Delta, s: Severity)
    requires d.status == StatusOf(d.before, d.after) && (d.before.Some? || d.after.Some?) && !d.Changed()
    ensures One(d.before, s) == One(d.after, s)
  {
  }

  lemma KeepStep(deltas: seq<Delta>, wanted: set<string>, changedOnly: bool, s: Severity, later: bool)
    requires deltas != []
    ensures Count(Keep(deltas, wanted, changedOnly), s, later)
            == (if Selected(deltas[0], wanted, changedOnly)
                then One(if later then deltas[0].after else deltas[0].before, s) else 0)
               + Count(Keep(deltas[1..], wanted, changedOnly), s, later)
  {
    hide One, Selected;
    var head := if Selected(deltas[0], wanted, changedOnly) then [deltas[0]] else [];
    CountAppend(head, Keep(deltas[1..], wanted, changedOnly), s, later);
  }

  lemma {:induction false} FilterIsBalanced(deltas: seq<Delta>, wanted: set<string>, s: Severity)
    requires forall d | d in deltas :: d.status == StatusOf(d.before, d.after) && (d.before.Some? || d.after.Some?)
    ensures Count(Keep(deltas, wanted, true), s, true) - Count(Keep(deltas, wanted, true), s, false)
            == Count(Keep(deltas, wanted, false), s, true) - Count(Keep(deltas, wanted, false), s, false)
  {
    hide One, StatusOf, Keep, Count;
    if deltas == [] {
      assert Keep(deltas, wanted, true) == Keep(deltas, wanted, false) by { KeepNothing(wanted); }
    } else {
      FilterIsBalanced(deltas[1..], wanted, s);
      var d := deltas[0];
      assert d in deltas;
      if !d.Changed() {
        UnchangedIsBalanced(d, s);
      }
      KeepStep(deltas, wanted, true, s, true);
      KeepStep(deltas, wanted, true, s, false);
      KeepStep(deltas, wanted, false, s, true);
      KeepStep(deltas, wanted, false, s, false);
    }
  }

  lemma KeepNothing(wanted: set<string>)
    ensures Keep([], wanted, true) == [] == Keep([], wanted, false)
  {
  }

  /** Leaving out what did not change never alters how far a severity's count moved. */
  lemma NetMovementSurvivesTheFilter(previous: Document, current: Document, catalogue: Catalogue,
                                     categories: seq<string>, s: Severity)
    ensures var changed, everything := Compare(previous, current, catalogue, categories, true),
                                       Compare(previous, current, catalogue, categories, false);
            Count(changed, s, true) - Count(changed, s, false) == Count(everything, s, true) - Count(everything, s, false)
  {
    var all, wanted := AllDeltas(previous, current, catalogue), Wanted(categories);
    forall d | d in all
      ensures d.status == StatusOf(d.before, d.after) && (d.before.Some? || d.after.Some?)
    {
      DeltasMembers(ChecksOf(previous.extraChecks), ChecksOf(current.extraChecks), catalogue, d);
      DeltasMembers(AdvisoriesOf(previous.vulnerabilities), AdvisoriesOf(current.vulnerabilities), id => ADVISORY_CATEGORY, d);
    }
    FilterIsBalanced(all, wanted, s);
    CountSorted(Keep(all, wanted, true), s, true);
    CountSorted(Keep(all, wanted, true), s, false);
    CountSorted(Keep(all, wanted, false), s, true);
    CountSorted(Keep(all, wanted, false), s, false);
  }

  // ----- the columns add up

  function ColumnSum(deltas: seq<Delta>, later: bool): nat {
    Count(deltas, Critical, later) + Count(deltas, High, later) + Count(deltas, Medium, later)
    + Count(deltas, Low, later) + Count(deltas, UnknownSeverity, later)
  }

  function FailingAmong(ids: seq<string>, book: Book): nat {
    if ids == [] then 0
    else (if ids[0] in book.at && book.at[ids[0]].Failing() then 1 else 0) + FailingAmong(ids[1..], book)
  }

  lemma {:induction false} ColumnOfDeltas(ids: seq<string>, before: Book, after: Book, category: Catalogue, later: bool)
    ensures ColumnSum(DeltasFor(ids, before, after, category), later) == FailingAmong(ids, if later then after else before)
  {
    if ids == [] {
    } else {
      ColumnOfDeltas(ids[1..], before, after, category, later);
      var deltas := DeltasFor(ids, before, after, category);
      assert deltas[1..] == DeltasFor(ids[1..], before, after, category);
      var side := if later then deltas[0].after else deltas[0].before;
      assert One(side, Critical) + One(side, High) + One(side, Medium) + One(side, Low) + One(side, UnknownSeverity)
          == if side.Some? && side.value.Failing() then 1 else 0;
    }
  }

  lemma {:induction false} FailingInsert(id: string, ids: seq<string>, book: Book)
    ensures FailingAmong(Insert(id, ids, StringLeq), book) == FailingAmong([id], book) + FailingAmong(ids, book)
  {
    hide StringLeq;
    if ids == [] {
    } else if StringLeq(id, ids[0]) {
      assert ([id] + ids)[1..] == ids;
    } else {
      FailingInsert(id, ids[1..], book);
    }
  }

  lemma {:induction false} FailingSorted(ids: seq<string>, book: Book)
    ensures FailingAmong(Sort(ids, StringLeq), book) == FailingAmong(ids, book)
  {
    if ids == [] {
    } else {
      FailingSorted(ids[1..], book);
      FailingInsert(ids[0], Sort(ids[1..], StringLeq), book);
    }
  }

  lemma {:induction false} FailingAppend(a: seq<string>, b: seq<string>, book: Book)
    requires forall id | id in b :: id !in book.at
    ensures FailingAmong(a + b, book) == FailingAmong(a, book)
  {
    if a == [] {
      assert a + b == b;
      NoneFailing(b, book);
    } else {
      assert (a + b)[1..] == a[1..] + b;
      FailingAppend(a[1..], b, book);
    }
  }

  lemma {:induction false} NoneFailing(ids: seq<string>, book: Book)
    requires forall id | id in ids :: id !in book.at
    ensures FailingAmong(ids, book) == 0
  {
    if ids == [] {
    } else {
      assert ids[0] in ids;
      NoneFailing(ids[1..], book);
    }
  }

  lemma ColumnOfBooks(before: Book, after: Book, category: Catalogue, later: bool)
    requires before.Valid() && after.Valid()
    ensures ColumnSum(Deltas(before, after, category), later)
            == if later then FailingAmong(after.order, after) else FailingAmong(before.order, before)
  {
    ColumnOfDeltas(Sort(Union(before, after), StringLeq), before, after, category, later);
    UnionIsSymmetric(before, after);
    hide Sort;
    if later {
      FailingSorted(Union(after, before), after);
      FailingAppend(after.order, Without(before.order, after.at), after);
    } else {
      FailingSorted(Union(before, after), before);
      FailingAppend(before.order, Without(after.order, before.at), before);
    }
  }

  function FailingIn(d: Document): nat {
    FailingAmong(ChecksOf(d.extraChecks).order, ChecksOf(d.extraChecks)) + |AdvisoriesOf(d.vulnerabilities).order|
  }

  lemma {:induction false} AllFailing(ids: seq<string>, book: Book)
    requires forall id | id in ids :: id in book.at && book.at[id].Failing()
    ensures FailingAmong(ids, book) == |ids|
  {
    if ids == [] {
    } else {
      assert ids[0] in ids;
      AllFailing(ids[1..], book);
    }
  }

  lemma {:induction false} KeepEverything(deltas: seq<Delta>)
    ensures Keep(deltas, {}, false) == deltas
  {
    if deltas == [] {
    } else {
      KeepEverything(deltas[1..]);
    }
  }

  lemma ColumnAppend(a: seq<Delta>, b: seq<Delta>, later: bool)
    ensures ColumnSum(a + b, later) == ColumnSum(a, later) + ColumnSum(b, later)
    ensures ColumnSum(Sort(a, DeltaLeq), later) == ColumnSum(a, later)
  {
    hide Count, Sort, DeltaLeq;
    forall s: Severity
      ensures Count(a + b, s, later) == Count(a, s, later) + Count(b, s, later)
      ensures Count(Sort(a, DeltaLeq), s, later) == Count(a, s, later)
    {
      CountAppend(a, b, s, later);
      CountSorted(a, s, later);
    }
  }

  /** On the unfiltered comparison each column adds up to the failing checks and advisories of its document. */
  lemma ColumnsAddUp(previous: Document, current: Document, catalogue: Catalogue, later: bool)
    ensures ColumnSum(Compare(previous, current, catalogue, [], false), later)
            == FailingIn(if later then current else previous)
  {
    var checks, checksNow := ChecksOf(previous.extraChecks), ChecksOf(current.extraChecks);
    var advisories, advisoriesNow := AdvisoriesOf(previous.vulnerabilities), AdvisoriesOf(current.vulnerabilities);
    var all := AllDeltas(previous, current, catalogue);
    assert Wanted([]) == {};
    KeepEverything(all);
    ColumnAppend(all, [], later);
    ColumnAppend(Deltas(checks, checksNow, catalogue), Deltas(advisories, advisoriesNow, id => ADVISORY_CATEGORY), later);
    ColumnOfBooks(checks, checksNow, catalogue, later);
    ColumnOfBooks(advisories, advisoriesNow, id => ADVISORY_CATEGORY, later);
    AllFailing(advisories.order, advisories);
    AllFailing(advisoriesNow.order, advisoriesNow);
    hide ColumnSum, FailingAmong, Sort, Keep, Deltas;
  }
}
