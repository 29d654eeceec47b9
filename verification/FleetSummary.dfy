/** The summary itself: inverted indexes built host by host, and the per-host facts they must agree with. */
module FleetSummary {
  import opened Wrappers
  import opened Sorting
  import opened Text
  import opened Documents
  import opened Severities
  import opened Coverage
  import opened Fleet
  import opened FleetDeadlines

  /** One line of the findings index: everywhere a finding fails, and where it is waived. */
  datatype Entry = Entry(kind: Kind, severity: Option<Severity>, hosts: seq<string>, waivedOn: seq<string>)

  /** An index with its identifiers in order of first appearance. */
  datatype Index = Index(order: seq<string>, entries: map<string, Entry>)

  datatype Hit = Hit(host: string, item: FleetFinding)

  /** The worse of a recorded severity and a stated one; nothing stated changes nothing. */
  function Worse(known: Option<Severity>, stated: Option<Severity>): Option<Severity> {
    if stated.Some? && (known.None? || stated.value.Rank() < known.value.Rank()) then stated else known
  }

  function AddHit(index: Index, hit: Hit): Index {
    var item := hit.item;
    var entry := if item.id in index.entries then index.entries[item.id] else Entry(item.kind, item.severity, [], []);
    var next := Entry(entry.kind, Worse(entry.severity, item.severity), entry.hosts + [hit.host],
                      if item.waived then entry.waivedOn + [hit.host] else entry.waivedOn);
    Index(if item.id in index.entries then index.order else index.order + [item.id], index.entries[item.id := next])
  }

  function IndexOf(hits: seq<Hit>): Index {
    if hits == [] then Index([], map[]) else AddHit(IndexOf(hits[..|hits| - 1]), hits[|hits| - 1])
  }

  // ----- gaps

  datatype Gap = Gap(host: string, id: string, reason: string)

  /** Where a check was not decided, and how often for each reason. */
  datatype GapEntry = GapEntry(hosts: seq<string>, reasons: multiset<string>)

  datatype GapIndex = GapIndex(order: seq<string>, entries: map<string, GapEntry>)

  function AddGap(index: GapIndex, gap: Gap): GapIndex {
    var entry := if gap.id in index.entries then index.entries[gap.id] else GapEntry([], multiset{});
    GapIndex(if gap.id in index.entries then index.order else index.order + [gap.id],
             index.entries[gap.id := GapEntry(entry.hosts + [gap.host], entry.reasons + multiset{gap.reason})])
  }

  function GapIndexOf(gaps: seq<Gap>): GapIndex {
    if gaps == [] then GapIndex([], map[]) else AddGap(GapIndexOf(gaps[..|gaps| - 1]), gaps[|gaps| - 1])
  }

  /** Rows that left a check undecided for a reason an operator can act on. */
  predicate IsGap(row: CoverageRow) {
    (row.state.NotChecked? || row.state.Inconclusive?) && row.reason != NOT_APPLICABLE && row.id != ""
  }

  function StateWord(state: State): string {
    if state.NotChecked? then "not_checked" else "inconclusive"
  }

  function GapsIn(host: string, rows: seq<CoverageRow>): seq<Gap> {
    if rows == [] then []
    else
      var row := rows[|rows| - 1];
      GapsIn(host, rows[..|rows| - 1])
      + (if IsGap(row) then [Gap(host, row.id, if row.reason == "" then StateWord(row.state) else row.reason)] else [])
  }

  // ----- one report

  /** End of life is permanent, so either side saying so is enough. */
  function StateOf(p: Placement): LifecycleState {
    if p.recorded.EndOfLife? then EndOfLife
    else if p.placedAgain.Some? then p.placedAgain.value.0
    else p.recorded
  }

  function DaysRemaining(p: Placement): Option<int> {
    if p.placedAgain.Some? then p.placedAgain.value.1 else None
  }

  predicate EndingSoon(p: Placement, windowDays: int) {
    StateOf(p).Supported? && DaysRemaining(p).Some? && 0 <= DaysRemaining(p).value <= windowDays
  }

  function FindingsOf(r: Report, actionable: string -> bool): (found: seq<FleetFinding>)
    ensures UniqueFindings(found)
  {
    if r.Failed() then [] else FailingOn(r.doc, r.hardeningOrder, r.headerOrder, actionable)
  }

  function GapsOf(r: Report): seq<Gap> {
    if r.Failed() || r.doc.coverage.None? then [] else GapsIn(r.host, r.doc.coverage.value)
  }

  function CountWaived(items: seq<FleetFinding>): nat {
    if items == [] then 0
    else CountWaived(items[..|items| - 1]) + (if items[|items| - 1].waived then 1 else 0)
  }

  lemma {:induction false} CountWaivedBound(items: seq<FleetFinding>)
    ensures CountWaived(items) <= |items|
  {
    if items == [] {
    } else {
      CountWaivedBound(items[..|items| - 1]);
    }
  }

  /** The grade of a scan that succeeded, when it is one. */
  function GradeOf(r: Report): Option<nat> {
    if !r.Failed() && r.doc.rating.Some? && 0 <= r.doc.rating.value <= MAX_RATING then Some(r.doc.rating.value) else None
  }

  const MAX_RATING := 5

  /** One host; `rating` and `state` are None for a failed scan, `rating` also for one without a usable grade. */
  datatype Row = Row(host: string, failed: bool, rating: Option<nat>, state: Option<LifecycleState>,
                     failing: nat, waived: nat, coverageGaps: nat)

  function RowOf(r: Report, actionable: string -> bool): Row {
    var items := FindingsOf(r, actionable);
    CountWaivedBound(items);
    Row(r.host, r.Failed(), GradeOf(r), if r.Failed() then None else Some(StateOf(r.placement)),
        |items| - CountWaived(items), CountWaived(items), |GapsOf(r)|)
  }

  // ----- the fleet

  function Tagged(host: string, items: seq<FleetFinding>): (hits: seq<Hit>)
    ensures |hits| == |items| && forall i | 0 <= i < |items| :: hits[i] == Hit(host, items[i])
  {
    if items == [] then [] else Tagged(host, items[..|items| - 1]) + [Hit(host, items[|items| - 1])]
  }

  function HitsOf(reports: seq<Report>, actionable: string -> bool): seq<Hit> {
    if reports == [] then []
    else
      var r := reports[|reports| - 1];
      HitsOf(reports[..|reports| - 1], actionable) + Tagged(r.host, FindingsOf(r, actionable))
  }

  function AllGaps(reports: seq<Report>): seq<Gap> {
    if reports == [] then [] else AllGaps(reports[..|reports| - 1]) + GapsOf(reports[|reports| - 1])
  }

  function Rows(reports: seq<Report>, actionable: string -> bool): (rows: seq<Row>)
    ensures |rows| == |reports|
  {
    if reports == [] then [] else Rows(reports[..|reports| - 1], actionable) + [RowOf(reports[|reports| - 1], actionable)]
  }

  function CountGrade(reports: seq<Report>, grade: nat): nat {
    if reports == [] then 0
    else CountGrade(reports[..|reports| - 1], grade) + (if GradeOf(reports[|reports| - 1]) == Some(grade) then 1 else 0)
  }

  /** How many hosts have each grade from 0 to 5. */
  function Ratings(reports: seq<Report>): (counts: seq<nat>)
    ensures |counts| == MAX_RATING + 1
  {
    seq(MAX_RATING + 1, grade requires 0 <= grade <= MAX_RATING => CountGrade(reports, grade))
  }

  function AddGrade(counts: seq<nat>, grade: Option<nat>): seq<nat>
    requires |counts| == MAX_RATING + 1 && (grade.Some? ==> grade.value <= MAX_RATING)
  {
    if grade.None? then counts else counts[grade.value := counts[grade.value] + 1]
  }

  datatype FleetReport = FleetReport(rows: seq<Row>, ratings: seq<nat>, unsupported: set<string>, ending: set<string>, unknown: set<string>,
                             failed: set<string>, stale: set<string>, withoutCoverage: set<string>,
                             findings: Index, gaps: GapIndex)

  /** The lists a host may appear in. */
  datatype Aspect = Unsupported | Ending | Unknown | FailedScan | StaleReport | NoCoverage

  /** Now, the window ahead that counts as soon, and the age that counts as stale (0 for never). */
  datatype Horizon = Horizon(now: int, windowDays: int, staleAfterDays: nat)

  predicate Has(r: Report, aspect: Aspect, horizon: Horizon) {
    match aspect
    case Unsupported => !r.Failed() && StateOf(r.placement).EndOfLife?
    case Ending => !r.Failed() && EndingSoon(r.placement, horizon.windowDays)
    case Unknown => !r.Failed() && StateOf(r.placement).UnknownState?
    case FailedScan => r.Failed()
    case StaleReport => horizon.staleAfterDays != 0 && (horizon.now - r.at) / 86400 > horizon.staleAfterDays
    case NoCoverage => !r.Failed() && r.doc.coverage.None?
  }

  function HostsThat(reports: seq<Report>, aspect: Aspect, horizon: Horizon): set<string> {
    set r | r in reports && Has(r, aspect, horizon) :: r.host
  }

  lemma OneHostMore(reports: seq<Report>, r: Report, aspect: Aspect, horizon: Horizon)
    ensures HostsThat(reports + [r], aspect, horizon)
            == HostsThat(reports, aspect, horizon) + (if Has(r, aspect, horizon) then {r.host} else {})
  {
    hide Has;
  }

  /** The summary of reports with one per host, said report by report. */
  function SummaryOf(reports: seq<Report>, actionable: string -> bool, horizon: Horizon): FleetReport {
    FleetReport(Rows(reports, actionable), Ratings(reports),
                HostsThat(reports, Unsupported, horizon), HostsThat(reports, Ending, horizon),
                HostsThat(reports, Unknown, horizon), HostsThat(reports, FailedScan, horizon),
                HostsThat(reports, StaleReport, horizon), HostsThat(reports, NoCoverage, horizon),
                IndexOf(HitsOf(reports, actionable)), GapIndexOf(AllGaps(reports)))
  }

  /** One host more. */
  method AddReport(s: FleetReport, r: Report, actionable: string -> bool, horizon: Horizon, ghost before: seq<Report>)
      returns (next: FleetReport)
    requires s == SummaryOf(before, actionable, horizon)
    ensures next == SummaryOf(before + [r], actionable, horizon)
  {
    hide FailingOn, GapsIn, StateOf, EndingSoon, HostsThat, IndexOf, GapIndexOf, RowOf, HitsOf, AllGaps, FindingsOf, Rows, Tagged;
    hide Ratings, GradeOf, AddGrade;
    next := s;
    forall aspect
      ensures HostsThat(before + [r], aspect, horizon)
              == HostsThat(before, aspect, horizon) + (if Has(r, aspect, horizon) then {r.host} else {})
    {
      OneHostMore(before, r, aspect, horizon);
    }
    OneReportMore(before, r, actionable);
    OneGradeMore(before, r);
    if horizon.staleAfterDays != 0 && (horizon.now - r.at) / 86400 > horizon.staleAfterDays {
      next := next.(stale := next.stale + {r.host});
    }
    next := next.(rows := next.rows + [RowOf(r, actionable)]);
    if r.Failed() {
      next := next.(failed := next.failed + {r.host});
    } else {
      next := next.(ratings := AddGrade(next.ratings, GradeOf(r)));
      if r.doc.coverage.None? {
        next := next.(withoutCoverage := next.withoutCoverage + {r.host});
      }
      StatesExclude(r.placement, horizon.windowDays);
      if StateOf(r.placement).EndOfLife? {
        next := next.(unsupported := next.unsupported + {r.host});
      } else if StateOf(r.placement).UnknownState? {
        next := next.(unknown := next.unknown + {r.host});
      } else if EndingSoon(r.placement, horizon.windowDays) {
        next := next.(ending := next.ending + {r.host});
      }
      var failing := Failing(r.doc, r.hardeningOrder, r.headerOrder, actionable);
      var index := AddFindings(next.findings, r.host, failing, HitsOf(before, actionable));
      var gapIndex := AddGaps(next.gaps, GapsOf(r), AllGaps(before));
      next := next.(findings := index, gaps := gapIndex);
    }
  }

  lemma OneGradeMore(before: seq<Report>, r: Report)
    ensures GradeOf(r).Some? ==> GradeOf(r).value <= MAX_RATING
    ensures Ratings(before + [r]) == AddGrade(Ratings(before), GradeOf(r))
    ensures r.Failed() ==> Ratings(before + [r]) == Ratings(before)
  {
    assert (before + [r])[..|before|] == before;
  }

  lemma OneReportMore(before: seq<Report>, r: Report, actionable: string -> bool)
    ensures Rows(before + [r], actionable) == Rows(before, actionable) + [RowOf(r, actionable)]
    ensures HitsOf(before + [r], actionable) == if r.Failed() then HitsOf(before, actionable)
              else HitsOf(before, actionable) + Tagged(r.host, FailingOn(r.doc, r.hardeningOrder, r.headerOrder, actionable))
    ensures AllGaps(before + [r]) == if r.Failed() then AllGaps(before) else AllGaps(before) + GapsOf(r)
  {
    hide FailingOn, GapsIn, RowOf;
    assert (before + [r])[..|before|] == before;
    assert HitsOf(before, actionable) + [] == HitsOf(before, actionable);
    assert AllGaps(before) + [] == AllGaps(before);
  }

  lemma StatesExclude(p: Placement, windowDays: int)
    ensures EndingSoon(p, windowDays) ==> !StateOf(p).EndOfLife? && !StateOf(p).UnknownState?
  {
  }

  method AddFindings(index: Index, host: string, items: seq<FleetFinding>, ghost before: seq<Hit>) returns (next: Index)
    requires index == IndexOf(before)
    ensures next == IndexOf(before + Tagged(host, items))
  {
    next := index;
    assert before + Tagged(host, []) == before;
    assert items[..0] == [];
    for i := 0 to |items|
      invariant next == IndexOf(before + Tagged(host, items[..i]))
    {
      ghost var hits := before + Tagged(host, items[..i]);
      assert items[..i + 1][..i] == items[..i];
      assert before + Tagged(host, items[..i + 1]) == hits + [Hit(host, items[i])];
      assert (hits + [Hit(host, items[i])])[..|hits|] == hits;
      next := AddHit(next, Hit(host, items[i]));
    }
    assert items[..|items|] == items;
  }

  method AddGaps(index: GapIndex, gaps: seq<Gap>, ghost before: seq<Gap>) returns (next: GapIndex)
    requires index == GapIndexOf(before)
    ensures next == GapIndexOf(before + gaps)
  {
    next := index;
    assert before + gaps[..0] == before;
    for i := 0 to |gaps|
      invariant next == GapIndexOf(before + gaps[..i])
    {
      ghost var seen := before + gaps[..i];
      assert before + gaps[..i + 1] == seen + [gaps[i]];
      assert (seen + [gaps[i]])[..|seen|] == seen;
      next := AddGap(next, gaps[i]);
    }
    assert gaps[..|gaps|] == gaps;
  }

  /** The reports a summary is about: the newest of each host, in host order. */
  ghost predicate NewestReports(kept: seq<Report>, reports: seq<Report>) {
    && DistinctHosts(kept)
    && (forall k | k in kept :: exists i: nat | i < |reports| :: reports[i] == k && Kept(reports, i))
    && (forall r | r in reports :: exists k | k in kept :: k.host == r.host)
  }

  method Summarise(reports: seq<Report>, actionable: string -> bool, horizon: Horizon)
      returns (s: FleetReport, due: seq<Due>, kept: seq<Report>, superseded: nat)
    ensures NewestReports(kept, reports) && |kept| + superseded == |reports|
    ensures forall i, j | 0 <= i < j < |kept| :: StringLeq(kept[i].host, kept[j].host)
    ensures s == SummaryOf(kept, actionable, horizon)
    ensures DueList(due, kept, actionable, horizon.now, horizon.windowDays)
  {
    hide DueList;
    hide SummaryOf, Sort, Kept, NewestOf, NewestReports;
    var newest, order;
    newest, order, superseded := Latest(reports);
    NewestHosts(newest, order, reports);
    EmptyFleet(actionable, horizon);
    var hosts := SortedHosts(order);
    kept := [];
    s := FleetReport([], [0, 0, 0, 0, 0, 0], {}, {}, {}, {}, {}, {}, Index([], map[]), GapIndex([], map[]));
    for i := 0 to |hosts|
      invariant |kept| == i && forall k | 0 <= k < i :: hosts[k] in newest && kept[k] == newest[hosts[k]]
      invariant s == SummaryOf(kept, actionable, horizon)
    {
      assert hosts[i] in hosts;
      var report := newest[hosts[i]];
      s := AddReport(s, report, actionable, horizon, kept);
      kept := kept + [report];
    }
    KeptAreNewest(newest, order, hosts, kept, reports);
    due := UpcomingDeadlines(kept, actionable, horizon.now, horizon.windowDays);
  }

  lemma NewestHosts(newest: map<string, Report>, order: seq<string>, reports: seq<Report>)
    requires NewestOf(newest, order, reports)
    ensures forall host :: host in order <==> host in newest
    ensures forall i, j | 0 <= i < j < |order| :: order[i] != order[j]
  {
    hide Kept;
  }

  lemma KeptAreNewest(newest: map<string, Report>, order: seq<string>, hosts: seq<string>, kept: seq<Report>, reports: seq<Report>)
    requires NewestOf(newest, order, reports)
    requires forall i, j | 0 <= i < j < |hosts| :: hosts[i] != hosts[j]
    requires forall host :: host in hosts <==> host in order
    requires |kept| == |hosts| && forall k | 0 <= k < |hosts| :: hosts[k] in newest && kept[k] == newest[hosts[k]]
    ensures NewestReports(kept, reports)
    ensures forall k | 0 <= k < |hosts| :: kept[k].host == hosts[k]
  {
    hide Kept;
    forall i, j | 0 <= i < j < |kept|
      ensures kept[i].host != kept[j].host
    {
      assert newest[hosts[i]].host == hosts[i] && newest[hosts[j]].host == hosts[j];
    }
    forall r | r in reports
      ensures exists k | k in kept :: k.host == r.host
    {
      var n :| 0 <= n < |reports| && reports[n] == r;
      assert r.host in newest && r.host in hosts;
      var k :| 0 <= k < |hosts| && hosts[k] == r.host;
      assert kept[k] in kept;
    }
  }

  method SortedHosts(order: seq<string>) returns (hosts: seq<string>)
    requires forall i, j | 0 <= i < j < |order| :: order[i] != order[j]
    ensures |hosts| == |order| && (forall host :: host in hosts <==> host in order) && Ordered(hosts, StringLeq)
    ensures forall i, j | 0 <= i < j < |hosts| :: hosts[i] != hosts[j]
  {
    hosts := Sort(order, StringLeq);
    StringOrder();
    SortOrdered(order, StringLeq);
    SortContents(order, StringLeq);
    DistinctByContents(order, hosts);
    forall host
      ensures host in hosts <==> host in order
    {
      SortMembers(order, StringLeq, host);
    }
  }

  lemma EmptyFleet(actionable: string -> bool, horizon: Horizon)
    ensures SummaryOf([], actionable, horizon)
            == FleetReport([], [0, 0, 0, 0, 0, 0], {}, {}, {}, {}, {}, {}, Index([], map[]), GapIndex([], map[]))
  {
  }

  // ----- the index against the plain facts

  /** The hosts whose hits carry an identifier, in the order they were read. */
  function HostsWith(hits: seq<Hit>, id: string, waivedOnly: bool): seq<string> {
    if hits == [] then []
    else
      var last := hits[|hits| - 1];
      HostsWith(hits[..|hits| - 1], id, waivedOnly)
      + (if last.item.id == id && (waivedOnly ==> last.item.waived) then [last.host] else [])
  }

  ghost predicate Indexed(index: Index) {
    && (forall id :: id in index.order <==> id in index.entries)
    && (forall i, j | 0 <= i < j < |index.order| :: index.order[i] != index.order[j])
  }

  /** No hit with this identifier states a worse severity, and the one shown is stated by some. */
  ghost predicate WorstStated(hits: seq<Hit>, id: string, severity: Option<Severity>) {
    && (severity.None? <==> forall h | h in hits && h.item.id == id :: h.item.severity.None?)
    && (severity.Some? ==>
          && (exists h | h in hits :: h.item.id == id && h.item.severity == severity)
          && (forall h | h in hits && h.item.id == id && h.item.severity.Some? :: severity.value.Rank() <= h.item.severity.value.Rank()))
  }

  /** What one more hit does to the line of an identifier. */
  lemma LineAfterHit(index: Index, hit: Hit, id: string)
    ensures Indexed(index) ==> Indexed(AddHit(index, hit))
    ensures id != hit.item.id ==> (id in AddHit(index, hit).entries <==> id in index.entries)
                                  && (id in index.entries ==> AddHit(index, hit).entries[id] == index.entries[id])
    ensures id == hit.item.id ==>
              var entry := if id in index.entries then index.entries[id] else Entry(hit.item.kind, hit.item.severity, [], []);
              id in AddHit(index, hit).entries
              && AddHit(index, hit).entries[id]
                 == Entry(entry.kind, Worse(entry.severity, hit.item.severity), entry.hosts + [hit.host],
                          if hit.item.waived then entry.waivedOn + [hit.host] else entry.waivedOn)
  {
  }

  lemma WorstAfterHit(hits: seq<Hit>, hit: Hit, id: string, severity: Option<Severity>)
    requires WorstStated(hits, id, severity)
    ensures WorstStated(hits + [hit], id, if hit.item.id == id then Worse(severity, hit.item.severity) else severity)
  {
    var next := if hit.item.id == id then Worse(severity, hit.item.severity) else severity;
    if next.Some? && next == severity {
      var h :| h in hits && h.item.id == id && h.item.severity == severity;
      assert h in hits + [hit];
    }
    assert hit in hits + [hit];
    assert forall h | h in hits :: h in hits + [hit];
  }

  /** The line of the index for one identifier is exactly its hits. */
  ghost predicate LineIs(index: Index, hits: seq<Hit>, id: string) {
    && (id in index.entries <==> exists h | h in hits :: h.item.id == id)
    && (id in index.entries ==>
          && index.entries[id].hosts == HostsWith(hits, id, false)
          && index.entries[id].waivedOn == HostsWith(hits, id, true)
          && WorstStated(hits, id, index.entries[id].severity))
    && (id !in index.entries ==>
          HostsWith(hits, id, false) == [] && HostsWith(hits, id, true) == [] && WorstStated(hits, id, None))
  }

  lemma HostsAfterHit(hits: seq<Hit>, hit: Hit, id: string, waivedOnly: bool)
    ensures HostsWith(hits + [hit], id, waivedOnly)
            == HostsWith(hits, id, waivedOnly)
               + (if hit.item.id == id && (waivedOnly ==> hit.item.waived) then [hit.host] else [])
  {
    assert (hits + [hit])[..|hits|] == hits;
  }

  lemma SeenAfterHit(hits: seq<Hit>, hit: Hit, id: string)
    ensures (exists h | h in hits + [hit] :: h.item.id == id) <==> (hit.item.id == id || exists h | h in hits :: h.item.id == id)
  {
    assert hit in hits + [hit];
    assert forall h | h in hits :: h in hits + [hit];
  }

  lemma LineStep(index: Index, hits: seq<Hit>, hit: Hit, id: string)
    requires LineIs(index, hits, id)
    ensures LineIs(AddHit(index, hit), hits + [hit], id)
  {
    LineAfterHit(index, hit, id);
    HostsAfterHit(hits, hit, id, false);
    HostsAfterHit(hits, hit, id, true);
    SeenAfterHit(hits, hit, id);
    WorstAfterHit(hits, hit, id, if id in index.entries then index.entries[id].severity else None);
    hide AddHit, Indexed, WorstStated, HostsWith;
  }

  lemma {:induction false} IndexLine(hits: seq<Hit>, id: string)
    ensures Indexed(IndexOf(hits))
    ensures LineIs(IndexOf(hits), hits, id)
  {
    if hits == [] {
    } else {
      var front, last := hits[..|hits| - 1], hits[|hits| - 1];
      assert hits == front + [last];
      IndexLine(front, id);
      hide LineIs, HostsWith, WorstStated;
      LineAfterHit(IndexOf(front), last, id);
      LineStep(IndexOf(front), front, last, id);
    }
  }

  function SumHosts(order: seq<string>, entries: map<string, Entry>, waivedOnly: bool): nat
    requires forall id | id in order :: id in entries
  {
    if order == [] then 0
    else
      var last := order[|order| - 1];
      SumHosts(order[..|order| - 1], entries, waivedOnly)
      + (if waivedOnly then |entries[last].waivedOn| else |entries[last].hosts|)
  }

  lemma {:induction false} SumAfterChange(order: seq<string>, entries: map<string, Entry>, id: string, e: Entry, waivedOnly: bool)
    requires forall k | k in order :: k in entries
    requires forall i, j | 0 <= i < j < |order| :: order[i] != order[j]
    ensures SumHosts(order, entries[id := e], waivedOnly)
            == SumHosts(order, entries, waivedOnly)
               + (if id !in order then 0
                  else if waivedOnly then |e.waivedOn| - |entries[id].waivedOn|
                  else |e.hosts| - |entries[id].hosts|)
  {
    if order == [] {
    } else {
      var front, last := order[..|order| - 1], order[|order| - 1];
      assert order == front + [last];
      SumAfterChange(front, entries, id, e, waivedOnly);
    }
  }

  function CountHits(hits: seq<Hit>, waivedOnly: bool): nat {
    if hits == [] then 0
    else CountHits(hits[..|hits| - 1], waivedOnly)
         + (if waivedOnly && !hits[|hits| - 1].item.waived then 0 else 1)
  }

  lemma SumWithLast(order: seq<string>, entries: map<string, Entry>, id: string, waivedOnly: bool)
    requires forall k | k in order + [id] :: k in entries
    ensures forall k | k in order :: k in entries
    ensures SumHosts(order + [id], entries, waivedOnly)
            == SumHosts(order, entries, waivedOnly) + (if waivedOnly then |entries[id].waivedOn| else |entries[id].hosts|)
  {
    assert (order + [id])[..|order|] == order;
    assert forall k | k in order :: k in order + [id];
  }

  lemma SumAfterHit(index: Index, hit: Hit, waivedOnly: bool)
    requires Indexed(index)
    ensures Indexed(AddHit(index, hit))
    ensures var next := AddHit(index, hit);
            SumHosts(next.order, next.entries, waivedOnly)
            == SumHosts(index.order, index.entries, waivedOnly) + (if waivedOnly && !hit.item.waived then 0 else 1)
  {
    hide SumHosts;
    var id, next := hit.item.id, AddHit(index, hit);
    SumAfterChange(index.order, index.entries, id, next.entries[id], waivedOnly);
    LineAfterHit(index, hit, id);
    if id !in index.entries {
      SumWithLast(index.order, next.entries, id, waivedOnly);
    }
  }

  /** Every hit is counted under exactly one identifier. */
  lemma {:induction false} IndexConserves(hits: seq<Hit>, waivedOnly: bool)
    ensures Indexed(IndexOf(hits))
    ensures SumHosts(IndexOf(hits).order, IndexOf(hits).entries, waivedOnly) == CountHits(hits, waivedOnly)
  {
    if hits == [] {
    } else {
      hide AddHit, Indexed;
      IndexConserves(hits[..|hits| - 1], waivedOnly);
      SumAfterHit(IndexOf(hits[..|hits| - 1]), hits[|hits| - 1], waivedOnly);
    }
  }

  lemma {:induction false} CountConcat(a: seq<Hit>, b: seq<Hit>, waivedOnly: bool)
    ensures CountHits(a + b, waivedOnly) == CountHits(a, waivedOnly) + CountHits(b, waivedOnly)
    decreases |b|
  {
    if b == [] {
      assert a + b == a;
    } else {
      assert (a + b)[..|a + b| - 1] == a + b[..|b| - 1];
      CountConcat(a, b[..|b| - 1], waivedOnly);
    }
  }

  lemma {:induction false} CountTagged(host: string, items: seq<FleetFinding>)
    ensures CountHits(Tagged(host, items), false) == |items|
    ensures CountHits(Tagged(host, items), true) == CountWaived(items)
  {
    if items == [] {
    } else {
      CountTagged(host, items[..|items| - 1]);
      assert Tagged(host, items)[..|items| - 1] == Tagged(host, items[..|items| - 1]);
    }
  }

  function SumRows(rows: seq<Row>, waivedOnly: bool): nat {
    if rows == [] then 0
    else
      var last := rows[|rows| - 1];
      SumRows(rows[..|rows| - 1], waivedOnly) + (if waivedOnly then last.waived else last.failing + last.waived)
  }

  lemma {:induction false} HitsMatchRows(reports: seq<Report>, actionable: string -> bool, waivedOnly: bool)
    ensures CountHits(HitsOf(reports, actionable), waivedOnly) == SumRows(Rows(reports, actionable), waivedOnly)
  {
    if reports == [] {
    } else {
      var front, r := reports[..|reports| - 1], reports[|reports| - 1];
      HitsMatchRows(front, actionable, waivedOnly);
      CountConcat(HitsOf(front, actionable), Tagged(r.host, FindingsOf(r, actionable)), waivedOnly);
      CountTagged(r.host, FindingsOf(r, actionable));
      CountWaivedBound(FindingsOf(r, actionable));
      assert Rows(reports, actionable)[..|front|] == Rows(front, actionable);
    }
  }

  /**
   No double counting across the fleet: the counts of the findings index add up
   to what the hosts fail, waived ones included, and its waivers to the hosts'.
   */
  lemma FindingCountsAddUp(reports: seq<Report>, actionable: string -> bool, horizon: Horizon)
    ensures var s := SummaryOf(reports, actionable, horizon);
            && Indexed(s.findings)
            && SumHosts(s.findings.order, s.findings.entries, false) == SumRows(s.rows, false)
            && SumHosts(s.findings.order, s.findings.entries, true) == SumRows(s.rows, true)
  {
    IndexConserves(HitsOf(reports, actionable), false);
    IndexConserves(HitsOf(reports, actionable), true);
    HitsMatchRows(reports, actionable, false);
    HitsMatchRows(reports, actionable, true);
  }

  lemma {:induction false} HitMembers(reports: seq<Report>, actionable: string -> bool, h: Hit)
    ensures h in HitsOf(reports, actionable) <==> exists r | r in reports :: r.host == h.host && h.item in FindingsOf(r, actionable)
  {
    if reports == [] {
    } else {
      var front, r := reports[..|reports| - 1], reports[|reports| - 1];
      assert reports == front + [r];
      HitMembers(front, actionable, h);
      var tagged, items := Tagged(r.host, FindingsOf(r, actionable)), FindingsOf(r, actionable);
      if h in tagged {
        var i :| 0 <= i < |tagged| && tagged[i] == h;
        assert items[i] in items;
      }
      if r.host == h.host && h.item in items {
        var i :| 0 <= i < |items| && items[i] == h.item;
        assert tagged[i] == h;
      }
    }
  }

  lemma {:induction false} HostsWithMembers(hits: seq<Hit>, id: string, host: string)
    ensures host in HostsWith(hits, id, false) <==> exists h | h in hits :: h.item.id == id && h.host == host
    ensures host in HostsWith(hits, id, true) <==> exists h | h in hits :: h.item.id == id && h.host == host && h.item.waived
  {
    if hits == [] {
    } else {
      var front, last := hits[..|hits| - 1], hits[|hits| - 1];
      assert hits == front + [last];
      HostsWithMembers(front, id, host);
    }
  }

  /** A host is listed under a finding iff that finding fails on it, and under its waivers iff it is waived there. */
  lemma HostListedIff(reports: seq<Report>, actionable: string -> bool, id: string, host: string)
    ensures var findings := IndexOf(HitsOf(reports, actionable));
            && (id in findings.entries && host in findings.entries[id].hosts
                <==> exists r, f | r in reports && f in FindingsOf(r, actionable) :: r.host == host && f.id == id)
            && (id in findings.entries && host in findings.entries[id].waivedOn
                <==> exists r, f | r in reports && f in FindingsOf(r, actionable) :: r.host == host && f.id == id && f.waived)
  {
    var hits := HitsOf(reports, actionable);
    IndexLine(hits, id);
    HostsWithMembers(hits, id, host);
    forall r, f | r in reports && f in FindingsOf(r, actionable)
      ensures Hit(r.host, f) in hits
    {
      HitMembers(reports, actionable, Hit(r.host, f));
    }
    forall h | h in hits
      ensures exists r | r in reports :: r.host == h.host && h.item in FindingsOf(r, actionable)
    {
      HitMembers(reports, actionable, h);
    }
  }

  lemma {:induction false} HostsWithConcat(a: seq<Hit>, b: seq<Hit>, id: string)
    ensures HostsWith(a + b, id, false) == HostsWith(a, id, false) + HostsWith(b, id, false)
    decreases |b|
  {
    if b == [] {
      assert a + b == a;
    } else {
      assert (a + b)[..|a + b| - 1] == a + b[..|b| - 1];
      HostsWithConcat(a, b[..|b| - 1], id);
    }
  }

  lemma FoundAppend(front: seq<FleetFinding>, last: FleetFinding, id: string)
    ensures Found(front + [last], id) <==> Found(front, id) || last.id == id
  {
    var items := front + [last];
    if Found(front, id) {
      var i :| 0 <= i < |front| && front[i].id == id;
      assert items[i].id == id;
    }
    assert items[|front|] == last;
  }

  lemma {:induction false} TaggedOnce(host: string, items: seq<FleetFinding>, id: string)
    requires UniqueFindings(items)
    ensures HostsWith(Tagged(host, items), id, false) == if Found(items, id) then [host] else []
  {
    if items == [] {
      assert Tagged(host, items) == [];
    } else {
      var front, last := items[..|items| - 1], items[|items| - 1];
      assert items == front + [last];
      assert Found(front, id) ==> last.id != id;
      hide Found, HostsWith;
      TaggedOnce(host, front, id);
      FoundAppend(front, last, id);
      HostsAfterHit(Tagged(host, front), Hit(host, last), id, false);
    }
  }

  ghost predicate DistinctHosts(reports: seq<Report>) {
    forall i, j | 0 <= i < j < |reports| :: reports[i].host != reports[j].host
  }

  ghost predicate NoRepeats(hosts: seq<string>) {
    forall i, j | 0 <= i < j < |hosts| :: hosts[i] != hosts[j]
  }

  /** A host without a report is listed nowhere. */
  lemma ListedHostHasReport(reports: seq<Report>, actionable: string -> bool, id: string, host: string)
    requires forall r | r in reports :: r.host != host
    ensures host !in HostsWith(HitsOf(reports, actionable), id, false)
  {
    hide FindingsOf, HostsWith, HitsOf;
    var hits := HitsOf(reports, actionable);
    HostsWithMembers(hits, id, host);
    forall h | h in hits
      ensures h.host != host
    {
      HitMembers(reports, actionable, h);
    }
  }

  lemma HitsAfterReport(reports: seq<Report>, actionable: string -> bool, id: string)
    requires reports != []
    ensures var front, r := reports[..|reports| - 1], reports[|reports| - 1];
            HostsWith(HitsOf(reports, actionable), id, false)
            == HostsWith(HitsOf(front, actionable), id, false)
               + (if Found(FindingsOf(r, actionable), id) then [r.host] else [])
  {
    hide FindingsOf, HostsWith, Tagged, Found;
    var front, r := reports[..|reports| - 1], reports[|reports| - 1];
    HostsWithConcat(HitsOf(front, actionable), Tagged(r.host, FindingsOf(r, actionable)), id);
    TaggedOnce(r.host, FindingsOf(r, actionable), id);
  }

  /** With one report per host, no host is listed twice under a finding. */
  lemma {:induction false} HostsListedOnce(reports: seq<Report>, actionable: string -> bool, id: string)
    requires DistinctHosts(reports)
    ensures NoRepeats(HostsWith(HitsOf(reports, actionable), id, false))
    decreases |reports|
  {
    if reports == [] {
      assert HostsWith(HitsOf(reports, actionable), id, false) == [];
    } else {
      hide FindingsOf, HostsWith, HitsOf, Found;
      var front, r := reports[..|reports| - 1], reports[|reports| - 1];
      HostsListedOnce(front, actionable, id);
      HitsAfterReport(reports, actionable, id);
      ListedHostHasReport(front, actionable, id, r.host);
    }
  }

  // ----- gaps

  ghost predicate GapsIndexed(index: GapIndex) {
    && (forall id :: id in index.order <==> id in index.entries)
    && (forall i, j | 0 <= i < j < |index.order| :: index.order[i] != index.order[j])
    && (forall id | id in index.entries :: |index.entries[id].reasons| == |index.entries[id].hosts|)
  }

  function SumGaps(order: seq<string>, entries: map<string, GapEntry>): nat
    requires forall id | id in order :: id in entries
  {
    if order == [] then 0
    else SumGaps(order[..|order| - 1], entries) + |entries[order[|order| - 1]].hosts|
  }

  lemma {:induction false} SumGapsAfterChange(order: seq<string>, entries: map<string, GapEntry>, id: string, e: GapEntry)
    requires forall k | k in order :: k in entries
    requires forall i, j | 0 <= i < j < |order| :: order[i] != order[j]
    ensures SumGaps(order, entries[id := e])
            == SumGaps(order, entries) + (if id in order then |e.hosts| - |entries[id].hosts| else 0)
  {
    if order == [] {
    } else {
      var front, last := order[..|order| - 1], order[|order| - 1];
      assert order == front + [last];
      SumGapsAfterChange(front, entries, id, e);
    }
  }

  lemma SumGapsWithLast(order: seq<string>, entries: map<string, GapEntry>, id: string)
    requires forall k | k in order + [id] :: k in entries
    ensures forall k | k in order :: k in entries
    ensures SumGaps(order + [id], entries) == SumGaps(order, entries) + |entries[id].hosts|
  {
    assert (order + [id])[..|order|] == order;
    assert forall k | k in order :: k in order + [id];
  }

  lemma GapsIndexedAfter(index: GapIndex, gap: Gap)
    requires GapsIndexed(index)
    ensures GapsIndexed(AddGap(index, gap))
  {
  }

  lemma SumAfterGap(index: GapIndex, gap: Gap)
    requires GapsIndexed(index)
    ensures GapsIndexed(AddGap(index, gap))
    ensures SumGaps(AddGap(index, gap).order, AddGap(index, gap).entries) == SumGaps(index.order, index.entries) + 1
  {
    hide SumGaps;
    GapsIndexedAfter(index, gap);
    var id, next := gap.id, AddGap(index, gap);
    SumGapsAfterChange(index.order, index.entries, id, next.entries[id]);
    if id !in index.entries {
      SumGapsWithLast(index.order, next.entries, id);
    }
  }

  lemma {:induction false} GapIndexConserves(gaps: seq<Gap>)
    ensures GapsIndexed(GapIndexOf(gaps))
    ensures SumGaps(GapIndexOf(gaps).order, GapIndexOf(gaps).entries) == |gaps|
  {
    if gaps == [] {
    } else {
      hide AddGap, GapsIndexed;
      GapIndexConserves(gaps[..|gaps| - 1]);
      SumAfterGap(GapIndexOf(gaps[..|gaps| - 1]), gaps[|gaps| - 1]);
    }
  }

  function SumRowGaps(rows: seq<Row>): nat {
    if rows == [] then 0 else SumRowGaps(rows[..|rows| - 1]) + rows[|rows| - 1].coverageGaps
  }

  lemma {:induction false} GapsMatchRows(reports: seq<Report>, actionable: string -> bool)
    ensures |AllGaps(reports)| == SumRowGaps(Rows(reports, actionable))
  {
    if reports == [] {
    } else {
      GapsMatchRows(reports[..|reports| - 1], actionable);
      assert Rows(reports, actionable)[..|reports| - 1] == Rows(reports[..|reports| - 1], actionable);
    }
  }

  /** Gap counts add up to the hosts' own, and the reasons of each gap to its count. */
  lemma GapCountsAddUp(reports: seq<Report>, actionable: string -> bool, horizon: Horizon)
    ensures var s := SummaryOf(reports, actionable, horizon);
            GapsIndexed(s.gaps) && SumGaps(s.gaps.order, s.gaps.entries) == SumRowGaps(s.rows)
  {
    GapIndexConserves(AllGaps(reports));
    GapsMatchRows(reports, actionable);
  }

  // ----- lifecycle

  /** No report can hold two of these aspects at once. */
  predicate Exclusive(a: Aspect, b: Aspect) {
    || (a.FailedScan? && !b.FailedScan? && !b.StaleReport?)
    || (a.Unsupported? && (b.Ending? || b.Unknown?))
    || (a.Ending? && b.Unknown?)
  }

  lemma {:induction false} ExclusiveListsAreDisjoint(reports: seq<Report>, a: Aspect, b: Aspect, horizon: Horizon)
    requires DistinctHosts(reports)
    requires Exclusive(a, b)
    ensures HostsThat(reports, a, horizon) !! HostsThat(reports, b, horizon)
  {
    forall r | r in reports
      ensures !Has(r, a, horizon) || !Has(r, b, horizon)
    {
      StatesExclude(r.placement, horizon.windowDays);
    }
    hide Has;
    forall q, r | q in reports && Has(q, a, horizon) && r in reports && Has(r, b, horizon)
      ensures q.host != r.host
    {
      var i :| 0 <= i < |reports| && reports[i] == q;
      var j :| 0 <= j < |reports| && reports[j] == r;
      assert i != j;
    }
  }

  /** With one report per host, a host is in at most one lifecycle list, and a failed one in none. */
  lemma LifecycleListsAreDisjoint(reports: seq<Report>, actionable: string -> bool, horizon: Horizon)
    requires DistinctHosts(reports)
    ensures var s := SummaryOf(reports, actionable, horizon);
            && s.unsupported !! s.ending && s.unsupported !! s.unknown && s.ending !! s.unknown
            && s.failed !! (s.unsupported + s.ending + s.unknown)
            && s.failed !! s.withoutCoverage
  {
    hide HostsThat, IndexOf, HitsOf, GapIndexOf, AllGaps, Rows;
    ExclusiveListsAreDisjoint(reports, Unsupported, Ending, horizon);
    ExclusiveListsAreDisjoint(reports, Unsupported, Unknown, horizon);
    ExclusiveListsAreDisjoint(reports, Ending, Unknown, horizon);
    ExclusiveListsAreDisjoint(reports, FailedScan, Unsupported, horizon);
    ExclusiveListsAreDisjoint(reports, FailedScan, Ending, horizon);
    ExclusiveListsAreDisjoint(reports, FailedScan, Unknown, horizon);
    ExclusiveListsAreDisjoint(reports, FailedScan, NoCoverage, horizon);
  }

  // ----- grades

  function CountGraded(rows: seq<Row>): nat {
    if rows == [] then 0 else CountGraded(rows[..|rows| - 1]) + (if rows[|rows| - 1].rating.Some? then 1 else 0)
  }

  function SumGrades(counts: seq<nat>): nat
    requires |counts| == MAX_RATING + 1
  {
    counts[0] + counts[1] + counts[2] + counts[3] + counts[4] + counts[5]
  }

  lemma SumAfterGrade(counts: seq<nat>, grade: Option<nat>)
    requires |counts| == MAX_RATING + 1 && (grade.Some? ==> grade.value <= MAX_RATING)
    ensures |AddGrade(counts, grade)| == MAX_RATING + 1
    ensures SumGrades(AddGrade(counts, grade)) == SumGrades(counts) + if grade.Some? then 1 else 0
  {
  }

  lemma GradedAfter(before: seq<Report>, r: Report, actionable: string -> bool)
    ensures CountGraded(Rows(before + [r], actionable))
            == CountGraded(Rows(before, actionable)) + if GradeOf(r).Some? then 1 else 0
  {
    hide GradeOf, FindingsOf, GapsOf, CountWaived, StateOf;
    assert (before + [r])[..|before|] == before;
    var rows := Rows(before + [r], actionable);
    assert rows[..|before|] == Rows(before, actionable) && rows[|before|].rating == GradeOf(r);
  }

  /** Every host with a usable grade is counted under exactly one. */
  lemma {:induction false} GradesAddUp(reports: seq<Report>, actionable: string -> bool)
    ensures SumGrades(Ratings(reports)) == CountGraded(Rows(reports, actionable))
  {
    if reports == [] {
      assert Ratings(reports) == [0, 0, 0, 0, 0, 0];
    } else {
      hide *;
      var front, r := reports[..|reports| - 1], reports[|reports| - 1];
      assert reports == front + [r];
      GradesAddUp(front, actionable);
      OneGradeMore(front, r);
      SumAfterGrade(Ratings(front), GradeOf(r));
      GradedAfter(front, r, actionable);
    }
  }

  // ----- the headline

  function HostsOf(reports: seq<Report>): set<string> {
    set r | r in reports :: r.host
  }

  /** Hosts that were expected and sent nothing. */
  function Missing(expected: set<string>, reports: seq<Report>): set<string> {
    expected - HostsOf(reports)
  }

  /** The counts a reader looks at first; hosts rather than rows, so one that is failed and stale counts once. */
  datatype Headline = Headline(hosts: nat, unsupported: nat, waiversEnding: nat, notCovered: nat)

  function HeadlineOf(s: FleetReport, due: seq<Due>, missing: set<string>): Headline {
    Headline(|s.rows|, |s.unsupported|, |due|, |missing + s.failed + s.stale|)
  }

  /** A report that says how its host is now: neither failed nor stale. */
  predicate Current(r: Report, horizon: Horizon) {
    !Has(r, FailedScan, horizon) && !Has(r, StaleReport, horizon)
  }

  function CurrentHosts(reports: seq<Report>, horizon: Horizon): set<string> {
    set r | r in reports && Current(r, horizon) :: r.host
  }

  /** Every host expected or heard of is current or not covered, never both, and each is counted once. */
  lemma EveryHostIsAccountedFor(reports: seq<Report>, due: seq<Due>, expected: set<string>, actionable: string -> bool, horizon: Horizon)
    requires DistinctHosts(reports)
    ensures HeadlineOf(SummaryOf(reports, actionable, horizon), due, Missing(expected, reports)).notCovered
            + |CurrentHosts(reports, horizon)| == |expected + HostsOf(reports)|
  {
    hide Has, Rows, IndexOf, HitsOf, GapIndexOf, AllGaps;
    var failed, stale := HostsThat(reports, FailedScan, horizon), HostsThat(reports, StaleReport, horizon);
    var missing, current := Missing(expected, reports), CurrentHosts(reports, horizon);
    forall q, r | q in reports && r in reports && q.host == r.host
      ensures q == r
    {
      var i :| 0 <= i < |reports| && reports[i] == q;
      var j :| 0 <= j < |reports| && reports[j] == r;
    }
    assert (missing + failed + stale) !! current;
    assert missing + failed + stale + current == expected + HostsOf(reports);
  }

  // ----- the lists an operator reads first

  datatype Common = Common(id: string, entry: Entry)

  /** Most hosts first, then the worse severity, then by identifier. */
  predicate CommonLeq(a: Common, b: Common) {
    var m, n := |a.entry.hosts|, |b.entry.hosts|;
    var x, y := ShownRank(a.entry.severity), ShownRank(b.entry.severity);
    if m != n then m > n else if x != y then x < y else StringLeq(a.id, b.id)
  }

  /** A finding without a severity is listed like one whose severity is unknown. */
  function ShownRank(severity: Option<Severity>): nat {
    if severity.Some? then severity.value.Rank() else UnknownSeverity.Rank()
  }

  /** The findings of the index in the order they are shown. */
  method CommonFindings(index: Index) returns (list: seq<Common>)
    requires Indexed(index)
    ensures Ordered(list, CommonLeq)
    ensures |list| == |index.order| && forall i, j | 0 <= i < j < |list| :: list[i].id != list[j].id
    ensures forall item :: item in list <==> item.id in index.entries && item.entry == index.entries[item.id]
  {
    var all := seq(|index.order|, i requires 0 <= i < |index.order| && index.order[i] in index.entries =>
                     Common(index.order[i], index.entries[index.order[i]]));
    list := Sort(all, CommonLeq);
    CommonOrder();
    SortOrdered(all, CommonLeq);
    SortContents(all, CommonLeq);
    DistinctByContents(all, list);
    forall item
      ensures item in list <==> item.id in index.entries && item.entry == index.entries[item.id]
    {
      SortMembers(all, CommonLeq, item);
      if item.id in index.entries {
        var i :| 0 <= i < |index.order| && index.order[i] == item.id;
        assert all[i] in all;
      }
    }
    ListedOnce(list, index);
  }

  lemma ListedOnce(list: seq<Common>, index: Index)
    requires forall i, j | 0 <= i < j < |list| :: list[i] != list[j]
    requires forall item | item in list :: item.id in index.entries && item.entry == index.entries[item.id]
    ensures forall i, j | 0 <= i < j < |list| :: list[i].id != list[j].id
  {
    forall i, j | 0 <= i < j < |list|
      ensures list[i].id != list[j].id
    {
      assert list[i] in list && list[j] in list && list[i] != list[j];
    }
  }

  lemma CommonOrder()
    ensures TotalPreorder(CommonLeq)
  {
    hide StringLeq, ShownRank;
    forall a, b
      ensures CommonLeq(a, b) || CommonLeq(b, a)
    {
      StringLeqTotal(a.id, b.id);
    }
    forall a, b, c | CommonLeq(a, b) && CommonLeq(b, c)
      ensures CommonLeq(a, c)
    {
      if StringLeq(a.id, b.id) && StringLeq(b.id, c.id) {
        StringLeqTransitive(a.id, b.id, c.id);
      }
    }
  }

  // ----- the summary, field by field

  /** End of life as recorded, or by today's schedule. */
  predicate HasEnded(p: Placement) {
    p.recorded == EndOfLife || (p.placedAgain != None && p.placedAgain.value.0 == EndOfLife)
  }

  /** Not ended, and in this state by today's schedule, or as recorded where today's cannot say. */
  predicate StandsAs(p: Placement, state: LifecycleState) {
    !HasEnded(p) && state == if p.placedAgain != None then p.placedAgain.value.0 else p.recorded
  }

  /** What puts a report's host on a list, from its fields. */
  predicate Warrants(r: Report, aspect: Aspect, horizon: Horizon) {
    match aspect
    case Unsupported => r.error == "" && HasEnded(r.placement)
    case Ending =>
      && r.error == "" && StandsAs(r.placement, Supported)
      && r.placement.placedAgain != None && r.placement.placedAgain.value.1 != None
      && r.placement.placedAgain.value.1.value >= 0 && horizon.windowDays >= r.placement.placedAgain.value.1.value
    case Unknown => r.error == "" && StandsAs(r.placement, UnknownState)
    case FailedScan => r.error != ""
    case StaleReport => horizon.staleAfterDays >= 1 && horizon.now - r.at >= 86400 * (horizon.staleAfterDays + 1)
    case NoCoverage => r.error == "" && r.doc.coverage == None
  }

  lemma WarrantedIff(r: Report, aspect: Aspect, horizon: Horizon)
    ensures Has(r, aspect, horizon) <==> Warrants(r, aspect, horizon)
  {
  }

  ghost predicate SomeWarrants(reports: seq<Report>, host: string, aspect: Aspect, horizon: Horizon) {
    exists r | r in reports :: r.host == host && Warrants(r, aspect, horizon)
  }

  lemma ListedIff(reports: seq<Report>, host: string, aspect: Aspect, horizon: Horizon)
    ensures host in HostsThat(reports, aspect, horizon) <==> SomeWarrants(reports, host, aspect, horizon)
  {
    forall r: Report
      ensures Has(r, aspect, horizon) <==> Warrants(r, aspect, horizon)
    {
      WarrantedIff(r, aspect, horizon);
    }
    hide Has, Warrants;
  }

  /** A host is on a list of the summary exactly when the fields of a report of it warrant that. */
  lemma HostListsMean(reports: seq<Report>, actionable: string -> bool, horizon: Horizon, host: string)
    ensures var s := SummaryOf(reports, actionable, horizon);
            && (host in s.unsupported <==> SomeWarrants(reports, host, Unsupported, horizon))
            && (host in s.ending <==> SomeWarrants(reports, host, Ending, horizon))
            && (host in s.unknown <==> SomeWarrants(reports, host, Unknown, horizon))
            && (host in s.failed <==> SomeWarrants(reports, host, FailedScan, horizon))
            && (host in s.stale <==> SomeWarrants(reports, host, StaleReport, horizon))
            && (host in s.withoutCoverage <==> SomeWarrants(reports, host, NoCoverage, horizon))
  {
    forall aspect
      ensures host in HostsThat(reports, aspect, horizon) <==> SomeWarrants(reports, host, aspect, horizon)
    {
      ListedIff(reports, host, aspect, horizon);
    }
    hide SomeWarrants, HostsThat, IndexOf, HitsOf, GapIndexOf, AllGaps, Rows, Ratings;
  }

  /** The row of each report, in order. */
  lemma RowMeans(reports: seq<Report>, actionable: string -> bool, i: nat)
    requires i < |reports|
    ensures var r, row := reports[i], Rows(reports, actionable)[i];
            && row.host == r.host && (row.failed <==> r.error != "")
            && (forall g :: row.rating == Some(g) <==> r.error == "" && r.doc.rating == Some(g) && g in {0, 1, 2, 3, 4, 5})
            && (row.state == None <==> r.error != "")
            && (r.error == "" ==> (row.state == Some(EndOfLife) <==> HasEnded(r.placement)))
            && (r.error == "" ==> forall state | state != EndOfLife :: row.state == Some(state) <==> StandsAs(r.placement, state))
            && (r.error != "" ==> row.failing == row.waived == row.coverageGaps == 0)
            && (r.error == "" ==>
                  var found := FailingOn(r.doc, r.hardeningOrder, r.headerOrder, actionable);
                  && row.waived == |Those(found, true)| && row.failing == |Those(found, false)|
                  && row.coverageGaps == if r.doc.coverage == None then 0 else |GapsIn(r.host, r.doc.coverage.value)|)
  {
    RowAt(reports, actionable, i);
    var r := reports[i];
    WaivedAreCounted(FindingsOf(r, actionable));
    hide FailingOn, GapsIn, Rows, CountWaived;
  }

  lemma {:induction false} RowAt(reports: seq<Report>, actionable: string -> bool, i: nat)
    requires i < |reports|
    ensures Rows(reports, actionable)[i] == RowOf(reports[i], actionable)
  {
    hide RowOf;
    if i < |reports| - 1 {
      RowAt(reports[..|reports| - 1], actionable, i);
    }
  }

  /** The findings that are waived, or those that are not. */
  function Those(items: seq<FleetFinding>, waived: bool): set<FleetFinding> {
    set f | f in items && f.waived == waived
  }

  lemma {:induction false} WaivedAreCounted(items: seq<FleetFinding>)
    requires UniqueFindings(items)
    ensures CountWaived(items) == |Those(items, true)|
    ensures |items| - CountWaived(items) == |Those(items, false)|
  {
    if items == [] {
      assert Those(items, true) == {} && Those(items, false) == {};
    } else {
      var front, last := items[..|items| - 1], items[|items| - 1];
      WaivedAreCounted(front);
      OneMore(front, last);
      assert items == front + [last];
      hide Those, UniqueFindings;
    }
  }

  lemma OneMore(front: seq<FleetFinding>, last: FleetFinding)
    requires UniqueFindings(front + [last])
    ensures |Those(front + [last], last.waived)| == |Those(front, last.waived)| + 1
    ensures Those(front + [last], !last.waived) == Those(front, !last.waived)
  {
    var items := front + [last];
    forall i | 0 <= i < |front|
      ensures front[i] != last
    {
      assert items[i].id != items[|front|].id;
    }
    assert Those(items, last.waived) == Those(front, last.waived) + {last};
  }

  /** The hosts whose scan succeeded and recorded this grade. */
  function HostsGraded(reports: seq<Report>, grade: nat): set<string> {
    set r | r in reports && r.error == "" && r.doc.rating == Some(grade) :: r.host
  }

  /** The histogram counts them, grade by grade. */
  lemma {:induction false} RatingsMean(reports: seq<Report>, grade: nat)
    requires DistinctHosts(reports) && grade <= 5
    ensures |Ratings(reports)| == 6 && Ratings(reports)[grade] == |HostsGraded(reports, grade)|
  {
    if reports == [] {
      assert HostsGraded(reports, grade) == {};
    } else {
      var front, last := reports[..|reports| - 1], reports[|reports| - 1];
      RatingsMean(front, grade);
      assert reports == front + [last];
      OneGradedMore(front, last, grade);
      hide HostsGraded, DistinctHosts;
    }
  }

  lemma OneGradedMore(front: seq<Report>, last: Report, grade: nat)
    requires DistinctHosts(front + [last])
    ensures |HostsGraded(front + [last], grade)|
            == |HostsGraded(front, grade)| + if last.error == "" && last.doc.rating == Some(grade) then 1 else 0
  {
    LastHostIsNew(front, last);
    hide DistinctHosts;
    var before := HostsGraded(front, grade);
    assert HostsGraded(front + [last], grade)
        == if last.error == "" && last.doc.rating == Some(grade) then before + {last.host} else before;
  }

  lemma LastHostIsNew(front: seq<Report>, last: Report)
    requires DistinctHosts(front + [last])
    ensures forall r | r in front :: r.host != last.host
  {
    var reports := front + [last];
    forall r | r in front
      ensures r.host != last.host
    {
      var i :| 0 <= i < |front| && front[i] == r;
      assert reports[i].host != reports[|front|].host;
    }
  }

  // ----- gaps, row by row

  lemma {:induction false} GapsInOrder(host: string, a: seq<CoverageRow>, b: seq<CoverageRow>)
    ensures GapsIn(host, a + b) == GapsIn(host, a) + GapsIn(host, b)
    decreases |b|
  {
    if b == [] {
      assert a + b == a;
    } else {
      assert (a + b)[..|a + b| - 1] == a + b[..|b| - 1];
      GapsInOrder(host, a, b[..|b| - 1]);
    }
  }

  /** One row is a gap when it names a check that was left open for a reason other than not applying. */
  lemma OneRowIsAGapIff(host: string, row: CoverageRow)
    ensures var open := (row.state == NotChecked || row.state == State.Inconclusive) && row.id != "" && row.reason != "not_applicable";
            GapsIn(host, [row])
            == if !open then []
               else if row.reason != "" then [Gap(host, row.id, row.reason)]
               else if row.state == NotChecked then [Gap(host, row.id, "not_checked")]
               else [Gap(host, row.id, "inconclusive")]
  {
    assert [row][..0] == [];
  }

  /** The gaps of the fleet are those of the scans that succeeded and list their checks, host by host. */
  lemma {:induction false} GapMembers(reports: seq<Report>, g: Gap)
    ensures g in AllGaps(reports)
            <==> exists r | r in reports :: r.error == "" && r.doc.coverage != None && g in GapsIn(r.host, r.doc.coverage.value)
  {
    hide GapsIn;
    if reports == [] {
    } else {
      var front, last := reports[..|reports| - 1], reports[|reports| - 1];
      assert reports == front + [last];
      GapMembers(front, g);
    }
  }

  /** The hosts of the gaps with an identifier, in order. */
  function GapHosts(gaps: seq<Gap>, id: string): seq<string> {
    if gaps == [] then []
    else (if gaps[0].id == id then [gaps[0].host] else []) + GapHosts(gaps[1..], id)
  }

  function GapReasons(gaps: seq<Gap>, id: string): seq<string> {
    if gaps == [] then []
    else (if gaps[0].id == id then [gaps[0].reason] else []) + GapReasons(gaps[1..], id)
  }

  lemma {:induction false} GapsAppended(gaps: seq<Gap>, last: Gap, id: string)
    ensures GapHosts(gaps + [last], id) == GapHosts(gaps, id) + (if last.id == id then [last.host] else [])
    ensures GapReasons(gaps + [last], id) == GapReasons(gaps, id) + (if last.id == id then [last.reason] else [])
  {
    if gaps == [] {
      assert gaps + [last] == [last] && [last][1..] == [];
    } else {
      assert (gaps + [last])[1..] == gaps[1..] + [last];
      GapsAppended(gaps[1..], last, id);
    }
  }

  /** The line of a gap lists exactly its hosts, in order, and how often each reason was given. */
  lemma {:induction false} GapLine(gaps: seq<Gap>, id: string)
    ensures id in GapIndexOf(gaps).entries <==> exists g | g in gaps :: g.id == id
    ensures id in GapIndexOf(gaps).entries ==>
              GapIndexOf(gaps).entries[id].hosts == GapHosts(gaps, id)
              && GapIndexOf(gaps).entries[id].reasons == multiset(GapReasons(gaps, id))
    ensures id !in GapIndexOf(gaps).entries ==> GapHosts(gaps, id) == [] && GapReasons(gaps, id) == []
    decreases |gaps|
  {
    if gaps == [] {
    } else {
      var front, last := gaps[..|gaps| - 1], gaps[|gaps| - 1];
      assert gaps == front + [last];
      GapLine(front, id);
      GapsAppended(front, last, id);
      hide GapHosts, GapReasons;
    }
  }

  // ----- the lists and counts as they are shown

  /** A finding is filed under the kind it was first seen with. */
  lemma {:induction false} KindIsTheFirst(hits: seq<Hit>, i: nat)
    requires i < |hits| && forall j | 0 <= j < i :: hits[j].item.id != hits[i].item.id
    ensures hits[i].item.id in IndexOf(hits).entries && IndexOf(hits).entries[hits[i].item.id].kind == hits[i].item.kind
    decreases |hits|
  {
    var id := hits[i].item.id;
    var front, last := hits[..|hits| - 1], hits[|hits| - 1];
    IndexLine(front, id);
    LineAfterHit(IndexOf(front), last, id);
    hide AddHit, Worse;
    if i < |front| {
      KindIsTheFirst(front, i);
    } else {
      assert forall h | h in front :: h.item.id != id;
    }
  }

  /** Two lines of the findings: the one on more hosts first, then the worse severity, none counting as unknown, then the identifier. */
  lemma CommonStandInOrder(list: seq<Common>, i: nat, j: nat)
    requires Ordered(list, CommonLeq) && i < j < |list|
    ensures var a, b := list[i], list[j];
            && |a.entry.hosts| >= |b.entry.hosts|
            && (|a.entry.hosts| == |b.entry.hosts| ==>
                  && (a.entry.severity != None && b.entry.severity != None ==> a.entry.severity.value.Rank() <= b.entry.severity.value.Rank())
                  && (a.entry.severity == None && b.entry.severity != None ==> b.entry.severity.value == UnknownSeverity)
                  && (a.entry.severity == b.entry.severity ==> StringLeq(a.id, b.id)))
  {
    hide StringLeq;
    assert CommonLeq(list[i], list[j]);
  }

  /** The headline: hosts heard of, hosts out of support, deadlines listed, and hosts expected in vain, failed or stale. */
  lemma HeadlineMeans(reports: seq<Report>, due: seq<Due>, expected: set<string>, actionable: string -> bool, horizon: Horizon)
    ensures var s := SummaryOf(reports, actionable, horizon);
            var h := HeadlineOf(s, due, Missing(expected, reports));
            && h.hosts == |reports| && h.unsupported == |s.unsupported| && h.waiversEnding == |due|
            && h.notCovered == |(set host | host in expected && forall r | r in reports :: r.host != host) + s.failed + s.stale|
  {
    hide HostsThat, IndexOf, HitsOf, GapIndexOf, AllGaps, Ratings;
    assert Missing(expected, reports) == set host | host in expected && forall r | r in reports :: r.host != host;
  }
}
