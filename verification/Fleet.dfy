/** One summary over many hosts: loops over reports that must agree with what each report says. */
module Fleet {
  import opened Wrappers
  import opened Sorting
  import opened Text
  import opened Documents
  import opened Severities
  import opened Coverage
  import opened FleetWaivers

  // ----- the newest report of each host

  datatype LifecycleState = EndOfLife | UnknownState | Supported

  /** Where a version stands: as recorded, and placed again in today's schedule when it can be. */
  datatype Placement = Placement(recorded: LifecycleState, placedAgain: Option<(LifecycleState, Option<int>)>)

  /**
   An archived report; `error` is empty for a scan that succeeded. The two
   orders are those in which its hardening and header blocks list their names.
   */
  datatype Report = Report(host: string, at: int, error: string, doc: Document, placement: Placement,
                           hardeningOrder: seq<string>, headerOrder: seq<string>, waivers: seq<WaiverRecord>)
  {
    predicate Failed() { error != "" }
  }

  /** Tuple order on (time, not failed). */
  predicate Newer(a: Report, b: Report) {
    a.at > b.at || (a.at == b.at && !a.Failed() && b.Failed())
  }

  /** `r` is the report kept for its host: none is newer, and none before it is as new. */
  ghost predicate Kept(reports: seq<Report>, i: nat)
    requires i < |reports|
  {
    && (forall j | 0 <= j < |reports| && reports[j].host == reports[i].host :: !Newer(reports[j], reports[i]))
    && (forall j | 0 <= j < i && reports[j].host == reports[i].host :: Newer(reports[i], reports[j]))
  }

  ghost predicate NewestOf(newest: map<string, Report>, order: seq<string>, reports: seq<Report>) {
    && (forall host :: host in newest <==> exists i | 0 <= i < |reports| :: reports[i].host == host)
    && (forall host | host in newest ::
          newest[host].host == host && exists i: nat | i < |reports| :: reports[i] == newest[host] && Kept(reports, i))
    && (forall host :: host in order <==> host in newest)
    && (forall i, j | 0 <= i < j < |order| :: order[i] != order[j])
    && |order| <= |reports|
  }

  method Latest(reports: seq<Report>) returns (newest: map<string, Report>, order: seq<string>, superseded: nat)
    ensures NewestOf(newest, order, reports)
    ensures |order| + superseded == |reports|
  {
    newest, order := map[], [];
    for i := 0 to |reports|
      invariant NewestOf(newest, order, reports[..i])
    {
      var report := reports[i];
      var seen := reports[..i];
      assert reports[..i + 1] == seen + [report];
      if report.host !in newest {
        FirstReport(newest, order, seen, report);
        newest := newest[report.host := report];
        order := order + [report.host];
      } else if Newer(report, newest[report.host]) {
        NewerReport(newest, order, seen, report);
        newest := newest[report.host := report];
      } else {
        OlderReport(newest, order, seen, report);
      }
    }
    assert reports[..|reports|] == reports;
    superseded := |reports| - |order|;
  }

  lemma FirstReport(newest: map<string, Report>, order: seq<string>, seen: seq<Report>, report: Report)
    requires NewestOf(newest, order, seen) && report.host !in newest
    ensures NewestOf(newest[report.host := report], order + [report.host], seen + [report])
  {
    KeptStays(newest, order, seen, report);
    assert (seen + [report])[|seen|] == report && Kept(seen + [report], |seen|);
  }

  /** Hosts other than the next report's keep the report they had. */
  lemma KeptStays(newest: map<string, Report>, order: seq<string>, seen: seq<Report>, report: Report)
    requires NewestOf(newest, order, seen)
    ensures forall host | host in newest && (host != report.host || !Newer(report, newest[host])) ::
              exists i: nat | i < |seen + [report]| :: (seen + [report])[i] == newest[host] && Kept(seen + [report], i)
  {
    var all := seen + [report];
    forall host | host in newest && (host != report.host || !Newer(report, newest[host]))
      ensures exists i: nat | i < |all| :: all[i] == newest[host] && Kept(all, i)
    {
      var i: nat :| i < |seen| && seen[i] == newest[host] && Kept(seen, i);
      assert all[i] == newest[host];
      assert Kept(all, i);
    }
  }

  lemma NewerReport(newest: map<string, Report>, order: seq<string>, seen: seq<Report>, report: Report)
    requires NewestOf(newest, order, seen) && report.host in newest && Newer(report, newest[report.host])
    ensures NewestOf(newest[report.host := report], order, seen + [report])
  {
    KeptStays(newest, order, seen, report);
    NewestIsKept(newest, order, seen, report);
    hide Kept, Newer;
    assert (seen + [report])[|seen|] == report;
  }

  lemma NewestIsKept(newest: map<string, Report>, order: seq<string>, seen: seq<Report>, report: Report)
    requires NewestOf(newest, order, seen) && report.host in newest && Newer(report, newest[report.host])
    ensures Kept(seen + [report], |seen|)
  {
    var k: nat :| k < |seen| && seen[k] == newest[report.host] && Kept(seen, k);
    assert forall j | 0 <= j < |seen| && seen[j].host == report.host :: Newer(report, seen[j]);
  }

  lemma OlderReport(newest: map<string, Report>, order: seq<string>, seen: seq<Report>, report: Report)
    requires NewestOf(newest, order, seen) && report.host in newest && !Newer(report, newest[report.host])
    ensures NewestOf(newest, order, seen + [report])
  {
    hide Kept;
    KeptStays(newest, order, seen, report);
    assert forall i | 0 <= i < |seen| :: (seen + [report])[i] == seen[i];
  }

  /**
   The report kept, on its fields: no report of the host is later, none as late
   succeeded where it failed, and of several as good the first is kept.
   */
  lemma KeptIff(reports: seq<Report>, i: nat)
    requires i < |reports|
    ensures Kept(reports, i)
            <==> forall j | 0 <= j < |reports| && reports[j].host == reports[i].host ::
                   && reports[j].at <= reports[i].at
                   && (reports[j].at == reports[i].at ==>
                         && (reports[j].error == "" ==> reports[i].error == "")
                         && (j < i ==> reports[j].error != "" && reports[i].error == ""))
  {
  }

  // ----- what fails on one host

  datatype Kind = CheckKind | HardeningKind | HeaderKind | AdvisoryKind

  datatype FleetFinding = FleetFinding(id: string, kind: Kind, severity: Option<Severity>, waived: bool)

  ghost predicate UniqueFindings(found: seq<FleetFinding>) {
    forall i, j | 0 <= i < j < |found| :: found[i].id != found[j].id
  }

  predicate Found(found: seq<FleetFinding>, id: string) {
    exists i | 0 <= i < |found| :: found[i].id == id
  }

  /** Assignment into an insertion-ordered dictionary. */
  function Put(found: seq<FleetFinding>, f: FleetFinding): (next: seq<FleetFinding>)
    requires UniqueFindings(found)
    ensures UniqueFindings(next) && f in next
    ensures forall g :: g in next <==> g == f || (g in found && g.id != f.id)
  {
    if found == [] then [f]
    else if found[0].id == f.id then
      assert forall g :: g in found <==> g == found[0] || g in found[1..];
      [f] + found[1..]
    else
      assert forall g :: g in found <==> g == found[0] || g in found[1..];
      [found[0]] + Put(found[1..], f)
  }

  /** A name that is there keeps its place, a new one goes to the end. */
  lemma {:induction false} PutKeepsPlaces(found: seq<FleetFinding>, f: FleetFinding)
    requires UniqueFindings(found)
    ensures var next := Put(found, f);
            && |next| == (if Found(found, f.id) then |found| else |found| + 1)
            && (forall i | 0 <= i < |found| :: next[i] == if found[i].id == f.id then f else found[i])
            && (!Found(found, f.id) ==> next[|found|] == f)
  {
    if found == [] {
    } else {
      PutKeepsPlaces(found[1..], f);
      assert Found(found, f.id) <==> found[0].id == f.id || Found(found[1..], f.id) by {
        if i :| 0 <= i < |found| && found[i].id == f.id {
          assert i > 0 ==> found[1..][i - 1].id == f.id;
        }
      }
    }
  }

  predicate FailsCheck(c: ExtraCheck, actionable: string -> bool) {
    c.id != "" && !c.passed && actionable(c.id)
  }

  function CheckFinding(c: ExtraCheck, ignored: set<string>): FleetFinding {
    FleetFinding(c.id, CheckKind, Some(NormaliseSeverity(c.severity)), c.ignored || c.id in ignored)
  }

  function AdvisoryFinding(v: Vulnerability): FleetFinding {
    FleetFinding(AdvisoryId(v), AdvisoryKind, Some(NormaliseSeverity(v.severity)), false)
  }

  function Measures(d: Document, hardenings: seq<string>): seq<(string, Kind)> {
    Tagged(hardenings, d.hardenings, HardeningKind) + (if d.httpsEnforced then [] else [("httpsEnforced", HardeningKind)])
  }

  function Flags(d: Document, hardenings: seq<string>, headers: seq<string>): seq<(string, Kind)> {
    Measures(d, hardenings) + Tagged(headers, d.headers, HeaderKind)
  }

  function Tagged(names: seq<string>, ok: map<string, bool>, kind: Kind): (flags: seq<(string, Kind)>)
    ensures forall f :: f in flags <==> f.1 == kind && f.0 in names && f.0 in ok && !ok[f.0]
  {
    if names == [] then []
    else (if names[0] in ok && !ok[names[0]] then [(names[0], kind)] else []) + Tagged(names[1..], ok, kind)
  }

  function PutChecks(found: seq<FleetFinding>, checks: seq<ExtraCheck>, ignored: set<string>, actionable: string -> bool): (next: seq<FleetFinding>)
    requires UniqueFindings(found)
    ensures UniqueFindings(next)
    decreases |checks|
  {
    if checks == [] then found
    else
      var before, c := PutChecks(found, checks[..|checks| - 1], ignored, actionable), checks[|checks| - 1];
      if FailsCheck(c, actionable) then Put(before, CheckFinding(c, ignored)) else before
  }

  function PutFlags(found: seq<FleetFinding>, flags: seq<(string, Kind)>, ignored: set<string>, actionable: string -> bool): (next: seq<FleetFinding>)
    requires UniqueFindings(found)
    ensures UniqueFindings(next)
    decreases |flags|
  {
    if flags == [] then found
    else
      var before, (id, kind) := PutFlags(found, flags[..|flags| - 1], ignored, actionable), flags[|flags| - 1];
      if Found(before, id) || !actionable(id) then before
      else before + [FleetFinding(id, kind, None, id in ignored)]
  }

  function PutAdvisories(found: seq<FleetFinding>, vulnerabilities: seq<Vulnerability>): (next: seq<FleetFinding>)
    requires UniqueFindings(found)
    ensures UniqueFindings(next)
    decreases |vulnerabilities|
  {
    if vulnerabilities == [] then found
    else
      var before, v := PutAdvisories(found, vulnerabilities[..|vulnerabilities| - 1]), vulnerabilities[|vulnerabilities| - 1];
      if AdvisoryId(v) == "" then before else Put(before, AdvisoryFinding(v))
  }

  /** Every failing finding that could alert; `hardenings` and `headers` give the order of the two blocks. */
  function FailingOn(d: Document, hardenings: seq<string>, headers: seq<string>, actionable: string -> bool): (found: seq<FleetFinding>)
    ensures UniqueFindings(found)
  {
    var checks := PutChecks([], d.extraChecks, d.ignored, actionable);
    var flags := PutFlags(checks, Flags(d, hardenings, headers), d.ignored, actionable);
    PutAdvisories(flags, d.vulnerabilities)
  }

  method Failing(d: Document, hardenings: seq<string>, headers: seq<string>, actionable: string -> bool) returns (found: seq<FleetFinding>)
    ensures found == FailingOn(d, hardenings, headers, actionable)
  {
    hide Put, Flags, NormaliseSeverity, Found;
    found := [];
    for i := 0 to |d.extraChecks|
      invariant found == PutChecks([], d.extraChecks[..i], d.ignored, actionable)
    {
      assert d.extraChecks[..i + 1][..i] == d.extraChecks[..i];
      var c := d.extraChecks[i];
      if c.id == "" || c.passed || !actionable(c.id) {
        continue;
      }
      found := Put(found, CheckFinding(c, d.ignored));
    }
    assert d.extraChecks[..|d.extraChecks|] == d.extraChecks;
    var checks := found;
    var flags := Flags(d, hardenings, headers);
    for i := 0 to |flags|
      invariant found == PutFlags(checks, flags[..i], d.ignored, actionable)
    {
      assert flags[..i + 1][..i] == flags[..i];
      var (id, kind) := flags[i];
      if Found(found, id) || !actionable(id) {
        continue;
      }
      found := found + [FleetFinding(id, kind, None, id in d.ignored)];
    }
    assert flags[..|flags|] == flags;
    var flagged := found;
    for i := 0 to |d.vulnerabilities|
      invariant found == PutAdvisories(flagged, d.vulnerabilities[..i])
    {
      assert d.vulnerabilities[..i + 1][..i] == d.vulnerabilities[..i];
      var v := d.vulnerabilities[i];
      if AdvisoryId(v) == "" {
        continue;
      }
      found := Put(found, AdvisoryFinding(v));
    }
    assert d.vulnerabilities[..|d.vulnerabilities|] == d.vulnerabilities;
  }

  ghost predicate FailsAsCheck(d: Document, actionable: string -> bool, id: string) {
    exists c | c in d.extraChecks :: FailsCheck(c, actionable) && c.id == id
  }

  ghost predicate FailsAsAdvisory(d: Document, id: string) {
    id != "" && exists v | v in d.vulnerabilities :: AdvisoryId(v) == id
  }

  lemma {:induction false} PutChecksIds(checks: seq<ExtraCheck>, ignored: set<string>, actionable: string -> bool, id: string)
    ensures Found(PutChecks([], checks, ignored, actionable), id)
            <==> exists c | c in checks :: FailsCheck(c, actionable) && c.id == id
  {
    if checks == [] {
    } else {
      var front, last := checks[..|checks| - 1], checks[|checks| - 1];
      assert checks == front + [last];
      PutChecksIds(front, ignored, actionable, id);
      var before := PutChecks([], front, ignored, actionable);
      if FailsCheck(last, actionable) {
        PutIds(before, CheckFinding(last, ignored), id);
      }
    }
  }

  lemma PutIds(found: seq<FleetFinding>, f: FleetFinding, id: string)
    requires UniqueFindings(found)
    ensures Found(Put(found, f), id) <==> id == f.id || Found(found, id)
  {
    var next := Put(found, f);
    if Found(next, id) {
      var i :| 0 <= i < |next| && next[i].id == id;
      assert next[i] in next;
    }
    if Found(found, id) && id != f.id {
      var i :| 0 <= i < |found| && found[i].id == id;
      assert found[i] in found && found[i] in next;
    }
  }

  lemma {:induction false} PutFlagsIds(found: seq<FleetFinding>, flags: seq<(string, Kind)>, ignored: set<string>, actionable: string -> bool, id: string)
    requires UniqueFindings(found)
    ensures Found(PutFlags(found, flags, ignored, actionable), id)
            <==> Found(found, id) || (actionable(id) && exists f | f in flags :: f.0 == id)
    decreases |flags|
  {
    if flags == [] {
    } else {
      var front, last := flags[..|flags| - 1], flags[|flags| - 1];
      assert flags == front + [last];
      PutFlagsIds(found, front, ignored, actionable, id);
      PutFlagsIds(found, front, ignored, actionable, last.0);
      var before := PutFlags(found, front, ignored, actionable);
      var next := PutFlags(found, flags, ignored, actionable);
      if next != before {
        assert forall k | 0 <= k < |before| :: next[k] == before[k];
        assert next[|before|].id == last.0;
      }
    }
  }

  lemma {:induction false} PutAdvisoriesIds(found: seq<FleetFinding>, vulnerabilities: seq<Vulnerability>, id: string)
    requires UniqueFindings(found)
    ensures Found(PutAdvisories(found, vulnerabilities), id)
            <==> Found(found, id) || (id != "" && exists v | v in vulnerabilities :: AdvisoryId(v) == id)
    decreases |vulnerabilities|
  {
    if vulnerabilities == [] {
    } else {
      var front, last := vulnerabilities[..|vulnerabilities| - 1], vulnerabilities[|vulnerabilities| - 1];
      assert vulnerabilities == front + [last];
      PutAdvisoriesIds(found, front, id);
      if AdvisoryId(last) != "" {
        PutIds(PutAdvisories(found, front), AdvisoryFinding(last), id);
      }
    }
  }

  /** What fails on a host, said without the dictionary: any of the three sources, each identifier once. */
  lemma FailingOnMeans(d: Document, hardenings: seq<string>, headers: seq<string>, actionable: string -> bool, id: string)
    requires forall name | name in d.hardenings :: name in hardenings
    requires forall name | name in d.headers :: name in headers
    ensures Found(FailingOn(d, hardenings, headers, actionable), id)
            <==> FailsAsCheck(d, actionable, id) || FailsAsAdvisory(d, id)
                 || (id in MissingHardenings(d) && actionable(id))
  {
    hide PutChecks, PutFlags, PutAdvisories, Flags, Found, MissingHardenings, FailsCheck;
    var checks := PutChecks([], d.extraChecks, d.ignored, actionable);
    var flags := Flags(d, hardenings, headers);
    var flagged := PutFlags(checks, flags, d.ignored, actionable);
    PutChecksIds(d.extraChecks, d.ignored, actionable, id);
    PutFlagsIds(checks, flags, d.ignored, actionable, id);
    PutAdvisoriesIds(flagged, d.vulnerabilities, id);
    FlagsAreMissing(d, hardenings, headers, id);
  }

  lemma FlagsAreMissing(d: Document, hardenings: seq<string>, headers: seq<string>, id: string)
    requires forall name | name in d.hardenings :: name in hardenings
    requires forall name | name in d.headers :: name in headers
    ensures (exists f | f in Flags(d, hardenings, headers) :: f.0 == id) <==> id in MissingHardenings(d)
  {
    hide Tagged;
    var flags := Flags(d, hardenings, headers);
    if id in MissingHardenings(d) {
      if id in d.hardenings && !d.hardenings[id] {
        assert (id, HardeningKind) in flags;
      } else if id in d.headers && !d.headers[id] {
        assert (id, HeaderKind) in flags;
      } else {
        assert ("httpsEnforced", HardeningKind) in flags;
      }
    }
  }

  // ----- what fails, entry by entry

  /** The last check with this identifier among those that fail and could alert. */
  ghost predicate LastFailing(checks: seq<ExtraCheck>, actionable: string -> bool, i: nat, id: string) {
    && i < |checks| && id != "" && checks[i].id == id && !checks[i].passed && actionable(id)
    && forall j | i < j < |checks| :: checks[j].id != id || checks[j].passed
  }

  ghost predicate NoneFailing(checks: seq<ExtraCheck>, actionable: string -> bool, id: string) {
    forall c | c in checks && c.id == id :: id == "" || c.passed || !actionable(id)
  }

  /** The entry a failing check makes: its severity, waived by itself or by name. */
  ghost predicate EntryOfCheck(c: ExtraCheck, ignored: set<string>, f: FleetFinding) {
    f.id == c.id && f.severity == Some(NormaliseSeverity(c.severity)) && (f.waived <==> c.ignored || c.id in ignored)
  }

  lemma {:induction false} ChecksAreFiled(checks: seq<ExtraCheck>, ignored: set<string>, actionable: string -> bool, f: FleetFinding)
    ensures f in PutChecks([], checks, ignored, actionable)
            <==> f.kind == CheckKind && exists i: nat :: LastFailing(checks, actionable, i, f.id) && EntryOfCheck(checks[i], ignored, f)
  {
    if checks == [] {
    } else {
      hide NormaliseSeverity;
      var front, last := checks[..|checks| - 1], checks[|checks| - 1];
      ChecksAreFiled(front, ignored, actionable, f);
      LastFailingNext(front, last, actionable, f.id);
      assert checks == front + [last];
      hide LastFailing;
      if FailsCheck(last, actionable) && last.id == f.id {
        assert f in PutChecks([], checks, ignored, actionable) <==> f == CheckFinding(last, ignored);
        assert LastFailing(checks, actionable, |front|, f.id);
      } else {
        assert f in PutChecks([], checks, ignored, actionable) <==> f in PutChecks([], front, ignored, actionable);
      }
    }
  }

  lemma LastFailingNext(front: seq<ExtraCheck>, last: ExtraCheck, actionable: string -> bool, id: string)
    ensures var checks := front + [last];
            && (forall i: nat | i < |front| :: checks[i] == front[i])
            && if FailsCheck(last, actionable) && last.id == id
               then forall i: nat :: LastFailing(checks, actionable, i, id) <==> i == |front|
               else forall i: nat :: LastFailing(checks, actionable, i, id) <==> LastFailing(front, actionable, i, id)
  {
    var checks := front + [last];
    assert checks[|front|] == last;
    assert forall i: nat | i < |front| :: checks[i] == front[i];
  }

  ghost predicate FirstFlag(flags: seq<(string, Kind)>, i: nat, id: string) {
    i < |flags| && flags[i].0 == id && forall j | 0 <= j < i :: flags[j].0 != id
  }

  /** The entry an absent measure or header makes: no severity of its own, waived by name only. */
  ghost predicate EntryOfFlag(flags: seq<(string, Kind)>, ignored: set<string>, actionable: string -> bool, f: FleetFinding) {
    && actionable(f.id) && f.severity == None && (f.waived <==> f.id in ignored)
    && exists i: nat :: FirstFlag(flags, i, f.id) && flags[i].1 == f.kind
  }

  lemma {:induction false} FlagsAreFiled(found: seq<FleetFinding>, flags: seq<(string, Kind)>, ignored: set<string>, actionable: string -> bool, f: FleetFinding)
    requires UniqueFindings(found)
    ensures f in PutFlags(found, flags, ignored, actionable)
            <==> f in found || (!Found(found, f.id) && EntryOfFlag(flags, ignored, actionable, f))
    decreases |flags|
  {
    if flags == [] {
    } else {
      var front, last := flags[..|flags| - 1], flags[|flags| - 1];
      assert flags == front + [last];
      FlagsAreFiled(found, front, ignored, actionable, f);
      PutFlagsIds(found, front, ignored, actionable, last.0);
      FirstFlagNext(front, last, f.id, f.kind);
      hide Found, FirstFlag, UniqueFindings;
    }
  }

  lemma FirstFlagNext(front: seq<(string, Kind)>, last: (string, Kind), id: string, kind: Kind)
    ensures (exists i: nat :: FirstFlag(front + [last], i, id) && (front + [last])[i].1 == kind)
            <==> || (exists i: nat :: FirstFlag(front, i, id) && front[i].1 == kind)
                 || (last.0 == id && last.1 == kind && forall g | g in front :: g.0 != id)
  {
    var flags := front + [last];
    assert flags[|front|] == last;
    assert forall i: nat | i < |front| :: flags[i] == front[i];
    assert forall i: nat | i < |front| :: FirstFlag(flags, i, id) <==> FirstFlag(front, i, id);
    if last.0 == id && forall g | g in front :: g.0 != id {
      assert FirstFlag(flags, |front|, id);
    }
  }

  /** A measure, or the redirect to HTTPS, is absent. */
  predicate MeasureAbsent(d: Document, id: string) {
    (id in d.hardenings && !d.hardenings[id]) || (id == "httpsEnforced" && !d.httpsEnforced)
  }

  /** Under which kind an absent flag is filed: as a measure where it is one, else as a header. */
  lemma FlagIsFiledAs(d: Document, hardenings: seq<string>, headers: seq<string>, id: string, kind: Kind)
    requires forall name | name in d.hardenings :: name in hardenings
    requires forall name | name in d.headers :: name in headers
    ensures (exists i: nat :: FirstFlag(Flags(d, hardenings, headers), i, id) && Flags(d, hardenings, headers)[i].1 == kind)
            <==> || (kind == HardeningKind && MeasureAbsent(d, id))
                 || (kind == HeaderKind && !MeasureAbsent(d, id) && id in d.headers && !d.headers[id])
  {
    var measures, others := Measures(d, hardenings), Tagged(headers, d.headers, HeaderKind);
    assert Flags(d, hardenings, headers) == measures + others;
    MeasuresMean(d, hardenings, id);
    hide Flags, MeasureAbsent, Tagged, Measures;
    if f :| f in measures && f.0 == id {
      assert f == (id, HardeningKind);
    }
    FirstOfTwo(measures, others, id, kind);
  }

  lemma MeasuresMean(d: Document, hardenings: seq<string>, id: string)
    requires forall name | name in d.hardenings :: name in hardenings
    ensures forall f | f in Measures(d, hardenings) :: f.1 == HardeningKind
    ensures (id, HardeningKind) in Measures(d, hardenings) <==> MeasureAbsent(d, id)
  {
    hide Tagged;
    assert ("httpsEnforced", HardeningKind) in [("httpsEnforced", HardeningKind)];
  }

  lemma FirstOfTwo(a: seq<(string, Kind)>, b: seq<(string, Kind)>, id: string, kind: Kind)
    requires forall f, g | f in a && g in a :: f.1 == g.1
    requires forall f, g | f in b && g in b :: f.1 == g.1
    ensures (exists i: nat :: FirstFlag(a + b, i, id) && (a + b)[i].1 == kind)
            <==> (id, kind) in a || ((forall f | f in a :: f.0 != id) && (id, kind) in b)
  {
    var flags := a + b;
    if i: nat :| FirstFlag(flags, i, id) && flags[i].1 == kind {
      if i < |a| {
        assert a[i] == (id, kind);
      } else {
        assert b[i - |a|] == (id, kind);
        assert forall j | 0 <= j < |a| :: flags[j] == a[j];
      }
    }
    if (id, kind) in a {
      var i := FirstWith(a, id);
      assert a[i] in a;
      assert FirstFlag(flags, i, id) by {
        assert forall j | 0 <= j <= i :: flags[j] == a[j];
      }
    } else if (forall f | f in a :: f.0 != id) && (id, kind) in b {
      var i := FirstWith(b, id);
      assert b[i] in b && flags[|a| + i] == b[i];
      assert FirstFlag(flags, |a| + i, id) by {
        assert forall j | 0 <= j < |a| :: flags[j] == a[j];
        assert forall j | |a| <= j < |a| + i :: flags[j] == b[j - |a|];
      }
    }
  }

  lemma {:induction false} FirstWith(flags: seq<(string, Kind)>, id: string) returns (i: nat)
    requires exists f | f in flags :: f.0 == id
    ensures FirstFlag(flags, i, id)
  {
    i := 0;
    if flags[0].0 != id {
      assert flags == [flags[0]] + flags[1..];
      i := FirstWith(flags[1..], id);
      i := i + 1;
    }
  }

  ghost predicate LastListed(advisories: seq<Vulnerability>, i: nat, id: string) {
    && i < |advisories| && id != "" && Names(advisories[i], id)
    && forall j | i < j < |advisories| :: !Names(advisories[j], id)
  }

  predicate Names(v: Vulnerability, id: string) {
    id == if v.id != "" then v.id else v.identifier
  }

  /** The entry an advisory makes: its severity, and never waived. */
  ghost predicate EntryOfAdvisory(v: Vulnerability, f: FleetFinding) {
    f.kind == AdvisoryKind && f.severity == Some(NormaliseSeverity(v.severity)) && !f.waived
  }

  lemma {:induction false} AdvisoriesAreFiled(found: seq<FleetFinding>, advisories: seq<Vulnerability>, f: FleetFinding)
    requires UniqueFindings(found)
    ensures f in PutAdvisories(found, advisories)
            <==> || (exists i: nat :: LastListed(advisories, i, f.id) && EntryOfAdvisory(advisories[i], f))
                 || (f in found && forall v | v in advisories :: f.id == "" || !Names(v, f.id))
    decreases |advisories|
  {
    if advisories == [] {
    } else {
      hide NormaliseSeverity, UniqueFindings;
      var front, last := advisories[..|advisories| - 1], advisories[|advisories| - 1];
      assert advisories == front + [last];
      AdvisoriesAreFiled(found, front, f);
      LastListedNext(front, last, f.id);
      hide LastListed;
      if f.id != "" && Names(last, f.id) {
        assert f in PutAdvisories(found, advisories) <==> f == AdvisoryFinding(last);
        assert LastListed(advisories, |front|, f.id);
      } else {
        assert f in PutAdvisories(found, advisories) <==> f in PutAdvisories(found, front);
      }
    }
  }

  lemma LastListedNext(front: seq<Vulnerability>, last: Vulnerability, id: string)
    ensures var advisories := front + [last];
            && (forall i: nat | i < |front| :: advisories[i] == front[i])
            && if id != "" && Names(last, id)
               then forall i: nat :: LastListed(advisories, i, id) <==> i == |front|
               else forall i: nat :: LastListed(advisories, i, id) <==> LastListed(front, i, id)
  {
    var advisories := front + [last];
    assert advisories[|front|] == last;
    assert forall i: nat | i < |front| :: advisories[i] == front[i];
  }

  /**
   The table of one host, entry by entry: an advisory is filed before anything else
   of its name, then a failing check, then an absent measure, then an absent header.
   */
  lemma FailingEntryIff(d: Document, hardenings: seq<string>, headers: seq<string>, actionable: string -> bool, f: FleetFinding)
    requires forall name | name in d.hardenings :: name in hardenings
    requires forall name | name in d.headers :: name in headers
    ensures f in FailingOn(d, hardenings, headers, actionable)
            <==> || (exists i: nat :: LastListed(d.vulnerabilities, i, f.id) && EntryOfAdvisory(d.vulnerabilities[i], f))
                 || ((forall v | v in d.vulnerabilities :: f.id == "" || !Names(v, f.id))
                     && (|| (f.kind == CheckKind && exists i: nat ::
                               LastFailing(d.extraChecks, actionable, i, f.id) && EntryOfCheck(d.extraChecks[i], d.ignored, f))
                         || (NoneFailing(d.extraChecks, actionable, f.id)
                             && actionable(f.id) && f.severity == None && (f.waived <==> f.id in d.ignored)
                             && (|| (f.kind == HardeningKind && MeasureAbsent(d, f.id))
                                 || (f.kind == HeaderKind && !MeasureAbsent(d, f.id) && f.id in d.headers && !d.headers[f.id])))))
  {
    var checks := PutChecks([], d.extraChecks, d.ignored, actionable);
    var flags := Flags(d, hardenings, headers);
    ChecksAreFiled(d.extraChecks, d.ignored, actionable, f);
    PutChecksIds(d.extraChecks, d.ignored, actionable, f.id);
    FlagsAreFiled(checks, flags, d.ignored, actionable, f);
    FlagIsFiledAs(d, hardenings, headers, f.id, f.kind);
    AdvisoriesAreFiled(PutFlags(checks, flags, d.ignored, actionable), d.vulnerabilities, f);
    assert NoneFailing(d.extraChecks, actionable, f.id) <==> !exists c | c in d.extraChecks :: FailsCheck(c, actionable) && c.id == f.id;
    hide PutChecks, PutFlags, PutAdvisories, Flags, Found, NoneFailing, LastFailing, LastListed, Names, EntryOfCheck, EntryOfAdvisory, MeasureAbsent, FirstFlag;
  }
}
