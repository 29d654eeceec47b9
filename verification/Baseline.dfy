/** What a host looked like last time, what changed since, and what a run must still alert on. */
module Baseline {
  import opened Wrappers
  import opened Documents
  import opened Coverage

  /**
   A finding identifier. The stored strings carry one of four prefixes, none a
   prefix of another, so the prefix and the rest can always be told apart.
   */
  datatype Finding = Vuln(id: string) | Hardening(name: string) | Check(check: string) | Update(version: string)

  /** `measured` and `considered` are None for a snapshot that cannot say. */
  datatype Snapshot = Snapshot(rating: int, eol: bool, findings: set<Finding>,
                               measured: Option<set<string>>, inconclusive: map<string, string>,
                               considered: Option<set<Finding>>)

  datatype Comparison = Comparison(previous: Option<Snapshot>, current: Snapshot,
                                   newFindings: set<Finding>, resolved: set<Finding>,
                                   newlyMeasured: set<Finding>, noLongerMeasured: set<Finding>,
                                   coverageLost: map<string, string>)
  {
    predicate FirstRun() { previous.None? }

    predicate RatingWorsened() { previous.Some? && current.rating < previous.value.rating }

    /** This run must still alert. */
    predicate Regressed() {
      || FirstRun()
      || newFindings != {}
      || newlyMeasured != {}
      || RatingWorsened()
      || current.eol
      || coverageLost != map[]
    }
  }

  // ----- a snapshot of one result document

  function NameOf(v: Vulnerability): string {
    if v.id != "" then v.id else if v.cve != "" then v.cve else if v.title != "" then v.title else "unknown"
  }

  function FailingChecks(checks: seq<ExtraCheck>): set<string> {
    set c | c in checks && !c.passed && !c.ignored :: c.id
  }

  function MeasuredIn(rows: seq<CoverageRow>): set<string> {
    set r | r in rows && r.id != "" && (r.state.Passed? || r.state.Failed?) :: r.id
  }

  function Reason(row: CoverageRow): string {
    if row.reason == "" then "unknown" else row.reason
  }

  /** The checks that ran and could not decide; a repeated row speaks last. */
  function InconclusiveIn(rows: seq<CoverageRow>): map<string, string> {
    if rows == [] then map[]
    else
      var front, last := InconclusiveIn(rows[..|rows| - 1]), rows[|rows| - 1];
      if last.id != "" && last.state.Inconclusive? then front[last.id := Reason(last)] else front
  }

  method CoverageStates(coverage: Option<seq<CoverageRow>>) returns (measured: Option<set<string>>, inconclusive: map<string, string>)
    ensures coverage.None? ==> measured == None && inconclusive == map[]
    ensures coverage.Some? ==> measured == Some(MeasuredIn(coverage.value)) && inconclusive == InconclusiveIn(coverage.value)
  {
    measured, inconclusive := None, map[];
    if coverage.Some? {
      var rows, ids := coverage.value, {};
      for i := 0 to |rows|
        invariant ids == MeasuredIn(rows[..i]) && inconclusive == InconclusiveIn(rows[..i])
      {
        assert rows[..i + 1] == rows[..i] + [rows[i]];
        var row := rows[i];
        if row.id == "" {
          continue;
        }
        if row.state.Passed? || row.state.Failed? {
          ids := ids + {row.id};
        } else if row.state.Inconclusive? {
          inconclusive := inconclusive[row.id := Reason(row)];
        }
      }
      assert rows[..|rows|] == rows;
      measured := Some(ids);
    }
  }

  /** The finding a listed check would be reported as, None for a group that reports none. */
  function FindingOf(check: string, group: string): Option<Finding> {
    if group == "hardening" || group == "header" then Some(Hardening(check))
    else if group == "extraCheck" then Some(Check(check))
    else None
  }

  function ConsideredFindings(d: Document): Option<set<Finding>> {
    match Considered(d)
    case None => None
    case Some(groups) => Some(set id | id in groups && FindingOf(id, groups[id]).Some? :: FindingOf(id, groups[id]).value)
  }

  function UpdateFinding(available: Option<string>): set<Finding> {
    if available.Some? then {Update(if available.value == "" then "unknown" else available.value)} else {}
  }

  function SnapshotOf(d: Document, missing: set<string>, waived: set<string>, actionable: string -> bool): Snapshot {
    var findings := (set v | v in d.vulnerabilities :: Vuln(NameOf(v)))
                    + (set name | name in missing && name !in waived && actionable(name) :: Hardening(name))
                    + (set id | id in FailingChecks(d.extraChecks) :: Check(id))
                    + UpdateFinding(d.ListedUpdate());
    Snapshot(if d.rating.Some? then d.rating.value else -1, d.eol, findings,
             if d.coverage.Some? then Some(MeasuredIn(d.coverage.value)) else None,
             if d.coverage.Some? then InconclusiveIn(d.coverage.value) else map[],
             ConsideredFindings(d))
  }

  method TakeSnapshot(d: Document, missing: set<string>, waived: set<string>, actionable: string -> bool) returns (s: Snapshot)
    ensures s == SnapshotOf(d, missing, waived, actionable)
  {
    var findings: set<Finding> := {};
    for i := 0 to |d.vulnerabilities|
      invariant findings == set v | v in d.vulnerabilities[..i] :: Vuln(NameOf(v))
    {
      assert d.vulnerabilities[..i + 1] == d.vulnerabilities[..i] + [d.vulnerabilities[i]];
      findings := findings + {Vuln(NameOf(d.vulnerabilities[i]))};
    }
    assert d.vulnerabilities[..|d.vulnerabilities|] == d.vulnerabilities;
    findings := findings + (set name | name in missing && name !in waived && actionable(name) :: Hardening(name));
    ghost var before := findings;
    for i := 0 to |d.extraChecks|
      invariant findings == before + set id | id in FailingChecks(d.extraChecks[..i]) :: Check(id)
    {
      FailingChecksNext(d.extraChecks, i);
      var entry := d.extraChecks[i];
      if entry.passed || entry.ignored {
        continue;
      }
      findings := findings + {Check(entry.id)};
    }
    assert d.extraChecks[..|d.extraChecks|] == d.extraChecks;
    if d.ListedUpdate().Some? {
      findings := findings + {Update(if d.ListedUpdate().value == "" then "unknown" else d.ListedUpdate().value)};
    }
    var measured, inconclusive := CoverageStates(d.coverage);
    return Snapshot(if d.rating.Some? then d.rating.value else -1, d.eol, findings, measured, inconclusive, ConsideredFindings(d));
  }

  lemma FailingChecksNext(checks: seq<ExtraCheck>, i: nat)
    requires i < |checks|
    ensures FailingChecks(checks[..i + 1])
            == FailingChecks(checks[..i]) + if checks[i].passed || checks[i].ignored then {} else {checks[i].id}
  {
    assert checks[..i + 1] == checks[..i] + [checks[i]];
  }

  // ----- what a snapshot holds, field by field

  /** The document reports the finding; measures are those handed in, less the waived and the unalertable. */
  ghost predicate Reports(d: Document, missing: set<string>, waived: set<string>, actionable: string -> bool, f: Finding) {
    match f
    case Vuln(x) => exists v | v in d.vulnerabilities ::
      || (v.id != "" && x == v.id)
      || (v.id == "" && v.cve != "" && x == v.cve)
      || (v.id == "" && v.cve == "" && v.title != "" && x == v.title)
      || (v.id == "" && v.cve == "" && v.title == "" && x == "unknown")
    case Hardening(name) => name in missing && name !in waived && actionable(name)
    case Check(id) => exists c | c in d.extraChecks :: c.id == id && !c.passed && !c.ignored
    case Update(u) => (u != "" && d.updates == Listed(Some(u))) || (u == "unknown" && d.updates == Listed(Some("")))
  }

  /** A snapshot holds exactly the findings the document reports: none is renamed, dropped or made up. */
  lemma FindingIsRecordedIff(d: Document, missing: set<string>, waived: set<string>, actionable: string -> bool, f: Finding)
    ensures f in SnapshotOf(d, missing, waived, actionable).findings <==> Reports(d, missing, waived, actionable, f)
  {
    match f
    case Vuln(x) =>
      assert Vuln(x) in (set v | v in d.vulnerabilities :: Vuln(NameOf(v))) <==> exists v | v in d.vulnerabilities :: NameOf(v) == x;
    case _ =>
  }

  /** The document says the check was decided. */
  ghost predicate Decided(d: Document, check: string) {
    check != "" && d.coverage.Some? && exists r | r in d.coverage.value :: r.id == check && (r.state == Passed || r.state == Failed)
  }

  /** The document says the check could not be decided, last for this reason. */
  ghost predicate Undecided(d: Document, check: string, reason: string) {
    check != "" && d.coverage.Some? && LastUndecided(d.coverage.value, check, reason)
  }

  ghost predicate LastUndecided(rows: seq<CoverageRow>, check: string, reason: string) {
    exists i: nat | i < |rows| ::
      && rows[i].id == check && rows[i].state == State.Inconclusive
      && (forall j | i < j < |rows| :: rows[j].id != check || rows[j].state != State.Inconclusive)
      && reason == if rows[i].reason != "" then rows[i].reason else "unknown"
  }

  lemma {:induction false} InconclusiveMeans(rows: seq<CoverageRow>, check: string, reason: string)
    requires check != ""
    ensures check in InconclusiveIn(rows) && InconclusiveIn(rows)[check] == reason <==> LastUndecided(rows, check, reason)
  {
    if rows == [] {
    } else {
      var front, last := rows[..|rows| - 1], rows[|rows| - 1];
      assert rows == front + [last];
      InconclusiveMeans(front, check, reason);
      UndecidedNext(front, last, check, reason);
    }
  }

  lemma UndecidedNext(front: seq<CoverageRow>, last: CoverageRow, check: string, reason: string)
    ensures LastUndecided(front + [last], check, reason)
            <==> if last.id == check && last.state == State.Inconclusive
                 then reason == (if last.reason != "" then last.reason else "unknown")
                 else LastUndecided(front, check, reason)
  {
    var rows := front + [last];
    assert rows[|front|] == last;
    if last.id == check && last.state == State.Inconclusive {
      if LastUndecided(rows, check, reason) {
        var i: nat :| i < |rows| && rows[i].id == check && rows[i].state == State.Inconclusive
                      && (forall j | i < j < |rows| :: rows[j].id != check || rows[j].state != State.Inconclusive)
                      && reason == if rows[i].reason != "" then rows[i].reason else "unknown";
        assert i == |front|;
      }
    } else {
      assert forall i: nat | i < |front| :: rows[i] == front[i];
    }
  }

  /** The row that counts for its check: the last with its identifier. */
  ghost predicate RowCounts(rows: seq<CoverageRow>, i: nat)
    requires i < |rows|
  {
    rows[i].id != "" && forall j | i < j < |rows| :: rows[j].id != rows[i].id
  }

  /** The row's group is one whose findings a baseline compares, and this is its finding. */
  predicate CouldBecome(row: CoverageRow, f: Finding) {
    || (f == Hardening(row.id) && (row.group == "hardening" || row.group == "header"))
    || (f == Check(row.id) && row.group == "extraCheck")
  }

  ghost predicate CouldReport(d: Document, f: Finding) {
    d.coverage.Some? && exists i: nat | i < |d.coverage.value| :: RowCounts(d.coverage.value, i) && CouldBecome(d.coverage.value[i], f)
  }

  lemma {:induction false} LastRowExists(rows: seq<CoverageRow>, id: string) returns (i: nat)
    requires Recorded(rows, id)
    ensures i < |rows| && rows[i].id == id && forall j | i < j < |rows| :: rows[j].id != id
  {
    i := |rows| - 1;
    if rows[i].id != id {
      i := LastRowExists(rows[..i], id);
    }
  }

  /** The rest of the snapshot: grade, end of life, what was decided, what was not and why, and what was looked at. */
  lemma SnapshotRecords(d: Document, missing: set<string>, waived: set<string>, actionable: string -> bool)
    ensures var s := SnapshotOf(d, missing, waived, actionable);
            && s.rating == (if d.rating.Some? then d.rating.value else -1)
            && s.eol == d.eol
            && (s.measured.Some? <==> d.coverage.Some?)
            && (s.measured.Some? ==> forall check :: check in s.measured.value <==> Decided(d, check))
            && (forall check, reason :: check in s.inconclusive && s.inconclusive[check] == reason <==> Undecided(d, check, reason))
            && (s.considered.Some? <==> d.coverage.Some? && d.coverage.value != [])
            && (s.considered.Some? ==> forall f :: f in s.considered.value <==> CouldReport(d, f))
  {
    var s := SnapshotOf(d, missing, waived, actionable);
    if d.coverage.Some? {
      var rows := d.coverage.value;
      forall check, reason
        ensures check in s.inconclusive && s.inconclusive[check] == reason <==> Undecided(d, check, reason)
      {
        if check == "" {
          NamelessIsNotKept(rows);
        } else {
          InconclusiveMeans(rows, check, reason);
        }
      }
      forall f
        ensures s.considered.Some? ==> (f in s.considered.value <==> CouldReport(d, f))
      {
        if rows != [] {
          ConsideredMeans(d, f);
        }
      }
    }
  }

  lemma {:induction false} NamelessIsNotKept(rows: seq<CoverageRow>)
    ensures "" !in InconclusiveIn(rows)
  {
    if rows == [] {
    } else {
      NamelessIsNotKept(rows[..|rows| - 1]);
    }
  }

  lemma ConsideredMeans(d: Document, f: Finding)
    requires d.coverage.Some? && d.coverage.value != []
    ensures ConsideredFindings(d).Some? && (f in ConsideredFindings(d).value <==> CouldReport(d, f))
  {
    var rows := d.coverage.value;
    var groups := GroupsOf(rows);
    hide GroupsOf;
    forall i: nat | i < |rows| && RowCounts(rows, i)
      ensures rows[i].id in groups && groups[rows[i].id] == rows[i].group
    {
      LastRowGivesTheGroup(rows, i);
    }
    forall i: nat | i < |rows|
      ensures FindingOf(rows[i].id, rows[i].group) == Some(f) <==> CouldBecome(rows[i], f)
    {
    }
    hide FindingOf, CouldBecome;
    if id :| id in groups && FindingOf(id, groups[id]) == Some(f) {
      var i := LastRowExists(rows, id);
      assert RowCounts(rows, i);
    }
    hide RowCounts;
    if CouldReport(d, f) {
      var i: nat :| i < |rows| && RowCounts(rows, i) && CouldBecome(rows[i], f);
      assert FindingOf(rows[i].id, groups[rows[i].id]) == Some(f);
    }
  }

  // ----- the comparison

  /** Of `only`, what the side holding it checked and the other did not. */
  function OneSided(only: set<Finding>, here: Option<set<Finding>>, there: Option<set<Finding>>): set<Finding> {
    if here.Some? && there.Some? then set f | f in only && f in here.value && f !in there.value else {}
  }

  function Lost(previous: Snapshot, current: Snapshot): map<string, string> {
    if previous.measured.Some? && current.measured.Some?
    then map c | c in current.inconclusive && c in previous.measured.value :: current.inconclusive[c]
    else map[]
  }

  function Compare(previous: Option<Snapshot>, current: Snapshot): Comparison {
    match previous
    case None => Comparison(None, current, {}, {}, {}, {}, map[])
    case Some(p) =>
      var before, now := p.findings, current.findings;
      var newly := OneSided(now - before, current.considered, p.considered);
      var dropped := OneSided(before - now, p.considered, current.considered);
      var lost := Lost(p, current);
      var carried := if lost == map[] then current
                     else current.(measured := Some(current.measured.value + lost.Keys));
      Comparison(previous, carried, now - before - newly, before - now - dropped, newly, dropped, lost)
  }

  /** The stored state of every host in one baseline file. */
  class Store {
    var hosts: map<string, Snapshot>

    constructor ()
      ensures hosts == map[]
    {
      hosts := map[];
    }

    function Stored(host: string): Option<Snapshot>
      reads this
    {
      if host in hosts then Some(hosts[host]) else None
    }

    /** Compare and record, one atomic step under the baseline lock. */
    method CompareAndRecord(host: string, current: Snapshot) returns (c: Comparison)
      modifies this
      ensures host in old(hosts) ==> c == Compare(Some(old(hosts)[host]), current)
      ensures host !in old(hosts) ==> c == Compare(None, current)
      ensures hosts == old(hosts)[host := c.current]
    {
      c := Compare(Stored(host), current);
      hosts := hosts[host := c.current];
    }
  }

  // ----- one comparison: conservation and duality

  lemma ComparisonConserves(previous: Snapshot, current: Snapshot)
    ensures var c := Compare(Some(previous), current);
            && c.newFindings !! c.newlyMeasured && c.newFindings + c.newlyMeasured == current.findings - previous.findings
            && c.resolved !! c.noLongerMeasured && c.resolved + c.noLongerMeasured == previous.findings - current.findings
            && (previous.findings - c.resolved - c.noLongerMeasured) + c.newFindings + c.newlyMeasured == current.findings
  {
  }

  /** Reading the comparison the other way round swaps what appeared with what went away. */
  lemma ComparisonIsDual(a: Snapshot, b: Snapshot)
    ensures var forward, back := Compare(Some(a), b), Compare(Some(b), a);
            && back.newFindings == forward.resolved && back.resolved == forward.newFindings
            && back.newlyMeasured == forward.noLongerMeasured && back.noLongerMeasured == forward.newlyMeasured
  {
  }

  /**
   Waiving measures on an unchanged instance is never news: nothing appears, and
   what goes away is exactly what was waived and alerted before. Lifting the
   waivers brings exactly that back as news.
   */
  lemma WaivingIsNeverNews(d: Document, missing: set<string>, waived: set<string>, more: set<string>, actionable: string -> bool)
    requires waived <= more
    ensures var alerted, quieter := SnapshotOf(d, missing, waived, actionable), SnapshotOf(d, missing, more, actionable);
            var gone := set name | name in missing && name in more - waived && actionable(name) :: Hardening(name);
            && Compare(Some(alerted), quieter).newFindings == Compare(Some(alerted), quieter).newlyMeasured == {}
            && Compare(Some(alerted), quieter).resolved == gone && Compare(Some(alerted), quieter).noLongerMeasured == {}
            && Compare(Some(quieter), alerted).newFindings == gone && Compare(Some(quieter), alerted).resolved == {}
  {
    var alerted, quieter := SnapshotOf(d, missing, waived, actionable), SnapshotOf(d, missing, more, actionable);
    var gone := set name | name in missing && name in more - waived && actionable(name) :: Hardening(name);
    WaivedFindings(d, missing, waived, more, actionable);
    assert alerted.considered == quieter.considered;
    hide SnapshotOf;
    assert quieter.findings - alerted.findings == {};
  }

  lemma WaivedFindings(d: Document, missing: set<string>, waived: set<string>, more: set<string>, actionable: string -> bool)
    requires waived <= more
    ensures var alerted, quieter := SnapshotOf(d, missing, waived, actionable), SnapshotOf(d, missing, more, actionable);
            && quieter.findings <= alerted.findings
            && alerted.findings - quieter.findings
               == set name | name in missing && name in more - waived && actionable(name) :: Hardening(name)
  {
    hide FailingChecks, ConsideredFindings, MeasuredIn, InconclusiveIn, NameOf;
  }

  /** What either side considered only changes the words: whether a run alerts does not depend on it. */
  lemma ConsideredNeverDecidesAlert(previous: Snapshot, current: Snapshot)
    ensures Compare(Some(previous), current).Regressed()
            <==> Compare(Some(previous.(considered := None)), current.(considered := None)).Regressed()
    ensures Compare(Some(previous), current).Regressed()
            <==> !(current.findings <= previous.findings) || current.rating < previous.rating || current.eol
                 || Lost(previous, current) != map[]
  {
    ComparisonConserves(previous, current);
    var c := Compare(Some(previous), current);
    assert c.newFindings == {} && c.newlyMeasured == {} <==> current.findings - previous.findings == {};
    var p, n := previous.(considered := None), current.(considered := None);
    ComparisonConserves(p, n);
    var e := Compare(Some(p), n);
    assert e.newFindings == {} && e.newlyMeasured == {} <==> n.findings - p.findings == {};
    assert Lost(p, n) == Lost(previous, current);
  }

  /** Told apart finding by finding: what is new was looked at before or cannot be said not to have been. */
  lemma ComparedFindingByFinding(previous: Snapshot, current: Snapshot, f: Finding)
    ensures var c := Compare(Some(previous), current);
            var appeared, gone := f in current.findings && f !in previous.findings, f in previous.findings && f !in current.findings;
            var bothList := previous.considered.Some? && current.considered.Some?;
            var onlyNow := bothList && f in current.considered.value && f !in previous.considered.value;
            var onlyThen := bothList && f in previous.considered.value && f !in current.considered.value;
            && (f in c.newFindings <==> appeared && !onlyNow) && (f in c.newlyMeasured <==> appeared && onlyNow)
            && (f in c.resolved <==> gone && !onlyThen) && (f in c.noLongerMeasured <==> gone && onlyThen)
  {
  }

  /** A check is lost with its reason exactly when the stored run had measured it and this one, listing its checks, could not decide. */
  lemma LostMeans(previous: Snapshot, current: Snapshot, check: string, reason: string)
    ensures var lost := Compare(Some(previous), current).coverageLost;
            check in lost && lost[check] == reason
            <==> && MeasuredBy(previous, check) && current.measured.Some?
                 && check in current.inconclusive && current.inconclusive[check] == reason
  {
  }

  /** What is stored is what was seen, the checks lost track of kept among the measured. */
  lemma StoredIsWhatWasSeen(previous: Option<Snapshot>, current: Snapshot)
    ensures var stored := Compare(previous, current).current;
            && stored == current.(measured := stored.measured)
            && (previous.None? ==> stored == current)
            && (stored.measured.Some? <==> current.measured.Some?)
  {
  }

  /** The run must alert, said of the two snapshots alone. */
  lemma RegressedIff(previous: Option<Snapshot>, current: Snapshot)
    ensures Compare(previous, current).Regressed()
            <==> || previous.None? || current.eol || current.rating < previous.value.rating
                 || (exists f :: f in current.findings && f !in previous.value.findings)
                 || (exists check :: MeasuredBy(previous.value, check) && current.measured.Some? && check in current.inconclusive)
  {
    if previous.Some? {
      ConsideredNeverDecidesAlert(previous.value, current);
      var lost := Lost(previous.value, current);
      forall check
        ensures check in lost <==> MeasuredBy(previous.value, check) && current.measured.Some? && check in current.inconclusive
      {
      }
      assert lost != map[] ==> exists check :: check in lost;
      hide Compare, Lost, MeasuredBy;
    }
  }

  /** A newly listed update is news, whatever was listed before. */
  lemma NewUpdateIsNews(d: Document, missing: set<string>, waived: set<string>, actionable: string -> bool, previous: Snapshot, u: string)
    requires d.updates == Listed(Some(u)) && u != "" && Update(u) !in previous.findings
    ensures Compare(Some(previous), SnapshotOf(d, missing, waived, actionable)).Regressed()
  {
    FindingIsRecordedIff(d, missing, waived, actionable, Update(u));
    hide SnapshotOf, Compare;
    RegressedIff(Some(previous), SnapshotOf(d, missing, waived, actionable));
  }

  // ----- whole histories of one host

  /** What is stored after these runs, each of which compared and recorded. */
  function StoredAfter(initial: Option<Snapshot>, runs: seq<Snapshot>): Option<Snapshot> {
    if runs == [] then initial
    else Some(Compare(StoredAfter(initial, runs[..|runs| - 1]), runs[|runs| - 1]).current)
  }

  /** The comparison the k-th run made. */
  function ComparisonAt(initial: Option<Snapshot>, runs: seq<Snapshot>, k: nat): Comparison
    requires k < |runs|
  {
    Compare(StoredAfter(initial, runs[..k]), runs[k])
  }

  lemma StoredNext(initial: Option<Snapshot>, runs: seq<Snapshot>, k: nat)
    requires k < |runs|
    ensures StoredAfter(initial, runs[..k + 1]) == Some(ComparisonAt(initial, runs, k).current)
  {
    assert runs[..k + 1][..k] == runs[..k];
  }

  ghost predicate MeasuredBy(s: Snapshot, check: string) {
    s.measured.Some? && check in s.measured.value
  }

  /** The run has a coverage block and lists the check as measured or as inconclusive. */
  ghost predicate KeepsTrack(s: Snapshot, check: string) {
    s.measured.Some? && (check in s.measured.value || check in s.inconclusive)
  }

  ghost predicate TrackedFrom(runs: seq<Snapshot>, check: string, from: nat, to: nat) {
    to <= |runs| && forall i | from <= i < to :: KeepsTrack(runs[i], check)
  }

  /** Some run measured the check, and every run since kept track of it. */
  ghost predicate KnownMeasurable(initial: Option<Snapshot>, runs: seq<Snapshot>, check: string) {
    || (exists j | 0 <= j < |runs| :: MeasuredBy(runs[j], check) && TrackedFrom(runs, check, j + 1, |runs|))
    || (initial.Some? && MeasuredBy(initial.value, check) && TrackedFrom(runs, check, 0, |runs|))
  }

  lemma NextKeepsTrack(previous: Option<Snapshot>, current: Snapshot, check: string)
    ensures MeasuredBy(Compare(previous, current).current, check)
            <==> MeasuredBy(current, check)
                 || (previous.Some? && MeasuredBy(previous.value, check) && KeepsTrack(current, check))
  {
    if previous.Some? {
      var lost := Lost(previous.value, current);
      assert check in lost ==> lost != map[];
    }
  }

  /**
   The stored `measured` field over a whole history: a check is in it after the
   last run iff some run measured it and every later run measured it or found it
   inconclusive. A run without a coverage block, or one that skipped the check,
   ends the memory.
   */
  lemma {:induction false} MeasuredOverHistory(initial: Option<Snapshot>, runs: seq<Snapshot>, check: string)
    ensures (StoredAfter(initial, runs).Some? && MeasuredBy(StoredAfter(initial, runs).value, check))
            <==> KnownMeasurable(initial, runs, check)
    decreases |runs|
  {
    if runs == [] {
      assert TrackedFrom(runs, check, 0, 0);
    } else {
      var n := |runs| - 1;
      var front, last := runs[..n], runs[n];
      MeasuredOverHistory(initial, front, check);
      NextKeepsTrack(StoredAfter(initial, front), last, check);
      if MeasuredBy(last, check) {
        assert TrackedFrom(runs, check, n + 1, |runs|);
      }
      if KnownMeasurable(initial, front, check) && KeepsTrack(last, check) {
        if j :| 0 <= j < n && MeasuredBy(front[j], check) && TrackedFrom(front, check, j + 1, n) {
          forall i | j + 1 <= i < |runs|
            ensures KeepsTrack(runs[i], check)
          {
            assert i < n ==> KeepsTrack(front[i], check);
          }
          assert TrackedFrom(runs, check, j + 1, |runs|);
        } else {
          forall i | 0 <= i < |runs|
            ensures KeepsTrack(runs[i], check)
          {
            assert i < n ==> KeepsTrack(front[i], check);
          }
          assert TrackedFrom(runs, check, 0, |runs|);
        }
      }
      if KnownMeasurable(initial, runs, check) && !MeasuredBy(last, check) {
        assert KeepsTrack(last, check);
        if j :| 0 <= j < |runs| && MeasuredBy(runs[j], check) && TrackedFrom(runs, check, j + 1, |runs|) {
          assert MeasuredBy(front[j], check) && TrackedFrom(front, check, j + 1, n);
        } else {
          assert TrackedFrom(front, check, 0, n);
        }
      }
    }
  }

  /**
   A lost check is reported in every inconclusive run until it is measured
   again, not only the first: run k reports it iff k found it inconclusive and it
   was known to be measurable on this host.
   */
  lemma LossReportedEveryRun(initial: Option<Snapshot>, runs: seq<Snapshot>, k: nat, check: string)
    requires k < |runs|
    ensures check in ComparisonAt(initial, runs, k).coverageLost
            <==> runs[k].measured.Some? && check in runs[k].inconclusive && KnownMeasurable(initial, runs[..k], check)
  {
    MeasuredOverHistory(initial, runs[..k], check);
  }

  /**
   One run that skips a check ends the memory of it: measured, then skipped, then
   inconclusive reports no loss, where measured and then inconclusive does.
   */
  lemma SkippedRunEndsTheMemory() returns (runs: seq<Snapshot>)
    ensures |runs| == 3 && runs[0] == Snapshot(5, false, {}, Some({"dnssec"}), map[], None)
    ensures runs[1] == Snapshot(5, false, {}, Some({}), map[], None)
    ensures runs[2] == Snapshot(5, false, {}, Some({}), map["dnssec" := "timeout"], None)
    ensures "dnssec" !in ComparisonAt(None, runs, 2).coverageLost
    ensures "dnssec" in ComparisonAt(None, [runs[0], runs[2]], 1).coverageLost
  {
    runs := [Snapshot(5, false, {}, Some({"dnssec"}), map[], None), Snapshot(5, false, {}, Some({}), map[], None),
             Snapshot(5, false, {}, Some({}), map["dnssec" := "timeout"], None)];
    var short := [runs[0], runs[2]];
    hide ComparisonAt, Compare, StoredAfter;
    LossReportedEveryRun(None, runs, 2, "dnssec");
    LossReportedEveryRun(None, short, 1, "dnssec");
    assert !KeepsTrack(runs[..2][1], "dnssec");
    assert MeasuredBy(short[..1][0], "dnssec") && TrackedFrom(short[..1], "dnssec", 1, 1);
  }

  // ----- silence

  /** Run `k` gave no reason to alert. */
  ghost predicate Quiet(initial: Option<Snapshot>, runs: seq<Snapshot>, k: nat)
    requires k < |runs|
  {
    !ComparisonAt(initial, runs, k).Regressed()
  }

  ghost predicate QuietSince(initial: Option<Snapshot>, runs: seq<Snapshot>, j: nat, k: nat)
    requires k < |runs|
  {
    forall i: nat | j < i <= k :: Quiet(initial, runs, i)
  }

  /** One quiet run: nothing new, no worse grade, supported, nothing lost sight of. */
  lemma QuietRun(initial: Option<Snapshot>, runs: seq<Snapshot>, k: nat)
    requires 0 < k < |runs| && Quiet(initial, runs, k)
    ensures runs[k].findings <= runs[k - 1].findings && runs[k].rating >= runs[k - 1].rating
    ensures !runs[k].eol && ComparisonAt(initial, runs, k).coverageLost == map[]
  {
    assert runs[..k] == runs[..k - 1 + 1];
    StoredNext(initial, runs, k - 1);
    var stored := StoredAfter(initial, runs[..k]).value;
    assert stored.findings == runs[k - 1].findings && stored.rating == runs[k - 1].rating;
    ConsideredNeverDecidesAlert(stored, runs[k]);
  }

  lemma {:induction false} QuietRunsOnlyImprove(initial: Option<Snapshot>, runs: seq<Snapshot>, j: nat, k: nat)
    requires j <= k < |runs| && QuietSince(initial, runs, j, k)
    ensures runs[k].findings <= runs[j].findings && runs[k].rating >= runs[j].rating
    decreases k - j
  {
    if j < k {
      assert QuietSince(initial, runs, j, k - 1);
      QuietRunsOnlyImprove(initial, runs, j, k - 1);
      QuietRun(initial, runs, k);
    }
  }

  lemma {:induction false} LastLoudRun(runs: seq<Snapshot>, k: nat) returns (j: nat)
    requires k < |runs|
    ensures j <= k && !Quiet(None, runs, j) && QuietSince(None, runs, j, k)
    decreases k
  {
    if !Quiet(None, runs, k) {
      j := k;
    } else {
      assert k > 0;
      j := LastLoudRun(runs, k - 1);
    }
  }

  /**
   Silence never hides anything unannounced: behind every quiet run of a
   recorded history there is an earlier one that could not be suppressed, and
   since then findings have only gone away and the grade has not dropped. The
   quiet run itself is on a supported release and lost sight of nothing.
   */
  lemma SilenceHidesNothing(runs: seq<Snapshot>, k: nat) returns (j: nat)
    requires k < |runs| && Quiet(None, runs, k)
    ensures j < k && !Quiet(None, runs, j) && QuietSince(None, runs, j, k)
    ensures forall i: nat | j <= i <= k :: runs[k].findings <= runs[i].findings <= runs[j].findings
    ensures forall i: nat | j <= i <= k :: runs[j].rating <= runs[i].rating <= runs[k].rating
    ensures !runs[k].eol && ComparisonAt(None, runs, k).coverageLost == map[]
  {
    j := LastLoudRun(runs, k);
    QuietRun(None, runs, k);
    forall i: nat | j <= i <= k
      ensures runs[k].findings <= runs[i].findings <= runs[j].findings
      ensures runs[j].rating <= runs[i].rating <= runs[k].rating
    {
      assert QuietSince(None, runs, j, i) && QuietSince(None, runs, i, k);
      QuietRunsOnlyImprove(None, runs, j, i);
      QuietRunsOnlyImprove(None, runs, i, k);
    }
  }

  // ----- many hosts in one file

  /** The store after a log of runs of any hosts. */
  function HostsAfter(log: seq<(string, Snapshot)>): map<string, Snapshot> {
    if log == [] then map[]
    else
      var hosts, (host, current) := HostsAfter(log[..|log| - 1]), log[|log| - 1];
      hosts[host := Compare(if host in hosts then Some(hosts[host]) else None, current).current]
  }

  function RunsOf(log: seq<(string, Snapshot)>, host: string): seq<Snapshot> {
    if log == [] then []
    else RunsOf(log[..|log| - 1], host) + (if log[|log| - 1].0 == host then [log[|log| - 1].1] else [])
  }

  /** Hosts sharing a baseline file never see one another: each is stored as if it ran alone. */
  lemma {:induction false} HostsAreIndependent(log: seq<(string, Snapshot)>, host: string)
    ensures (if host in HostsAfter(log) then Some(HostsAfter(log)[host]) else None) == StoredAfter(None, RunsOf(log, host))
    decreases |log|
  {
    if log == [] {
    } else {
      var front, last := log[..|log| - 1], log[|log| - 1];
      HostsAreIndependent(front, host);
      var runs := RunsOf(front, host);
      if last.0 == host {
        assert (runs + [last.1])[..|runs|] == runs;
      } else {
        assert runs + [] == runs;
      }
    }
  }
}
