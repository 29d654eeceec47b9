/**
 The second, independent comparison of two scans: the explanation of why two
 results differ. It reads the documents directly where the baseline reads
 stored snapshots; the lemmas at the end say when the two tell the same story.
 */
module Changes {
  import opened Wrappers
  import opened Documents
  import opened Coverage
  import opened Baseline

  datatype Change =
    | FindingsAppeared(checks: set<string>)
    | FindingsResolved(checks: set<string>)
    | ChecksNewlyMeasured(checks: set<string>, failing: set<string>)
    | ChecksNoLongerMeasured(checks: set<string>, failing: set<string>)
    | CoverageRegressed(lost: map<string, string>)

  /** The checks only the later scan considered, and those only the earlier did. */
  function OneSidedChecks(previous: Document, current: Document): (set<string>, set<string>) {
    match (Considered(previous), Considered(current))
    case (Some(before), Some(after)) => (after.Keys - before.Keys, before.Keys - after.Keys)
    case _ => ({}, {})
  }

  function Appeared(previous: Document, current: Document): set<string> {
    FailingChecks(current.extraChecks) - FailingChecks(previous.extraChecks) - OneSidedChecks(previous, current).0
  }

  function Resolved(previous: Document, current: Document): set<string> {
    FailingChecks(previous.extraChecks) - FailingChecks(current.extraChecks) - OneSidedChecks(previous, current).1
  }

  // ----- what a change says, check by check

  /** The document shows the check failing, and not waived. */
  predicate Fails(d: Document, id: string) {
    exists c | c in d.extraChecks :: c.id == id && !c.passed && !c.ignored
  }

  predicate Lists(d: Document, id: string) {
    id != "" && d.coverage.Some? && Recorded(d.coverage.value, id)
  }

  /** Both documents list their checks, and only `d` lists this one. */
  predicate OnlyListedBy(d: Document, other: Document, id: string) {
    && d.coverage.Some? && d.coverage.value != [] && other.coverage.Some? && other.coverage.value != []
    && Lists(d, id) && !Lists(other, id)
  }

  /** Failing in `later`, not in `earlier`, and not because only `later` looked. */
  predicate StartedFailing(earlier: Document, later: Document, id: string) {
    Fails(later, id) && !Fails(earlier, id) && !OnlyListedBy(later, earlier, id)
  }

  lemma OneSidedMeans(previous: Document, current: Document)
    ensures forall id :: id in OneSidedChecks(previous, current).0 <==> OnlyListedBy(current, previous, id)
    ensures forall id :: id in OneSidedChecks(previous, current).1 <==> OnlyListedBy(previous, current, id)
    ensures OneSidedChecks(current, previous) == (OneSidedChecks(previous, current).1, OneSidedChecks(previous, current).0)
  {
  }

  lemma AppearedMeans(previous: Document, current: Document)
    ensures forall id :: id in Appeared(previous, current) <==> StartedFailing(previous, current, id)
    ensures forall id :: id in Resolved(previous, current) <==> StartedFailing(current, previous, id)
  {
    OneSidedMeans(previous, current);
    hide OneSidedChecks, OnlyListedBy;
  }

  /** What a change can say of a check. */
  datatype Claim = Started | Stopped | NewlyMade | NewlyFailing | NoLongerMade | NoLongerFailing | LostFor(reason: string)

  predicate Claims(ch: Change, claim: Claim, id: string) {
    match claim
    case Started => ch.FindingsAppeared? && id in ch.checks
    case Stopped => ch.FindingsResolved? && id in ch.checks
    case NewlyMade => ch.ChecksNewlyMeasured? && id in ch.checks
    case NewlyFailing => ch.ChecksNewlyMeasured? && id in ch.failing
    case NoLongerMade => ch.ChecksNoLongerMeasured? && id in ch.checks
    case NoLongerFailing => ch.ChecksNoLongerMeasured? && id in ch.failing
    case LostFor(reason) => ch.CoverageRegressed? && id in ch.lost && ch.lost[id] == reason
  }

  predicate Says(changes: seq<Change>, claim: Claim, id: string) {
    exists i | 0 <= i < |changes| :: Claims(changes[i], claim, id)
  }

  lemma SaysAlso(changes: seq<Change>, ch: Change, claim: Claim, id: string)
    ensures Says(changes + [ch], claim, id) <==> Says(changes, claim, id) || Claims(ch, claim, id)
  {
    hide Claims;
    var all := changes + [ch];
    if i :| 0 <= i < |changes| && Claims(changes[i], claim, id) {
      assert Claims(all[i], claim, id);
    }
    assert all[|changes|] == ch;
  }

  function Place(ch: Change): nat {
    match ch
    case FindingsAppeared(_) => 0
    case FindingsResolved(_) => 1
    case ChecksNewlyMeasured(_, _) => 2
    case ChecksNoLongerMeasured(_, _) => 3
    case CoverageRegressed(_) => 4
  }

  predicate NamesSomething(ch: Change) {
    match ch
    case FindingsAppeared(checks) => checks != {}
    case FindingsResolved(checks) => checks != {}
    case ChecksNewlyMeasured(checks, _) => checks != {}
    case ChecksNoLongerMeasured(checks, _) => checks != {}
    case CoverageRegressed(lost) => lost != map[]
  }

  /** At most one change of each kind from `first` on, in the order of kinds, and none that names nothing. */
  predicate OneEach(changes: seq<Change>, first: int, last: int) {
    && (forall i | 0 <= i < |changes| :: first <= Place(changes[i]) <= last && NamesSomething(changes[i]))
    && (forall i, j | 0 <= i < j < |changes| :: Place(changes[i]) < Place(changes[j]))
  }

  /** A change is reported when it names anything. */
  method Report(changes: seq<Change>, ch: Change, present: bool, ghost first: nat) returns (all: seq<Change>)
    requires if present then NamesSomething(ch) else forall claim, id :: !Claims(ch, claim, id)
    requires first <= Place(ch) && OneEach(changes, first, Place(ch) - 1)
    ensures forall claim, id :: Says(all, claim, id) <==> Says(changes, claim, id) || Claims(ch, claim, id)
    ensures OneEach(all, first, Place(ch))
  {
    all := if present then changes + [ch] else changes;
    hide Claims;
    forall claim, id
      ensures Says(changes + [ch], claim, id) <==> Says(changes, claim, id) || Claims(ch, claim, id)
    {
      SaysAlso(changes, ch, claim, id);
    }
  }

  /** Checks that started and stopped failing on the instance, told from the rows of the two documents. */
  method InstanceChanges(previous: Document, current: Document) returns (changes: seq<Change>)
    ensures OneEach(changes, 0, 1)
    ensures forall id :: Says(changes, Started, id) <==> StartedFailing(previous, current, id)
    ensures forall id :: Says(changes, Stopped, id) <==> StartedFailing(current, previous, id)
  {
    var (onlyAfter, onlyBefore) := OneSidedChecks(previous, current);
    var appeared := FailingChecks(current.extraChecks) - FailingChecks(previous.extraChecks) - onlyAfter;
    var resolved := FailingChecks(previous.extraChecks) - FailingChecks(current.extraChecks) - onlyBefore;
    AppearedMeans(previous, current);
    assert appeared == Appeared(previous, current) && resolved == Resolved(previous, current);
    hide StartedFailing, Appeared, Resolved, FailingChecks, OneSidedChecks, Says, OneEach;
    NothingSaid(0);
    changes := Report([], FindingsAppeared(appeared), appeared != {}, 0);
    changes := Report(changes, FindingsResolved(resolved), resolved != {}, 0);
  }

  lemma NothingSaid(first: nat)
    ensures forall claim, id :: !Says([], claim, id)
    ensures OneEach([], first, first - 1) && OneEach([], first, 4)
  {
  }

  /** An absent identifier is spelled out when it is turned into text. */
  function ShownId(row: CoverageRow): string {
    if row.id == "" then "None" else row.id
  }

  function MeasuredRows(rows: seq<CoverageRow>): set<string> {
    set r | r in rows && (r.state.Passed? || r.state.Failed?) :: ShownId(r)
  }

  /** Checks measured in `before` and inconclusive in `after`, with the reason; a repeated row speaks last. */
  function LostBetween(before: seq<CoverageRow>, after: seq<CoverageRow>): map<string, string> {
    if after == [] then map[]
    else
      var front, last := LostBetween(before, after[..|after| - 1]), after[|after| - 1];
      if last.state.Inconclusive? && ShownId(last) in MeasuredRows(before) then front[ShownId(last) := Reason(last)] else front
  }

  /** The undecided rows as they are shown, the last of each speaking. */
  function UndecidedShown(rows: seq<CoverageRow>): map<string, string> {
    if rows == [] then map[]
    else
      var front, last := UndecidedShown(rows[..|rows| - 1]), rows[|rows| - 1];
      if last.state.Inconclusive? then front[ShownId(last) := Reason(last)] else front
  }

  lemma {:induction false} LostIsUndecided(before: seq<CoverageRow>, after: seq<CoverageRow>)
    ensures LostBetween(before, after)
            == map id | id in UndecidedShown(after) && id in MeasuredRows(before) :: UndecidedShown(after)[id]
    decreases |after|
  {
    hide MeasuredRows;
    if after == [] {
    } else {
      LostIsUndecided(before, after[..|after| - 1]);
    }
  }

  /** `i` is the last undecided row shown under its name. */
  predicate SpeaksLast(rows: seq<CoverageRow>, i: nat)
    requires i < |rows|
  {
    rows[i].state.Inconclusive? && forall j | i < j < |rows| && rows[j].state.Inconclusive? :: ShownId(rows[j]) != ShownId(rows[i])
  }

  lemma SpeaksAfter(front: seq<CoverageRow>, last: CoverageRow)
    ensures SpeaksLast(front + [last], |front|) <==> last.state.Inconclusive?
    ensures forall i: nat | i < |front| :: SpeaksLast(front + [last], i)
              <==> SpeaksLast(front, i) && !(last.state.Inconclusive? && ShownId(last) == ShownId(front[i]))
  {
    hide ShownId;
    var rows := front + [last];
    forall i: nat | i < |front|
      ensures SpeaksLast(rows, i) <==> SpeaksLast(front, i) && !(last.state.Inconclusive? && ShownId(last) == ShownId(front[i]))
    {
      assert forall j | i < j < |front| :: rows[j] == front[j];
      assert rows[|front|] == last;
    }
  }

  lemma {:induction false} UndecidedMeans(rows: seq<CoverageRow>, id: string, reason: string)
    ensures id in UndecidedShown(rows) && UndecidedShown(rows)[id] == reason
            <==> exists i: nat | i < |rows| :: SpeaksLast(rows, i) && ShownId(rows[i]) == id && Reason(rows[i]) == reason
    decreases |rows|
  {
    if rows == [] {
    } else {
      hide ShownId, Reason, SpeaksLast;
      var front, last := rows[..|rows| - 1], rows[|rows| - 1];
      assert rows == front + [last];
      UndecidedMeans(front, id, reason);
      SpeaksAfter(front, last);
      if i: nat :| i < |front| && SpeaksLast(front, i) && ShownId(front[i]) == id && Reason(front[i]) == reason {
        assert rows[i] == front[i];
      }
    }
  }

  /** The check was measured in `previous`, and the last row of `current` that could not decide it gives this reason. */
  ghost predicate LostWith(previous: Document, current: Document, id: string, reason: string) {
    && previous.coverage.Some? && current.coverage.Some? && id in MeasuredRows(previous.coverage.value)
    && exists i: nat | i < |current.coverage.value| ::
         SpeaksLast(current.coverage.value, i) && ShownId(current.coverage.value[i]) == id
         && Reason(current.coverage.value[i]) == reason
  }

  lemma LostMeans(previous: Document, current: Document, id: string, reason: string)
    requires previous.coverage.Some? && current.coverage.Some?
    ensures var lost := LostBetween(previous.coverage.value, current.coverage.value);
            id in lost && lost[id] == reason <==> LostWith(previous, current, id, reason)
  {
    hide MeasuredRows, SpeaksLast, LostBetween, UndecidedShown;
    LostIsUndecided(previous.coverage.value, current.coverage.value);
    UndecidedMeans(current.coverage.value, id, reason);
  }

  method ReportScanner(after: set<string>, failingNow: set<string>, before: set<string>, failingBefore: set<string>, lost: map<string, string>)
      returns (changes: seq<Change>)
    requires failingNow <= after && failingBefore <= before
    ensures OneEach(changes, 2, 4)
    ensures forall id :: Says(changes, NewlyMade, id) <==> id in after
    ensures forall id :: Says(changes, NewlyFailing, id) <==> id in failingNow
    ensures forall id :: Says(changes, NoLongerMade, id) <==> id in before
    ensures forall id :: Says(changes, NoLongerFailing, id) <==> id in failingBefore
    ensures forall id, reason :: Says(changes, LostFor(reason), id) <==> id in lost && lost[id] == reason
  {
    hide Says, OneEach;
    NothingSaid(2);
    changes := Report([], ChecksNewlyMeasured(after, failingNow), after != {}, 2);
    changes := Report(changes, ChecksNoLongerMeasured(before, failingBefore), before != {}, 2);
    changes := Report(changes, CoverageRegressed(lost), lost != map[], 2);
  }

  /** Checks only one scan made, those failing there, and lost measurements, told from the rows of the two documents. */
  method ScannerChanges(previous: Document, current: Document) returns (changes: seq<Change>)
    ensures OneEach(changes, 2, 4)
    ensures forall id :: Says(changes, NewlyMade, id) <==> OnlyListedBy(current, previous, id)
    ensures forall id :: Says(changes, NewlyFailing, id) <==> OnlyListedBy(current, previous, id) && Fails(current, id)
    ensures forall id :: Says(changes, NoLongerMade, id) <==> OnlyListedBy(previous, current, id)
    ensures forall id :: Says(changes, NoLongerFailing, id) <==> OnlyListedBy(previous, current, id) && Fails(previous, id)
    ensures forall id, reason :: Says(changes, LostFor(reason), id) <==> LostWith(previous, current, id, reason)
  {
    if previous.coverage.None? || current.coverage.None? {
      NothingSaid(2);
      return [];
    }
    var (onlyAfter, onlyBefore) := OneSidedChecks(previous, current);
    OneSidedMeans(previous, current);
    FailingMeans(previous);
    FailingMeans(current);
    hide OneSidedChecks, OnlyListedBy, FailingChecks, Fails, LostBetween, LostWith, Says, OneEach;
    var lost := LostBetween(previous.coverage.value, current.coverage.value);
    changes := ReportScanner(onlyAfter, onlyAfter * FailingChecks(current.extraChecks),
                             onlyBefore, onlyBefore * FailingChecks(previous.extraChecks), lost);
    forall id, reason
      ensures Says(changes, LostFor(reason), id) <==> LostWith(previous, current, id, reason)
    {
      LostMeans(previous, current, id, reason);
    }
  }

  lemma FailingMeans(d: Document)
    ensures forall id :: id in FailingChecks(d.extraChecks) <==> Fails(d, id)
  {
  }

  /** A check that fails now and did not before is put down to the instance or to the scanner, never to both. */
  lemma NewFailureIsAttributedOnce(previous: Document, current: Document, instance: seq<Change>, scanner: seq<Change>, id: string)
    requires forall id :: Says(instance, Started, id) <==> StartedFailing(previous, current, id)
    requires forall id :: Says(scanner, NewlyFailing, id) <==> OnlyListedBy(current, previous, id) && Fails(current, id)
    requires Fails(current, id) && !Fails(previous, id)
    ensures Says(instance, Started, id) <==> !Says(scanner, NewlyFailing, id)
  {
    hide Says, Fails, OnlyListedBy;
  }

  // ----- the two comparisons agree

  /** The extra checks among a set of findings. */
  function CheckPart(findings: set<Finding>): set<string> {
    set f | f in findings && f.Check? :: f.check
  }

  predicate ListsAsExtra(d: Document, id: string) {
    Considered(d).Some? && id in Considered(d).value && Considered(d).value[id] == "extraCheck"
  }

  /**
   Both scans list their checks, and the coverage group makes the difference:
   `p` lists the check in another group and `c` as an extra check, or only `c`
   lists it, in another group.
   */
  predicate Regrouped(p: Document, c: Document, id: string) {
    && Considered(p).Some? && Considered(c).Some?
    && (|| (id in Considered(p).value && !ListsAsExtra(p, id) && ListsAsExtra(c, id))
        || (id !in Considered(p).value && id in Considered(c).value && !ListsAsExtra(c, id)))
  }

  /** A snapshot taken straight from a document, whatever else the plugin handed in. */
  ghost predicate TakenFrom(s: Snapshot, d: Document) {
    exists missing, waived, actionable :: s == SnapshotOf(d, missing, waived, actionable)
  }

  lemma SnapshotChecks(s: Snapshot, d: Document, id: string)
    requires TakenFrom(s, d)
    ensures Check(id) in s.findings <==> id in FailingChecks(d.extraChecks)
    ensures s.considered.Some? <==> Considered(d).Some?
    ensures s.considered.Some? ==>
              (Check(id) in s.considered.value <==> id in Considered(d).value && Considered(d).value[id] == "extraCheck")
    ensures s.measured == (if d.coverage.Some? then Some(MeasuredIn(d.coverage.value)) else None)
    ensures s.inconclusive == (if d.coverage.Some? then InconclusiveIn(d.coverage.value) else map[])
  {
  }

  /** The two accounts of one check that fails now. */
  lemma OneCheckAppearing(p: Document, c: Document, sp: Snapshot, sc: Snapshot, id: string)
    requires TakenFrom(sp, p) && TakenFrom(sc, c)
    ensures var cmp := Compare(Some(sp), sc);
            && (id in CheckPart(cmp.newFindings) <==> Check(id) in cmp.newFindings)
            && (id in CheckPart(cmp.newlyMeasured) <==> Check(id) in cmp.newlyMeasured)
    ensures var cmp, ids := Compare(Some(sp), sc), FailingChecks(c.extraChecks) - FailingChecks(p.extraChecks);
            var only := OneSidedChecks(p, c).0 * FailingChecks(c.extraChecks);
            && (id !in ids ==> Check(id) !in cmp.newFindings && Check(id) !in cmp.newlyMeasured && id !in Appeared(p, c))
            && (id in ids ==> ((Check(id) in cmp.newFindings <==> id in Appeared(p, c)) <==> !Regrouped(p, c, id)))
            && (id in ids ==> ((Check(id) in cmp.newlyMeasured <==> id in only) <==> !Regrouped(p, c, id)))
  {
    SnapshotChecks(sp, p, id);
    SnapshotChecks(sc, c, id);
  }

  /**
   What the explanation calls started failing, and newly measured and failing,
   is the check part of the baseline's own sets exactly when the coverage group
   of no such check makes the difference, and, for the second, the explanation
   does not count a check that failed before without being listed.
   */
  lemma AppearedAgreesIff(p: Document, c: Document, sp: Snapshot, sc: Snapshot)
    requires TakenFrom(sp, p) && TakenFrom(sc, c)
    ensures var cmp, ids := Compare(Some(sp), sc), FailingChecks(c.extraChecks) - FailingChecks(p.extraChecks);
            && (CheckPart(cmp.newFindings) == Appeared(p, c) <==> forall id | id in ids :: !Regrouped(p, c, id))
            && (CheckPart(cmp.newlyMeasured) == OneSidedChecks(p, c).0 * FailingChecks(c.extraChecks)
                <==> && (forall id | id in ids :: !Regrouped(p, c, id))
                     && (forall id | id in FailingChecks(c.extraChecks) * FailingChecks(p.extraChecks) :: id !in OneSidedChecks(p, c).0))
  {
    var cmp, ids := Compare(Some(sp), sc), FailingChecks(c.extraChecks) - FailingChecks(p.extraChecks);
    var only := OneSidedChecks(p, c).0 * FailingChecks(c.extraChecks);
    hide Compare, Appeared, OneSidedChecks, CheckPart, TakenFrom, Regrouped, FailingChecks;
    forall id
      ensures id in ids ==> ((id in CheckPart(cmp.newFindings) <==> id in Appeared(p, c)) <==> !Regrouped(p, c, id))
      ensures id in ids ==> ((id in CheckPart(cmp.newlyMeasured) <==> id in only) <==> !Regrouped(p, c, id))
      ensures id !in ids ==> id !in CheckPart(cmp.newFindings) && id !in Appeared(p, c) && id !in CheckPart(cmp.newlyMeasured)
    {
      OneCheckAppearing(p, c, sp, sc, id);
    }
    AgreeIff(CheckPart(cmp.newFindings), Appeared(p, c), ids, id => Regrouped(p, c, id));
    NarrowedAgreesIff(CheckPart(cmp.newlyMeasured), only, ids, id => Regrouped(p, c, id));
    assert forall id | id in FailingChecks(c.extraChecks) * FailingChecks(p.extraChecks) :: id in only <==> id in OneSidedChecks(p, c).0;
    assert forall id | id in only && id !in ids :: id in FailingChecks(c.extraChecks) * FailingChecks(p.extraChecks);
  }

  /** Two sets within `ids` that agree on its members exactly where `differs` does not hold. */
  lemma AgreeIff(a: set<string>, b: set<string>, ids: set<string>, differs: string -> bool)
    requires forall id | id in ids :: (id in a <==> id in b) <==> !differs(id)
    requires a <= ids && b <= ids
    ensures a == b <==> forall id | id in ids :: !differs(id)
  {
    if forall id | id in ids :: !differs(id) {
      assert forall id :: id in a <==> id in b;
    }
  }

  lemma NarrowedAgreesIff(a: set<string>, b: set<string>, ids: set<string>, differs: string -> bool)
    requires forall id | id in ids :: (id in a <==> id in b) <==> !differs(id)
    requires a <= ids
    ensures a == b <==> (forall id | id in ids :: !differs(id)) && (forall id | id in b :: id in ids)
  {
    if (forall id | id in ids :: !differs(id)) && (forall id | id in b :: id in ids) {
      assert forall id :: id in a <==> id in b;
    }
  }

  /** The same for what stopped failing, and what failed before and was not looked at again. */
  lemma ResolvedAgreesIff(p: Document, c: Document, sp: Snapshot, sc: Snapshot)
    requires TakenFrom(sp, p) && TakenFrom(sc, c)
    ensures var cmp, ids := Compare(Some(sp), sc), FailingChecks(p.extraChecks) - FailingChecks(c.extraChecks);
            && (CheckPart(cmp.resolved) == Resolved(p, c) <==> forall id | id in ids :: !Regrouped(c, p, id))
            && (CheckPart(cmp.noLongerMeasured) == OneSidedChecks(p, c).1 * FailingChecks(p.extraChecks)
                <==> && (forall id | id in ids :: !Regrouped(c, p, id))
                     && (forall id | id in FailingChecks(p.extraChecks) * FailingChecks(c.extraChecks) :: id !in OneSidedChecks(p, c).1))
  {
    ComparisonIsDual(sp, sc);
    AppearedAgreesIff(c, p, sc, sp);
    OneSidedMeans(p, c);
    assert Appeared(c, p) == Resolved(p, c);
    hide Compare, Regrouped, OneSidedChecks, CheckPart, FailingChecks;
  }

  // ----- lost measurements

  /** What the baseline counts as lost between two lists of rows: rows without a name take no part. */
  function NamedLoss(before: seq<CoverageRow>, after: seq<CoverageRow>): map<string, string> {
    map id | id in InconclusiveIn(after) && id in MeasuredIn(before) :: InconclusiveIn(after)[id]
  }

  lemma {:induction false} ShownRows(before: seq<CoverageRow>, after: seq<CoverageRow>, id: string)
    requires id != "None"
    ensures id in MeasuredRows(before) <==> id in MeasuredIn(before)
    ensures id in UndecidedShown(after) <==> id in InconclusiveIn(after)
    ensures id in InconclusiveIn(after) ==> UndecidedShown(after)[id] == InconclusiveIn(after)[id]
    decreases |after|
  {
    if after == [] {
    } else {
      ShownRows(before, after[..|after| - 1], id);
    }
  }

  lemma {:induction false} NamedNone(before: seq<CoverageRow>, after: seq<CoverageRow>)
    ensures "None" in MeasuredIn(before) ==> "None" in MeasuredRows(before)
    ensures "None" in InconclusiveIn(after) ==> "None" in UndecidedShown(after)
    decreases |after|
  {
    if after == [] {
      if "None" in MeasuredIn(before) {
        var r :| r in before && r.id == "None" && (r.state.Passed? || r.state.Failed?);
        assert ShownId(r) == "None";
      }
    } else {
      NamedNone(before, after[..|after| - 1]);
    }
  }

  /**
   Rows without a name, shown as "None", make no difference: such a check is not
   both measured before and undecided after, or rows that bear that very name
   say the same.
   */
  predicate NamelessRowsAgree(before: seq<CoverageRow>, after: seq<CoverageRow>) {
    "None" in MeasuredRows(before) && "None" in UndecidedShown(after) ==>
      && "None" in MeasuredIn(before) && "None" in InconclusiveIn(after)
      && InconclusiveIn(after)["None"] == UndecidedShown(after)["None"]
  }

  lemma LostRowsAgreeIff(before: seq<CoverageRow>, after: seq<CoverageRow>)
    ensures LostBetween(before, after) == NamedLoss(before, after) <==> NamelessRowsAgree(before, after)
    ensures forall id | id != "None" :: id in LostBetween(before, after) <==> id in NamedLoss(before, after)
    ensures forall id | id != "None" && id in NamedLoss(before, after) :: LostBetween(before, after)[id] == NamedLoss(before, after)[id]
  {
    LostIsUndecided(before, after);
    NamedNone(before, after);
    hide MeasuredRows, MeasuredIn, UndecidedShown, InconclusiveIn, LostBetween;
    forall id | id != "None"
      ensures id in LostBetween(before, after) <==> id in NamedLoss(before, after)
      ensures id in NamedLoss(before, after) ==> LostBetween(before, after)[id] == NamedLoss(before, after)[id]
    {
      ShownRows(before, after, id);
    }
    if NamelessRowsAgree(before, after) {
      assert forall id :: id in LostBetween(before, after) <==> id in NamedLoss(before, after);
    } else {
      assert "None" in LostBetween(before, after);
    }
  }

  /**
   The two accounts of lost measurements agree, check for check and with the
   same reasons, exactly when rows without a name make no difference; on every
   check with a name they always do.
   */
  lemma LostAgreesIff(p: Document, c: Document, sp: Snapshot, sc: Snapshot)
    requires TakenFrom(sp, p) && TakenFrom(sc, c)
    ensures var lost := if p.coverage.Some? && c.coverage.Some? then LostBetween(p.coverage.value, c.coverage.value) else map[];
            && (Compare(Some(sp), sc).coverageLost == lost
                <==> (p.coverage.Some? && c.coverage.Some? ==> NamelessRowsAgree(p.coverage.value, c.coverage.value)))
            && (forall id | id != "None" :: id in lost <==> id in Compare(Some(sp), sc).coverageLost)
            && (forall id | id != "None" && id in lost :: lost[id] == Compare(Some(sp), sc).coverageLost[id])
  {
    SnapshotChecks(sp, p, "");
    SnapshotChecks(sc, c, "");
    hide TakenFrom, LostBetween, NamelessRowsAgree, MeasuredIn, InconclusiveIn;
    if p.coverage.Some? && c.coverage.Some? {
      LostRowsAgreeIff(p.coverage.value, c.coverage.value);
      assert Compare(Some(sp), sc).coverageLost == NamedLoss(p.coverage.value, c.coverage.value);
    }
  }

  /** A row without a name, measured and then undecided, is lost to the explanation alone. */
  lemma NamelessRowIsLostOnce(p: Document, c: Document, sp: Snapshot, sc: Snapshot)
    requires TakenFrom(sp, p) && TakenFrom(sc, c)
    requires p.coverage == Some([CoverageRow("", "dns", Passed, "")])
    requires c.coverage == Some([CoverageRow("", "dns", State.Inconclusive, "timeout")])
    ensures Compare(Some(sp), sc).coverageLost == map[]
    ensures "None" in LostBetween(p.coverage.value, c.coverage.value)
  {
    var before, after := p.coverage.value, c.coverage.value;
    SnapshotChecks(sp, p, "");
    SnapshotChecks(sc, c, "");
    hide TakenFrom, SnapshotOf;
    assert before[0] in before && ShownId(before[0]) == "None";
    assert after[..0] == [] && InconclusiveIn(after) == InconclusiveIn([]) == map[];
  }

  /**
   They can differ: a check the earlier scan listed as a DNS check and passed,
   and the later one lists and fails as an extra check, started failing
   according to the explanation and is newly measured according to the baseline.
   */
  lemma RegroupedCheckSplitsTheAccounts(p: Document, c: Document, sp: Snapshot, sc: Snapshot)
    requires TakenFrom(sp, p) && TakenFrom(sc, c)
    requires p.extraChecks == [] && p.coverage == Some([CoverageRow("dnssec", "dns", Passed, "")])
    requires c.extraChecks == [ExtraCheck("dnssec", false, false, "low")]
    requires c.coverage == Some([CoverageRow("dnssec", "extraCheck", Failed, "")])
    ensures Appeared(p, c) == {"dnssec"} && "dnssec" !in CheckPart(Compare(Some(sp), sc).newFindings)
    ensures "dnssec" in CheckPart(Compare(Some(sp), sc).newlyMeasured)
  {
    assert c.extraChecks[0] in c.extraChecks;
    assert FailingChecks(c.extraChecks) == {"dnssec"} && FailingChecks(p.extraChecks) == {};
    OneRowConsidered(p, CoverageRow("dnssec", "dns", Passed, ""));
    OneRowConsidered(c, CoverageRow("dnssec", "extraCheck", Failed, ""));
    assert OneSidedChecks(p, c).0 == {} && OneSidedChecks(p, c).1 == {};
    OneCheckAppearing(p, c, sp, sc, "dnssec");
    hide Compare, TakenFrom, GroupsOf, CheckPart;
  }

  lemma OneRowConsidered(d: Document, row: CoverageRow)
    requires row.id != "" && d.coverage == Some([row])
    ensures Considered(d) == Some(map[row.id := row.group])
  {
    assert GroupsOf([]) == map[];
  }
}
