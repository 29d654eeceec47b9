/** The stages that turn one scan into a Nagios state, in the order they run. */
module Verdict {
  import opened Wrappers
  import opened Documents
  import opened Baseline

  datatype ExitCode = Ok | Warning | Critical | Unknown {
    /** CRITICAL > WARNING > UNKNOWN > OK: a host nobody could reach never masks a confirmed problem. */
    function Priority(): nat {
      match this
      case Ok => 0
      case Unknown => 1
      case Warning => 2
      case Critical => 3
    }
  }

  const MIN_RATING := 0
  const MAX_RATING := 5
  const UNKNOWN_RATING := -1

  datatype Policy = Policy(minimumRating: Option<int>, requiredHardenings: seq<string>, forbidden: seq<string>)

  datatype Context = Context(host: string, warningRating: int, criticalRating: int, checkHardening: bool,
                             updateCheck: bool, updateWarning: bool, eolWarningDays: int, waiverWarningDays: int,
                             baseline: bool, warnOnNew: bool, policy: Option<Policy>,
                             actionable: string -> bool)

  function RatingOf(d: Document): int {
    if d.rating.Some? then d.rating.value else UNKNOWN_RATING
  }

  predicate Rated(rating: int) {
    MIN_RATING <= rating <= MAX_RATING
  }

  // ----- the stages

  function EvaluateRating(ctx: Context, d: Document): ExitCode {
    var rating := RatingOf(d);
    if !Rated(rating) then Unknown
    else if d.eol || rating == MIN_RATING then Critical
    else if rating <= ctx.criticalRating then Critical
    else if d.vulnerabilities != [] then Warning
    else if rating <= ctx.warningRating then Warning
    else Ok
  }

  /** The missing measures worth alerting on: neither hardcoded by OpenCloud nor waived. */
  function ActionableHardenings(ctx: Context, d: Document): set<string> {
    set name | name in MissingHardenings(d) && ctx.actionable(name) && name !in d.ignored
  }

  function HardeningStage(ctx: Context, d: Document, exit: ExitCode): ExitCode {
    if ctx.checkHardening && ActionableHardenings(ctx, d) != {} && exit.Ok? then Warning else exit
  }

  /** The document's own answer, or the release source's when it carries none. */
  function ResolveUpdate(ctx: Context, d: Document): Option<string> {
    if !ctx.updateCheck then None
    else match d.updates
         case Listed(available) => available
         case NotListed(lookup) => lookup
  }

  function UpdateStage(ctx: Context, d: Document, exit: ExitCode): ExitCode {
    if ctx.updateWarning && ResolveUpdate(ctx, d).Some? && exit.Ok? then Warning else exit
  }

  predicate WithinEolWindow(ctx: Context, d: Document) {
    && ctx.eolWarningDays > 0 && d.lifecycle.supported && d.lifecycle.daysRemaining.Some?
    && 0 < d.lifecycle.daysRemaining.value <= ctx.eolWarningDays
  }

  function EolStage(ctx: Context, d: Document, exit: ExitCode): ExitCode {
    if exit.Ok? && WithinEolWindow(ctx, d) then Warning else exit
  }

  predicate WithinWaiverWindow(ctx: Context, d: Document) {
    ctx.waiverWarningDays > 0 && d.waiverDays.Some? && d.waiverDays.value <= ctx.waiverWarningDays
  }

  function WaiverStage(ctx: Context, d: Document, exit: ExitCode): ExitCode {
    if exit.Ok? && WithinWaiverWindow(ctx, d) then Warning else exit
  }

  /** The state before the baseline is consulted. */
  function BeforeBaseline(ctx: Context, d: Document): ExitCode {
    WaiverStage(ctx, d, EolStage(ctx, d, UpdateStage(ctx, d, HardeningStage(ctx, d, EvaluateRating(ctx, d)))))
  }

  function CurrentSnapshot(ctx: Context, d: Document): Snapshot {
    SnapshotOf(d, if ctx.checkHardening then ActionableHardenings(ctx, d) else {}, d.ignored, ctx.actionable)
  }

  predicate Suppresses(ctx: Context, c: Comparison, exit: ExitCode) {
    ctx.warnOnNew && !c.Regressed() && !exit.Ok?
  }

  predicate RaisesForCoverage(c: Comparison, exit: ExitCode) {
    c.coverageLost != map[] && exit.Ok?
  }

  function BaselineStage(ctx: Context, c: Comparison, exit: ExitCode): ExitCode {
    var quietened := if Suppresses(ctx, c, exit) then Ok else exit;
    if RaisesForCoverage(c, quietened) then Warning else quietened
  }

  // ----- the policy

  datatype Violation = RatingBelow(minimum: int) | RequiredMissing(name: string) | ForbiddenPresent(name: string)

  /** `failed_extra_checks`: waived checks are left out. */
  function PolicyFindings(d: Document): set<string> {
    MissingHardenings(d) + FailingChecks(d.extraChecks) + (set v | v in d.vulnerabilities && v.id != "" :: v.id)
  }

  function Named(names: seq<string>, present: set<string>, violation: string -> Violation): seq<Violation> {
    if names == [] then []
    else (if names[0] in present then [violation(names[0])] else []) + Named(names[1..], present, violation)
  }

  function Violations(policy: Policy, d: Document, rating: int): seq<Violation> {
    (if policy.minimumRating.Some? && rating < policy.minimumRating.value
     then [RatingBelow(policy.minimumRating.value)] else [])
    + Named(policy.requiredHardenings, MissingHardenings(d), name => RequiredMissing(name))
    + Named(policy.forbidden, PolicyFindings(d), name => ForbiddenPresent(name))
  }

  predicate Violated(ctx: Context, d: Document) {
    ctx.policy.Some? && Violations(ctx.policy.value, d, RatingOf(d)) != []
  }

  function PolicyStage(ctx: Context, d: Document, exit: ExitCode): ExitCode {
    if Violated(ctx, d) then Critical else exit
  }

  /** The final state of a run on a host whose stored snapshot is `stored`. */
  function FinalState(ctx: Context, d: Document, stored: Option<Snapshot>): ExitCode {
    var exit := BeforeBaseline(ctx, d);
    PolicyStage(ctx, d, if ctx.baseline then BaselineStage(ctx, Compare(stored, CurrentSnapshot(ctx, d)), exit) else exit)
  }

  /** One run: every stage in turn, recording into the store when a baseline is set. */
  method CheckVulnerabilities(ctx: Context, d: Document, store: Store) returns (exit: ExitCode)
    modifies store
    ensures var stored := if ctx.host in old(store.hosts) then Some(old(store.hosts)[ctx.host]) else None;
            && exit == FinalState(ctx, d, stored)
            && store.hosts == if ctx.baseline
                              then old(store.hosts)[ctx.host := Compare(stored, CurrentSnapshot(ctx, d)).current]
                              else old(store.hosts)
  {
    exit := EvaluateRating(ctx, d);
    var missing := ActionableHardenings(ctx, d);
    if ctx.checkHardening {
      if missing != {} && exit == Ok {
        exit := Warning;
      }
    }
    if ctx.updateWarning && ResolveUpdate(ctx, d).Some? && exit == Ok {
      exit := Warning;
    }
    exit := EolStage(ctx, d, exit);
    exit := WaiverStage(ctx, d, exit);
    if ctx.baseline {
      var current := TakeSnapshot(d, if ctx.checkHardening then missing else {}, d.ignored, ctx.actionable);
      var comparison := store.CompareAndRecord(ctx.host, current);
      if ctx.warnOnNew && !comparison.Regressed() && exit != Ok {
        exit := Ok;
      }
      if comparison.coverageLost != map[] && exit == Ok {
        exit := Warning;
      }
    }
    exit := PolicyStage(ctx, d, exit);
  }

  // ----- what the whole pipeline guarantees

  /** The run may be silenced: a baseline is set, only news alert, and there is none. */
  predicate NothingNew(ctx: Context, d: Document, stored: Option<Snapshot>) {
    ctx.baseline && ctx.warnOnNew && !Compare(stored, CurrentSnapshot(ctx, d)).Regressed()
  }

  /** The thresholds are inclusive, and a known vulnerability always alerts but never makes a grade CRITICAL by itself. */
  lemma GradeDecides(ctx: Context, d: Document)
    requires Rated(RatingOf(d))
    ensures EvaluateRating(ctx, d).Critical? <==> d.eol || RatingOf(d) <= MIN_RATING || RatingOf(d) <= ctx.criticalRating
    ensures EvaluateRating(ctx, d).Ok? <==>
            && !EvaluateRating(ctx, d).Critical? && d.vulnerabilities == [] && RatingOf(d) > ctx.warningRating
  {
  }

  /** The stages after the grade lift an OK to WARNING, for any one of four reasons, and leave anything else alone. */
  lemma BeforeBaselineIs(ctx: Context, d: Document)
    ensures BeforeBaseline(ctx, d)
            == if !EvaluateRating(ctx, d).Ok? then EvaluateRating(ctx, d)
               else if || (ctx.checkHardening && exists name | name in MissingHardenings(d) :: ctx.actionable(name) && name !in d.ignored)
                       || (ctx.updateWarning && ResolveUpdate(ctx, d).Some?)
                       || WithinEolWindow(ctx, d) || WithinWaiverWindow(ctx, d) then Warning
               else Ok
  {
    hide EvaluateRating, MissingHardenings;
    assert ActionableHardenings(ctx, d) != {} <==> exists name | name in MissingHardenings(d) :: ctx.actionable(name) && name !in d.ignored by {
      if name :| name in MissingHardenings(d) && ctx.actionable(name) && name !in d.ignored {
        assert name in ActionableHardenings(ctx, d);
      }
    }
  }

  // ----- the pipeline, field by field

  /** The document reports the measure, header or redirect to HTTPS as absent. */
  predicate Misses(d: Document, name: string) {
    || (name in d.hardenings && !d.hardenings[name])
    || (name in d.headers && !d.headers[name])
    || (name == "httpsEnforced" && !d.httpsEnforced)
  }

  lemma MissesIff(d: Document, name: string)
    ensures name in MissingHardenings(d) <==> Misses(d, name)
  {
  }

  /** Some measure that is absent, not waived, and not beyond the operator's reach. */
  ghost predicate MeasureAlerts(ctx: Context, d: Document) {
    ctx.checkHardening && exists name :: Misses(d, name) && name !in d.ignored && ctx.actionable(name)
  }

  /** An update is available, whether the document lists it or, listing none at all, the release source names it. */
  predicate UpdateAlerts(ctx: Context, d: Document) {
    && ctx.updateCheck && ctx.updateWarning
    && match d.updates
       case Listed(available) => available != None
       case NotListed(lookup) => lookup != None
  }

  /** Support still lasts, and for no more days than the window. */
  predicate SupportEnds(ctx: Context, d: Document) {
    && ctx.eolWarningDays >= 1 && d.lifecycle.supported && d.lifecycle.daysRemaining != None
    && 1 <= d.lifecycle.daysRemaining.value && d.lifecycle.daysRemaining.value <= ctx.eolWarningDays
  }

  /** A waiver ends within the window. */
  predicate WaiverEnds(ctx: Context, d: Document) {
    ctx.waiverWarningDays >= 1 && d.waiverDays != None && d.waiverDays.value <= ctx.waiverWarningDays
  }

  /**
   The state before the baseline, read off the settings and the document: no grade
   is UNKNOWN; end of life, grade 0 or a grade at or below the critical threshold is
   CRITICAL; then any of six reasons is a WARNING.
   */
  lemma StateOnFields(ctx: Context, d: Document)
    ensures var grade := if d.rating != None then d.rating.value else -1;
            BeforeBaseline(ctx, d)
            == if grade !in {0, 1, 2, 3, 4, 5} then Unknown
               else if d.eol || grade == 0 || grade <= ctx.criticalRating then Critical
               else if || d.vulnerabilities != [] || grade <= ctx.warningRating || MeasureAlerts(ctx, d)
                       || UpdateAlerts(ctx, d) || SupportEnds(ctx, d) || WaiverEnds(ctx, d) then Warning
               else Ok
  {
    BeforeBaselineIs(ctx, d);
    forall name
      ensures name in MissingHardenings(d) <==> Misses(d, name)
    {
      MissesIff(d, name);
    }
    hide MissingHardenings, BeforeBaseline, Misses;
  }

  /** Fewer days of support or of a waiver left never end a warning. */
  lemma LessTimeNeverQuietens(ctx: Context, d: Document, supportDays: int, waiverDays: nat)
    requires d.lifecycle.daysRemaining.Some? ==> 0 < supportDays <= d.lifecycle.daysRemaining.value
    requires d.waiverDays.Some? ==> waiverDays <= d.waiverDays.value
    ensures var later := d.(lifecycle := d.lifecycle.(daysRemaining := Some(supportDays)), waiverDays := Some(waiverDays));
            BeforeBaseline(ctx, d).Priority() <= BeforeBaseline(ctx, later).Priority()
  {
    var later := d.(lifecycle := d.lifecycle.(daysRemaining := Some(supportDays)), waiverDays := Some(waiverDays));
    StateOnFields(ctx, d);
    StateOnFields(ctx, later);
    assert forall name :: Misses(d, name) <==> Misses(later, name);
    assert MeasureAlerts(ctx, d) <==> MeasureAlerts(ctx, later);
    hide BeforeBaseline, MeasureAlerts, Misses;
  }

  /** What a run holds against the stored findings. */
  ghost predicate RunReports(ctx: Context, d: Document, f: Finding) {
    match f
    case Hardening(name) => ctx.checkHardening && Misses(d, name) && name !in d.ignored && ctx.actionable(name)
    case _ => Reports(d, {}, {}, ctx.actionable, f)
  }

  lemma RunFindingIff(ctx: Context, d: Document, f: Finding)
    ensures f in CurrentSnapshot(ctx, d).findings <==> RunReports(ctx, d, f)
  {
    FindingIsRecordedIff(d, if ctx.checkHardening then ActionableHardenings(ctx, d) else {}, d.ignored, ctx.actionable, f);
    if f.Hardening? {
      MissesIff(d, f.name);
    }
    hide SnapshotOf, Misses, MissingHardenings;
  }

  /**
   A run may be silenced, read off the settings, the document and what is stored:
   nothing is reported that is not stored, the grade did not fall, the release is
   supported, and no check that had been measured is now undecided.
   */
  lemma SilenceOnFields(ctx: Context, d: Document, stored: Option<Snapshot>)
    ensures NothingNew(ctx, d, stored)
            <==> && ctx.baseline && ctx.warnOnNew && stored != None && !d.eol
                 && (if d.rating != None then d.rating.value else -1) >= stored.value.rating
                 && (forall f :: RunReports(ctx, d, f) ==> f in stored.value.findings)
                 && (forall check, reason :: Undecided(d, check, reason) ==> !MeasuredBy(stored.value, check))
  {
    var s := CurrentSnapshot(ctx, d);
    SnapshotRecords(d, if ctx.checkHardening then ActionableHardenings(ctx, d) else {}, d.ignored, ctx.actionable);
    forall f
      ensures f in s.findings <==> RunReports(ctx, d, f)
    {
      RunFindingIff(ctx, d, f);
    }
    forall check | check in s.inconclusive
      ensures Undecided(d, check, s.inconclusive[check])
    {
    }
    hide SnapshotOf, ActionableHardenings, Undecided, MeasuredBy, RunReports, Compare;
    RegressedIff(stored, s);
  }

  /** The run is graded, and past its end of life or at or below the threshold. */
  predicate GradedCritical(ctx: Context, d: Document) {
    var rating := RatingOf(d);
    Rated(rating) && (d.eol || rating == MIN_RATING || rating <= ctx.criticalRating)
  }

  /** CRITICAL has two sources and one way out. */
  lemma CriticalIff(ctx: Context, d: Document, stored: Option<Snapshot>)
    ensures FinalState(ctx, d, stored).Critical?
            <==> Violated(ctx, d) || (GradedCritical(ctx, d) && !NothingNew(ctx, d, stored))
  {
    SuppressionLosesNoCoverage(ctx, d, stored);
    if Rated(RatingOf(d)) {
      GradeDecides(ctx, d);
    }
    hide Compare, CurrentSnapshot, Violated;
  }

  /** All four final states, decided by what the run measured and what was stored. */
  lemma FinalStateIs(ctx: Context, d: Document, stored: Option<Snapshot>)
    ensures var before := BeforeBaseline(ctx, d);
            var lost := Compare(stored, CurrentSnapshot(ctx, d)).coverageLost;
            FinalState(ctx, d, stored)
            == if Violated(ctx, d) then Critical
               else if NothingNew(ctx, d, stored) then Ok
               else if before.Ok? && ctx.baseline && lost != map[] then Warning
               else before
  {
    SuppressionLosesNoCoverage(ctx, d, stored);
  }

  /** The suppression and the coverage raise never both fire. */
  lemma SuppressionLosesNoCoverage(ctx: Context, d: Document, stored: Option<Snapshot>)
    ensures NothingNew(ctx, d, stored) ==> Compare(stored, CurrentSnapshot(ctx, d)).coverageLost == map[]
    ensures forall exit: ExitCode :: var c := Compare(stored, CurrentSnapshot(ctx, d));
              Suppresses(ctx, c, exit) ==> !RaisesForCoverage(c, Ok)
  {
  }

  /** A rated release past its end of life is CRITICAL under every setting and every stored baseline. */
  lemma EndOfLifeAlwaysCritical(ctx: Context, d: Document, stored: Option<Snapshot>)
    requires Rated(RatingOf(d)) && d.eol
    ensures FinalState(ctx, d, stored).Critical?
  {
    CriticalIff(ctx, d, stored);
  }

  /** Every stage but the suppression only moves upward. */
  lemma StagesOnlyRaise(ctx: Context, d: Document, c: Comparison, exit: ExitCode)
    ensures HardeningStage(ctx, d, exit).Priority() >= exit.Priority()
    ensures UpdateStage(ctx, d, exit).Priority() >= exit.Priority()
    ensures EolStage(ctx, d, exit).Priority() >= exit.Priority()
    ensures WaiverStage(ctx, d, exit).Priority() >= exit.Priority()
    ensures PolicyStage(ctx, d, exit).Priority() >= exit.Priority()
    ensures !Suppresses(ctx, c, exit) ==> BaselineStage(ctx, c, exit).Priority() >= exit.Priority()
  {
  }

  /** A run that may not be silenced never ends below what its own evidence, or its rating alone, says. */
  lemma NeverBelowTheEvidence(ctx: Context, d: Document, stored: Option<Snapshot>)
    requires !NothingNew(ctx, d, stored)
    ensures FinalState(ctx, d, stored).Priority() >= BeforeBaseline(ctx, d).Priority() >= EvaluateRating(ctx, d).Priority()
  {
    FinalStateIs(ctx, d, stored);
    var c := Compare(stored, CurrentSnapshot(ctx, d));
    var graded := EvaluateRating(ctx, d);
    var hardened := HardeningStage(ctx, d, graded);
    var updated := UpdateStage(ctx, d, hardened);
    var ending := EolStage(ctx, d, updated);
    StagesOnlyRaise(ctx, d, c, graded);
    StagesOnlyRaise(ctx, d, c, hardened);
    StagesOnlyRaise(ctx, d, c, updated);
    StagesOnlyRaise(ctx, d, c, ending);
    hide EvaluateRating, HardeningStage, UpdateStage, EolStage, WaiverStage, FinalState, Compare, CurrentSnapshot, Violated;
  }

  /**
   The lowest rating is announced as an end of life whether or not the document
   carries the EOL flag, but only the flag is recorded in the snapshot. Without
   it such a run falls silent exactly when the host was already at that rating,
   fails nothing it did not fail before, and lost sight of nothing.
   */
  lemma LowestRatingSilencedIff(ctx: Context, d: Document, stored: Snapshot)
    requires RatingOf(d) == MIN_RATING && !d.eol
    ensures EvaluateRating(ctx, d).Critical?
    ensures !FinalState(ctx, d, Some(stored)).Critical?
            <==> && !Violated(ctx, d) && ctx.baseline && ctx.warnOnNew
                 && stored.rating <= MIN_RATING
                 && CurrentSnapshot(ctx, d).findings <= stored.findings
                 && Lost(stored, CurrentSnapshot(ctx, d)) == map[]
  {
    CriticalIff(ctx, d, Some(stored));
    ConsideredNeverDecidesAlert(stored, CurrentSnapshot(ctx, d));
  }

  /** Such a run exists: the second of two identical scans graded F is reported OK. */
  lemma LowestRatingCanBeSilenced(ctx: Context, d: Document)
    requires ctx.baseline && ctx.warnOnNew && ctx.policy.None?
    requires d.rating == Some(0) && !d.eol && d.coverage.None?
    ensures FinalState(ctx, d, None).Critical?
    ensures FinalState(ctx, d, Some(Compare(None, CurrentSnapshot(ctx, d)).current)).Ok?
  {
    var stored := Compare(None, CurrentSnapshot(ctx, d)).current;
    LowestRatingSilencedIff(ctx, d, stored);
    FinalStateIs(ctx, d, Some(stored));
  }

  // ----- whole histories

  /** One run of a host, under whatever settings it was given. */
  datatype Run = Run(ctx: Context, doc: Document)

  /** The snapshots a sequence of runs of one host takes. */
  function Snapshots(runs: seq<Run>): (snapshots: seq<Snapshot>)
    ensures |snapshots| == |runs|
    ensures forall i | 0 <= i < |runs| :: snapshots[i] == CurrentSnapshot(runs[i].ctx, runs[i].doc)
  {
    if runs == [] then []
    else
      var last := runs[|runs| - 1];
      Snapshots(runs[..|runs| - 1]) + [CurrentSnapshot(last.ctx, last.doc)]
  }

  /** The state the k-th run of a history ends in, every run before it having recorded. */
  function StateAt(runs: seq<Run>, k: nat): ExitCode
    requires k < |runs|
  {
    FinalState(runs[k].ctx, runs[k].doc, StoredAfter(None, Snapshots(runs)[..k]))
  }

  /** What was stored when the k-th run compared. */
  function StoredAt(runs: seq<Run>, k: nat): Option<Snapshot>
    requires k < |runs|
  {
    StoredAfter(None, Snapshots(runs)[..k])
  }

  /** The k-th run may not be silenced. */
  predicate Loud(runs: seq<Run>, k: nat)
    requires k < |runs|
  {
    !NothingNew(runs[k].ctx, runs[k].doc, StoredAt(runs, k))
  }

  /** The k-th run ends OK against its own evidence. */
  predicate Silenced(runs: seq<Run>, k: nat)
    requires k < |runs|
  {
    StateAt(runs, k).Ok? && !BeforeBaseline(runs[k].ctx, runs[k].doc).Ok?
  }

  ghost predicate OneSetting(runs: seq<Run>, ctx: Context) {
    forall i | 0 <= i < |runs| :: runs[i].ctx == ctx
  }

  /**
   Nothing a snapshot holds raised the run: only the approaching end of a release
   line or of a waiver did, or an update the document does not list.
   */
  predicate UnrecordedOnly(ctx: Context, d: Document) {
    && !BeforeBaseline(ctx, d).Ok?
    && HardeningStage(ctx, d, EvaluateRating(ctx, d)).Ok?
    && !(ctx.updateCheck && ctx.updateWarning && d.ListedUpdate().Some?)
  }

  /** Some earlier run ended in the state run `k` would have ended in, or a worse one. */
  ghost predicate Announced(runs: seq<Run>, k: nat)
    requires k < |runs|
  {
    exists j: nat | j < k :: StateAt(runs, j).Priority() >= BeforeBaseline(runs[k].ctx, runs[k].doc).Priority()
  }

  /** Run `j` said at least as much: in the state it ended in, in its findings and in its grade. */
  ghost predicate Announces(runs: seq<Run>, j: nat, k: nat)
    requires j < k < |runs|
  {
    && Loud(runs, j)
    && StateAt(runs, j).Priority() >= BeforeBaseline(runs[k].ctx, runs[k].doc).Priority()
    && Snapshots(runs)[k].findings <= Snapshots(runs)[j].findings
    && Snapshots(runs)[k].rating >= Snapshots(runs)[j].rating
  }

  /** What fewer findings mean for the stages that look at findings. */
  lemma FewerFindings(ctx: Context, before: Document, now: Document)
    requires CurrentSnapshot(ctx, now).findings <= CurrentSnapshot(ctx, before).findings
    ensures now.vulnerabilities != [] ==> before.vulnerabilities != []
    ensures now.ListedUpdate().Some? ==> before.ListedUpdate().Some?
    ensures ctx.checkHardening && ActionableHardenings(ctx, now) != {} ==> ActionableHardenings(ctx, before) != {}
  {
    hide MissingHardenings;
    var fewer, more := CurrentSnapshot(ctx, now).findings, CurrentSnapshot(ctx, before).findings;
    if now.vulnerabilities != [] {
      assert now.vulnerabilities[0] in now.vulnerabilities;
      assert Vuln(NameOf(now.vulnerabilities[0])) in fewer;
    }
    if ctx.checkHardening && ActionableHardenings(ctx, now) != {} {
      var name :| name in ActionableHardenings(ctx, now);
      assert Hardening(name) in fewer && Hardening(name) in more;
      assert name in ActionableHardenings(ctx, before);
    }
    if now.ListedUpdate().Some? {
      var update :| update in UpdateFinding(now.ListedUpdate());
      assert update in fewer && update in more;
    }
  }

  /** Fewer findings and no worse a grade never raise a run higher, what no snapshot holds aside. */
  lemma EvidenceShrinks(ctx: Context, before: Document, now: Document)
    requires Rated(RatingOf(before)) && Rated(RatingOf(now)) && RatingOf(before) <= RatingOf(now) && !now.eol
    requires CurrentSnapshot(ctx, now).findings <= CurrentSnapshot(ctx, before).findings
    requires !UnrecordedOnly(ctx, now)
    ensures BeforeBaseline(ctx, now).Priority() <= BeforeBaseline(ctx, before).Priority()
  {
    FewerFindings(ctx, before, now);
    hide CurrentSnapshot, ActionableHardenings, WithinEolWindow, WithinWaiverWindow;
  }

  /** A run that ends OK against its own evidence follows one that could not be silenced and shows nothing that one did not. */
  lemma SilencedRunFollowsALoudOne(runs: seq<Run>, k: nat) returns (j: nat)
    requires k < |runs| && Silenced(runs, k)
    ensures j < k && Loud(runs, j) && !runs[k].doc.eol && QuietSince(None, Snapshots(runs), j, k)
    ensures StateAt(runs, j).Priority() >= BeforeBaseline(runs[j].ctx, runs[j].doc).Priority()
    ensures Snapshots(runs)[k].findings <= Snapshots(runs)[j].findings
    ensures Snapshots(runs)[k].rating >= Snapshots(runs)[j].rating
  {
    hide FinalState, BeforeBaseline, EvaluateRating, Violated, Compare, StoredAfter, Snapshots, SnapshotOf;
    var snapshots := Snapshots(runs);
    FinalStateIs(runs[k].ctx, runs[k].doc, StoredAfter(None, snapshots[..k]));
    assert Quiet(None, snapshots, k);
    j := SilenceHidesNothing(snapshots, k);
    assert !NothingNew(runs[j].ctx, runs[j].doc, StoredAfter(None, snapshots[..j]));
    NeverBelowTheEvidence(runs[j].ctx, runs[j].doc, StoredAfter(None, snapshots[..j]));
    assert snapshots[k].eol == runs[k].doc.eol by { SnapshotKeepsEol(runs[k].ctx, runs[k].doc); }
  }

  /**
   Whether the last run that could not be suppressed ended at least as high as
   a run silenced since would have, under one setting and what no snapshot holds aside: it did
   exactly when it was rated or violated the policy.
   */
  lemma LastLoudRunAnnouncesIff(runs: seq<Run>, k: nat, ctx: Context) returns (j: nat)
    requires k < |runs| && OneSetting(runs, ctx) && Silenced(runs, k) && !UnrecordedOnly(ctx, runs[k].doc)
    ensures j < k && Loud(runs, j) && QuietSince(None, Snapshots(runs), j, k)
    ensures Snapshots(runs)[k].findings <= Snapshots(runs)[j].findings
    ensures Snapshots(runs)[k].rating >= Snapshots(runs)[j].rating
    ensures Rated(RatingOf(runs[k].doc)) ==>
              (StateAt(runs, j).Priority() >= BeforeBaseline(ctx, runs[k].doc).Priority()
               <==> Rated(RatingOf(runs[j].doc)) || Violated(ctx, runs[j].doc))
    ensures RatingOf(runs[k].doc) < MIN_RATING ==>
              StateAt(runs, j).Priority() >= BeforeBaseline(ctx, runs[k].doc).Priority()
  {
    hide StateAt, Silenced, BeforeBaseline, UnrecordedOnly, Loud, SnapshotOf, MissingHardenings, Violated, QuietSince;
    j := SilencedRunFollowsALoudOne(runs, k);
    var before, now := runs[j].doc, runs[k].doc;
    SnapshotKeepsRating(ctx, before);
    SnapshotKeepsRating(ctx, now);
    StateOfUnrated(runs, j);
    if Rated(RatingOf(now)) {
      SilencedIsRaised(runs, k);
      if Rated(RatingOf(before)) {
        EvidenceShrinks(ctx, before, now);
      } else {
        OnlyUnratedIsUnknown(ctx, now);
      }
    } else if RatingOf(now) < MIN_RATING {
      UnratedIsUnknown(ctx, before);
      UnratedIsUnknown(ctx, now);
    }
  }

  lemma SilencedIsRaised(runs: seq<Run>, k: nat)
    requires k < |runs| && Silenced(runs, k)
    ensures !BeforeBaseline(runs[k].ctx, runs[k].doc).Ok?
  {
  }

  lemma OnlyUnratedIsUnknown(ctx: Context, d: Document)
    requires Rated(RatingOf(d))
    ensures !BeforeBaseline(ctx, d).Unknown?
  {
  }

  lemma UnratedIsUnknown(ctx: Context, d: Document)
    ensures RatingOf(d) < MIN_RATING ==> BeforeBaseline(ctx, d).Unknown?
  {
  }

  /** A run without a usable rating ends UNKNOWN, unless it is suppressed or violates the policy. */
  lemma StateOfUnrated(runs: seq<Run>, j: nat)
    requires j < |runs| && Loud(runs, j)
    ensures Violated(runs[j].ctx, runs[j].doc) ==> StateAt(runs, j).Critical?
    ensures !Violated(runs[j].ctx, runs[j].doc) && !Rated(RatingOf(runs[j].doc)) ==> StateAt(runs, j).Unknown?
  {
    var (ctx, d) := (runs[j].ctx, runs[j].doc);
    assert !Rated(RatingOf(d)) ==> BeforeBaseline(ctx, d).Unknown?;
    hide BeforeBaseline, FinalState, Violated, Compare, CurrentSnapshot, StoredAfter, Snapshots;
    FinalStateIs(ctx, d, StoredAt(runs, j));
  }

  /**
   A silenced state was announced: under one setting and with rated runs, every
   run that ends OK against its own evidence follows one that ended in that
   state or a worse one, unless only something no snapshot holds raised it.
   */
  lemma SilencedRunWasAnnounced(runs: seq<Run>, k: nat, ctx: Context)
    requires k < |runs| && OneSetting(runs, ctx) && Silenced(runs, k) && !UnrecordedOnly(ctx, runs[k].doc)
    requires forall i | 0 <= i <= k :: Rated(RatingOf(runs[i].doc))
    ensures exists j: nat | j < k :: Announces(runs, j, k)
  {
    assert runs[k].ctx == ctx;
    hide *;
    var j := LastLoudRunAnnouncesIff(runs, k, ctx);
    AnnouncesBy(runs, j, k);
  }

  lemma AnnouncesBy(runs: seq<Run>, j: nat, k: nat)
    requires j < k < |runs| && Loud(runs, j)
    requires StateAt(runs, j).Priority() >= BeforeBaseline(runs[k].ctx, runs[k].doc).Priority()
    requires Snapshots(runs)[k].findings <= Snapshots(runs)[j].findings
    requires Snapshots(runs)[k].rating >= Snapshots(runs)[j].rating
    ensures Announces(runs, j, k)
  {
  }

  lemma SnapshotKeepsRating(ctx: Context, d: Document)
    ensures CurrentSnapshot(ctx, d).rating == RatingOf(d)
  {
  }

  /** When a run that is not suppressed, or violates the policy, ends WARNING or CRITICAL. */
  predicate Alerts(runs: seq<Run>, j: nat)
    requires j < |runs|
  {
    var (ctx, d) := (runs[j].ctx, runs[j].doc);
    var before := BeforeBaseline(ctx, d);
    || Violated(ctx, d)
    || (Loud(runs, j)
        && (before.Warning? || before.Critical?
            || (before.Ok? && ctx.baseline && Compare(StoredAt(runs, j), CurrentSnapshot(ctx, d)).coverageLost != map[])))
  }

  /**
   The exception, exactly: a silenced run that nothing recorded raised was announced
   if and only if some earlier run had something to alert on and was not
   suppressed, or lost coverage, or violated the policy.
   */
  lemma UnrecordedAnnouncedIff(runs: seq<Run>, k: nat)
    requires k < |runs| && UnrecordedOnly(runs[k].ctx, runs[k].doc)
    ensures Announced(runs, k) <==> exists j: nat | j < k :: Alerts(runs, j)
  {
    BeforeBaselineIs(runs[k].ctx, runs[k].doc);
    assert BeforeBaseline(runs[k].ctx, runs[k].doc).Warning?;
    hide BeforeBaseline, UnrecordedOnly, StateAt;
    forall j: nat | j < k
      ensures StateAt(runs, j).Priority() >= 2 <==> Alerts(runs, j)
    {
      AlertingState(runs, j);
    }
    hide Alerts;
  }

  lemma AlertingState(runs: seq<Run>, j: nat)
    requires j < |runs|
    ensures StateAt(runs, j).Priority() >= 2 <==> Alerts(runs, j)
  {
    hide FinalState, BeforeBaseline, Violated, Compare, NothingNew, CurrentSnapshot;
    FinalStateIs(runs[j].ctx, runs[j].doc, StoredAt(runs, j));
    hide StoredAt;
  }

  /** For one run: the WARNING that nothing recorded gives is delivered exactly when something besides it is new or worse. */
  lemma UnrecordedWarningDeliveredIff(ctx: Context, d: Document, stored: Snapshot)
    requires UnrecordedOnly(ctx, d) && !Violated(ctx, d)
    ensures FinalState(ctx, d, Some(stored)).Warning?
            <==> || !ctx.baseline || !ctx.warnOnNew
                 || !(CurrentSnapshot(ctx, d).findings <= stored.findings) || RatingOf(d) < stored.rating
                 || Lost(stored, CurrentSnapshot(ctx, d)) != map[]
    ensures FinalState(ctx, d, Some(stored)).Warning? || FinalState(ctx, d, Some(stored)).Ok?
  {
    BeforeBaselineIs(ctx, d);
    FinalStateIs(ctx, d, Some(stored));
    assert EvaluateRating(ctx, d).Ok? && !d.eol;
    SnapshotKeepsRating(ctx, d);
    SnapshotKeepsEol(ctx, d);
    hide BeforeBaseline, FinalState, EvaluateRating, Violated, CurrentSnapshot, UnrecordedOnly;
    ConsideredNeverDecidesAlert(stored, CurrentSnapshot(ctx, d));
  }

  // ----- three histories on which nothing was announced

  /** Alert on news only, on updates, 30 days before an end of life, CRITICAL from a rating of 1 down. */
  const NEWS_ONLY: Context := Context("host", 3, 1, false, true, true, 30, 0, true, true, None, name => true)

  /** A clean scan with this rating and this many days of support left, and what the release source says. */
  function CleanScan(rating: Option<int>, daysRemaining: int, lookup: Option<string>): Document {
    Document(rating, false, [], map[], map[], true, [], {}, NotListed(lookup), Lifecycle(true, Some(daysRemaining)), None, None)
  }

  lemma CleanSnapshot(rating: Option<int>, daysRemaining: int, lookup: Option<string>)
    ensures CurrentSnapshot(NEWS_ONLY, CleanScan(rating, daysRemaining, lookup))
            == Snapshot(RatingOf(CleanScan(rating, daysRemaining, lookup)), false, {}, None, map[], None)
  {
    assert FailingChecks([]) == {};
  }

  /** The second of two clean scans is quiet unless its grade dropped. */
  lemma SecondCleanScan(first: Document, second: Document, a: Option<int>, b: Option<int>, m: int, n: int,
                        lookup: Option<string>)
    requires first == CleanScan(a, m, None) && second == CleanScan(b, n, lookup) && RatingOf(first) <= RatingOf(second)
    ensures var runs := [Run(NEWS_ONLY, first), Run(NEWS_ONLY, second)];
            StateAt(runs, 0) == BeforeBaseline(NEWS_ONLY, first) && StateAt(runs, 1) == Ok
  {
    var runs := [Run(NEWS_ONLY, first), Run(NEWS_ONLY, second)];
    CleanSnapshot(a, m, None);
    CleanSnapshot(b, n, lookup);
    var snapshots := Snapshots(runs);
    hide CurrentSnapshot, Snapshots, BeforeBaseline;
    assert snapshots[..0] == [] && snapshots[..1] == [snapshots[0]];
    assert StoredAfter(None, snapshots[..0]) == None;
    StoredNext(None, snapshots, 0);
    assert StoredAfter(None, snapshots[..1]) == Some(snapshots[0]);
    FinalStateIs(NEWS_ONLY, first, None);
    FinalStateIs(NEWS_ONLY, second, Some(snapshots[0]));
  }

  /** The first WARNING of an approaching end of life falls into the silence: OK with 40 days left, OK with 29. */
  lemma WindowOpensInSilence() returns (runs: seq<Run>)
    ensures runs == [Run(NEWS_ONLY, CleanScan(Some(5), 40, None)), Run(NEWS_ONLY, CleanScan(Some(5), 29, None))]
    ensures BeforeBaseline(runs[1].ctx, runs[1].doc).Warning? && Silenced(runs, 1)
    ensures StateAt(runs, 0).Ok? && !Announced(runs, 1)
  {
    runs := [Run(NEWS_ONLY, CleanScan(Some(5), 40, None)), Run(NEWS_ONLY, CleanScan(Some(5), 29, None))];
    SecondCleanScan(runs[0].doc, runs[1].doc, Some(5), Some(5), 40, 29, None);
    BeforeBaselineIs(NEWS_ONLY, runs[0].doc);
    BeforeBaselineIs(NEWS_ONLY, runs[1].doc);
  }

  /** An update the release source names, but the document does not list, is news that no snapshot holds. */
  lemma LookedUpUpdateIsSilent() returns (runs: seq<Run>)
    ensures runs == [Run(NEWS_ONLY, CleanScan(Some(5), 400, None)), Run(NEWS_ONLY, CleanScan(Some(5), 400, Some("7.3.0")))]
    ensures BeforeBaseline(runs[1].ctx, runs[1].doc).Warning? && Silenced(runs, 1)
    ensures StateAt(runs, 0).Ok? && !Announced(runs, 1)
  {
    runs := [Run(NEWS_ONLY, CleanScan(Some(5), 400, None)), Run(NEWS_ONLY, CleanScan(Some(5), 400, Some("7.3.0")))];
    SecondCleanScan(runs[0].doc, runs[1].doc, Some(5), Some(5), 400, 400, Some("7.3.0"));
    BeforeBaselineIs(NEWS_ONLY, runs[0].doc);
    BeforeBaselineIs(NEWS_ONLY, runs[1].doc);
  }

  /** A grade is no worse than none at all: after a scan without a rating, a first CRITICAL one ends OK. */
  lemma UnratedRunHidesTheNext() returns (runs: seq<Run>)
    ensures runs == [Run(NEWS_ONLY, CleanScan(None, 400, None)), Run(NEWS_ONLY, CleanScan(Some(1), 400, None))]
    ensures BeforeBaseline(runs[1].ctx, runs[1].doc).Critical? && Silenced(runs, 1)
    ensures StateAt(runs, 0).Unknown? && !Announced(runs, 1)
  {
    runs := [Run(NEWS_ONLY, CleanScan(None, 400, None)), Run(NEWS_ONLY, CleanScan(Some(1), 400, None))];
    SecondCleanScan(runs[0].doc, runs[1].doc, None, Some(1), 400, 400, None);
    BeforeBaselineIs(NEWS_ONLY, runs[0].doc);
    BeforeBaselineIs(NEWS_ONLY, runs[1].doc);
  }

  lemma SnapshotKeepsEol(ctx: Context, d: Document)
    ensures CurrentSnapshot(ctx, d).eol == d.eol
  {
  }

  // ----- policy

  lemma {:induction false} NamedMembers(names: seq<string>, present: set<string>, violation: string -> Violation, v: Violation)
    ensures v in Named(names, present, violation) <==> exists n | n in names :: n in present && violation(n) == v
  {
    if names == [] {
    } else {
      NamedMembers(names[1..], present, violation, v);
      assert names == [names[0]] + names[1..];
    }
  }

  /** A policy is violated exactly when one of its three kinds of requirement is not met. */
  lemma ViolatedIff(policy: Policy, d: Document, rating: int)
    ensures Violations(policy, d, rating) != []
            <==> || (policy.minimumRating.Some? && rating < policy.minimumRating.value)
                 || (exists n | n in policy.requiredHardenings :: n in MissingHardenings(d))
                 || (exists n | n in policy.forbidden :: n in PolicyFindings(d))
  {
    NamedEmpty(policy.requiredHardenings, MissingHardenings(d), name => RequiredMissing(name));
    NamedEmpty(policy.forbidden, PolicyFindings(d), name => ForbiddenPresent(name));
  }

  /** Exactly these violations are reported, each for the requirement that is not met. */
  lemma ViolationIff(policy: Policy, d: Document, rating: int, v: Violation)
    ensures v in Violations(policy, d, rating)
            <==> match v
                 case RatingBelow(minimum) => policy.minimumRating == Some(minimum) && rating < minimum
                 case RequiredMissing(name) => name in policy.requiredHardenings && Misses(d, name)
                 case ForbiddenPresent(name) => name in policy.forbidden && PolicySees(d, name)
  {
    NamedMembers(policy.requiredHardenings, MissingHardenings(d), name => RequiredMissing(name), v);
    NamedMembers(policy.forbidden, PolicyFindings(d), name => ForbiddenPresent(name), v);
    if v.RequiredMissing? {
      MissesIff(d, v.name);
    }
    if v.ForbiddenPresent? {
      PolicySeesIff(d, v.name);
    }
    hide MissingHardenings, PolicyFindings, Misses, PolicySees, Named;
  }

  /** A run fails its policy, on settings and document: the grade is too low, a required measure absent, or a forbidden finding there. */
  lemma PolicyFailsIff(ctx: Context, d: Document)
    ensures Violated(ctx, d)
            <==> && ctx.policy != None
                 && (|| (ctx.policy.value.minimumRating != None
                         && (if d.rating != None then d.rating.value else -1) < ctx.policy.value.minimumRating.value)
                     || (exists name | name in ctx.policy.value.requiredHardenings :: Misses(d, name))
                     || (exists name | name in ctx.policy.value.forbidden :: PolicySees(d, name)))
  {
    if ctx.policy.Some? {
      ViolatedIff(ctx.policy.value, d, RatingOf(d));
      forall name
        ensures name in MissingHardenings(d) <==> Misses(d, name)
        ensures name in PolicyFindings(d) <==> PolicySees(d, name)
      {
        MissesIff(d, name);
        PolicySeesIff(d, name);
      }
    }
    hide Violations, MissingHardenings, PolicyFindings, Misses, PolicySees;
  }

  /** An absent measure, a failing check that is not waived, or an advisory with that id. */
  ghost predicate PolicySees(d: Document, name: string) {
    || Misses(d, name)
    || (exists c | c in d.extraChecks :: c.id == name && !c.passed && !c.ignored)
    || (name != "" && exists v | v in d.vulnerabilities :: v.id == name)
  }

  lemma PolicySeesIff(d: Document, name: string)
    ensures name in PolicyFindings(d) <==> PolicySees(d, name)
  {
    MissesIff(d, name);
    hide MissingHardenings, Misses;
  }

  lemma NamedEmpty(names: seq<string>, present: set<string>, violation: string -> Violation)
    ensures Named(names, present, violation) == [] <==> forall n | n in names :: n !in present
  {
    if Named(names, present, violation) != [] {
      NamedMembers(names, present, violation, Named(names, present, violation)[0]);
    }
    forall n | n in names && n in present
      ensures Named(names, present, violation) != []
    {
      NamedMembers(names, present, violation, violation(n));
    }
  }

  /** The same document with nothing waived. */
  function WithoutWaivers(d: Document): Document {
    d.(ignored := {}, extraChecks := seq(|d.extraChecks|, i requires 0 <= i < |d.extraChecks| => d.extraChecks[i].(ignored := false)))
  }

  /**
   A waiver is not meant to excuse a policy requirement. It never does for a
   required hardening or the rating, and for a forbidden id exactly when that id
   names an extra check whose every failure is waived and nothing else present.
   */
  lemma WaiverExcusesForbiddenIff(d: Document, name: string)
    ensures MissingHardenings(WithoutWaivers(d)) == MissingHardenings(d)
    ensures name in PolicyFindings(WithoutWaivers(d)) && name !in PolicyFindings(d)
            <==> && (exists c | c in d.extraChecks :: c.id == name && !c.passed)
                 && (forall c | c in d.extraChecks && c.id == name && !c.passed :: c.ignored)
                 && name !in MissingHardenings(d)
                 && (forall v | v in d.vulnerabilities :: v.id != name || v.id == "")
  {
    var w := WithoutWaivers(d);
    assert w.vulnerabilities == d.vulnerabilities;
    assert name in FailingChecks(w.extraChecks) <==> exists c | c in d.extraChecks :: c.id == name && !c.passed by {
      forall c | c in d.extraChecks && c.id == name && !c.passed
        ensures name in FailingChecks(w.extraChecks)
      {
        var i :| 0 <= i < |d.extraChecks| && d.extraChecks[i] == c;
        assert w.extraChecks[i] in w.extraChecks;
      }
      if name in FailingChecks(w.extraChecks) {
        var c :| c in w.extraChecks && !c.passed && !c.ignored && c.id == name;
        var i :| 0 <= i < |w.extraChecks| && w.extraChecks[i] == c;
        assert d.extraChecks[i] in d.extraChecks;
      }
    }
  }

  /** A policy that forbids a finding, and an instance that shows it but waived it: met with the waiver, violated without. */
  lemma WaivedCheckPassesThePolicy() returns (policy: Policy, d: Document)
    ensures policy == Policy(None, [], ["exposedLog"])
    ensures d == CleanScan(Some(5), 400, None).(extraChecks := [ExtraCheck("exposedLog", false, true, "high")])
    ensures Violations(policy, d, 5) == [] && Violations(policy, WithoutWaivers(d), 5) != []
  {
    policy := Policy(None, [], ["exposedLog"]);
    var waived := ExtraCheck("exposedLog", false, true, "high");
    d := CleanScan(Some(5), 400, None).(extraChecks := [waived]);
    var w := WithoutWaivers(d);
    assert d.extraChecks[0] in d.extraChecks;
    assert MissingHardenings(d) == {};
    WaiverExcusesForbiddenIff(d, "exposedLog");
    assert "exposedLog" in PolicyFindings(w) && "exposedLog" !in PolicyFindings(d);
    hide PolicyFindings, WithoutWaivers, MissingHardenings, Violations;
    ViolatedIff(policy, d, 5);
    ViolatedIff(policy, w, 5);
    assert policy.forbidden[0] in PolicyFindings(w);
  }

  // ----- several hosts

  function Worst(codes: seq<ExitCode>): (worst: ExitCode)
    requires codes != []
    ensures worst in codes && forall c | c in codes :: c.Priority() <= worst.Priority()
  {
    if |codes| == 1 then codes[0]
    else
      var front := Worst(codes[..|codes| - 1]);
      if codes[|codes| - 1].Priority() > front.Priority() then codes[|codes| - 1] else front
  }

  /** The overall state hides no host: it is each host's state or something worse, and some host's own. */
  lemma OverallState(codes: seq<ExitCode>)
    requires codes != []
    ensures Worst(codes).Critical? <==> Critical in codes
    ensures Worst(codes).Ok? <==> forall c | c in codes :: c.Ok?
    ensures Worst(codes).Unknown? <==> Unknown in codes && Critical !in codes && Warning !in codes
  {
    assert Worst(codes) in codes;
  }
}
