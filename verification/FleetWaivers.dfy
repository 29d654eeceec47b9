/** When each failing check of one report loses its last waiver. */
module FleetWaivers {
  import opened Sorting
  import opened Text

  /** `Never` is a permanent waiver; an expiry that cannot be read disqualifies its record. */
  datatype Expiry = Never | At(moment: int) | Unreadable

  datatype WaiverRecord = WaiverRecord(pattern: string, reason: string, expiry: Expiry, matched: seq<string>) {
    /** Whether the record still suppresses an alert at `t`: over at the stroke of the expiry. */
    predicate InForce(t: int) { expiry.Never? || (expiry.At? && t < expiry.moment) }

    function Named(): (string, string) { (pattern, reason) }
  }

  datatype Deadline = Deadline(expiresAt: int, daysLeft: int, expired: bool,
                               checks: seq<string>, waivers: seq<(string, string)>)

  const DAY: int := 86400

  /** Whole days between two moments in seconds, rounded down as a timedelta does. */
  function Days(later: int, earlier: int): int {
    (later - earlier) / DAY
  }

  predicate Covers(r: WaiverRecord, check: string, actionable: string -> bool) {
    !r.expiry.Unreadable? && check in r.matched && actionable(check)
  }

  /** The last waiver of `check` ends at `at`: some record does, and none lasts longer. */
  ghost predicate EndsAt(records: seq<WaiverRecord>, actionable: string -> bool, check: string, at: int) {
    && (exists r | r in records :: Covers(r, check, actionable) && r.expiry == At(at))
    && (forall r | r in records && Covers(r, check, actionable) :: r.expiry.At? && r.expiry.moment <= at)
  }

  ghost predicate Covered(records: seq<WaiverRecord>, actionable: string -> bool, check: string) {
    exists r | r in records :: Covers(r, check, actionable)
  }

  /** At `t` some covering record still suppresses the alert. */
  ghost predicate Silenced(records: seq<WaiverRecord>, actionable: string -> bool, check: string, t: int) {
    exists r | r in records :: Covers(r, check, actionable) && r.InForce(t)
  }

  /**
   The deadline of a check, said as an alert would see it: the check is covered,
   and it is suppressed at a moment exactly when that moment is before the deadline.
   */
  lemma DeadlineIsTheEndOfSilence(records: seq<WaiverRecord>, actionable: string -> bool, check: string, at: int)
    ensures EndsAt(records, actionable, check, at)
            <==> Covered(records, actionable, check) && forall t :: Silenced(records, actionable, check, t) <==> t < at
  {
    if EndsAt(records, actionable, check, at) {
      var last :| last in records && Covers(last, check, actionable) && last.expiry == At(at);
      forall t
        ensures Silenced(records, actionable, check, t) <==> t < at
      {
        assert t < at ==> last.InForce(t);
      }
    }
    if Covered(records, actionable, check) && forall t :: Silenced(records, actionable, check, t) <==> t < at {
      assert Silenced(records, actionable, check, at - 1) && !Silenced(records, actionable, check, at);
      var last :| last in records && Covers(last, check, actionable) && last.InForce(at - 1);
      forall r | r in records && Covers(r, check, actionable)
        ensures r.expiry.At? && r.expiry.moment <= at
      {
        assert !r.InForce(at);
      }
    }
  }

  /** A permanent record covers its checks for good: they have no deadline. */
  lemma PermanentNeverEnds(records: seq<WaiverRecord>, actionable: string -> bool, check: string, at: int, r: WaiverRecord)
    requires r in records && Covers(r, check, actionable) && r.expiry.Never?
    ensures !EndsAt(records, actionable, check, at)
  {
  }

  ghost predicate DistinctStrings(s: seq<string>) {
    forall i, j | 0 <= i < j < |s| :: s[i] != s[j]
  }

  ghost predicate DistinctNames(s: seq<(string, string)>) {
    forall i, j | 0 <= i < j < |s| :: s[i] != s[j]
  }

  /** `covering` holds, for each check, exactly the records among `records` that cover it. */
  ghost predicate CoversBy(covering: map<string, seq<WaiverRecord>>, order: seq<string>,
                           records: seq<WaiverRecord>, actionable: string -> bool)
  {
    && DistinctStrings(order) && (forall check :: check in order <==> check in covering)
    && (forall check | check in covering :: covering[check] != []
          && forall r :: r in covering[check] <==> r in records && Covers(r, check, actionable))
    && (forall r, check | r in records && Covers(r, check, actionable) :: check in covering)
  }

  /** `covering` after the first checks `done` of a record. */
  ghost predicate CoversNext(covering: map<string, seq<WaiverRecord>>, order: seq<string>, before: map<string, seq<WaiverRecord>>,
                             record: WaiverRecord, done: seq<string>, actionable: string -> bool)
  {
    && DistinctStrings(order) && (forall check :: check in order <==> check in covering)
    && (forall check :: check in covering <==> check in before || (check in done && actionable(check)))
    && (forall check | check in covering :: covering[check] != []
          && forall r :: r in covering[check] <==>
               (check in before && r in before[check]) || (r == record && check in done && actionable(check)))
  }

  method CoverChecks(before: map<string, seq<WaiverRecord>>, known: seq<string>, record: WaiverRecord, actionable: string -> bool)
      returns (covering: map<string, seq<WaiverRecord>>, order: seq<string>)
    requires DistinctStrings(known) && (forall check :: check in known <==> check in before)
    requires forall check | check in before :: before[check] != []
    ensures CoversNext(covering, order, before, record, record.matched, actionable)
  {
    covering, order := before, known;
    for k := 0 to |record.matched|
      invariant CoversNext(covering, order, before, record, record.matched[..k], actionable)
    {
      var check := record.matched[k];
      assert record.matched[..k + 1] == record.matched[..k] + [check];
      if actionable(check) {
        if check !in covering {
          covering := covering[check := []];
          order := order + [check];
        }
        covering := covering[check := covering[check] + [record]];
      }
    }
    assert record.matched[..|record.matched|] == record.matched;
  }

  lemma CoversAfter(covering: map<string, seq<WaiverRecord>>, order: seq<string>, before: map<string, seq<WaiverRecord>>,
                    known: seq<string>, records: seq<WaiverRecord>, record: WaiverRecord, actionable: string -> bool)
    requires CoversBy(before, known, records, actionable)
    requires if record.expiry.Unreadable? then covering == before && order == known
             else CoversNext(covering, order, before, record, record.matched, actionable)
    ensures CoversBy(covering, order, records + [record], actionable)
  {
    hide DistinctStrings;
    assert forall r :: r in records + [record] <==> r in records || r == record;
  }

  method Covering(records: seq<WaiverRecord>, actionable: string -> bool)
      returns (covering: map<string, seq<WaiverRecord>>, order: seq<string>)
    ensures CoversBy(covering, order, records, actionable)
  {
    covering, order := map[], [];
    for i := 0 to |records|
      invariant CoversBy(covering, order, records[..i], actionable)
    {
      var record := records[i];
      assert records[..i + 1] == records[..i] + [record];
      ghost var before, known := covering, order;
      if !record.expiry.Unreadable? {
        covering, order := CoverChecks(covering, order, record, actionable);
      }
      CoversAfter(covering, order, before, known, records[..i], record, actionable);
    }
    assert records[..|records|] == records;
  }

  method LatestMoment(records: seq<WaiverRecord>) returns (at: int)
    requires records != [] && forall r | r in records :: r.expiry.At?
    ensures exists r | r in records :: r.expiry == At(at)
    ensures forall r | r in records :: r.expiry.moment <= at
  {
    at := records[0].expiry.moment;
    for i := 0 to |records|
      invariant exists r | r in records :: r.expiry == At(at)
      invariant forall k | 0 <= k < i :: records[k].expiry.moment <= at
    {
      if records[i].expiry.moment > at {
        at := records[i].expiry.moment;
      }
    }
  }

  datatype Ending = Ending(checks: seq<string>, waivers: seq<(string, string)>)

  /** Some check of the entry is covered by a record of this pattern and reason that ends at `at`. */
  ghost predicate NamedAt(records: seq<WaiverRecord>, actionable: string -> bool, checks: seq<string>, at: int, named: (string, string)) {
    exists r, check | r in records && check in checks :: Covers(r, check, actionable) && r.expiry == At(at) && r.Named() == named
  }

  /** One entry of the table: the checks of `done` whose last waiver ends at `at`, and the waivers that do. */
  ghost predicate EndingOf(e: Ending, at: int, done: seq<string>, records: seq<WaiverRecord>, actionable: string -> bool) {
    && (forall check :: check in e.checks <==> check in done && EndsAt(records, actionable, check, at))
    && DistinctStrings(e.checks) && DistinctNames(e.waivers)
    && (forall named :: named in e.waivers <==> NamedAt(records, actionable, e.checks, at, named))
  }

  ghost predicate Table(ends: map<int, Ending>, moments: seq<int>, done: seq<string>, records: seq<WaiverRecord>, actionable: string -> bool) {
    && (forall at :: at in moments <==> at in ends)
    && (forall i, j | 0 <= i < j < |moments| :: moments[i] != moments[j])
    && (forall at | at in ends :: EndingOf(ends[at], at, done, records, actionable))
    && (forall check, at | check in done && EndsAt(records, actionable, check, at) :: at in ends)
  }

  /** Append what the covering records of one check name at `at`, each once. */
  method AddNamed(waivers: seq<(string, string)>, covering: seq<WaiverRecord>, at: int) returns (all: seq<(string, string)>)
    requires DistinctNames(waivers)
    ensures DistinctNames(all)
    ensures forall named :: named in all <==> named in waivers || exists r | r in covering :: r.expiry == At(at) && r.Named() == named
  {
    all := waivers;
    for i := 0 to |covering|
      invariant DistinctNames(all)
      invariant forall named :: named in all <==>
                  named in waivers || exists k | 0 <= k < i :: covering[k].expiry == At(at) && covering[k].Named() == named
    {
      var named := covering[i].Named();
      if covering[i].expiry == At(at) && named !in all {
        all := all + [named];
      }
    }
  }

  /** A check that was not reached yet, or never ends, adds nothing to the table. */
  lemma NothingToAdd(ends: map<int, Ending>, moments: seq<int>, done: seq<string>, check: string,
                     records: seq<WaiverRecord>, actionable: string -> bool)
    requires Table(ends, moments, done, records, actionable)
    requires forall at :: !EndsAt(records, actionable, check, at)
    ensures Table(ends, moments, done + [check], records, actionable)
  {
  }

  lemma WaiversNamed(before: Ending, entry: Ending, check: string, at: int, covering: seq<WaiverRecord>,
                     records: seq<WaiverRecord>, actionable: string -> bool, named: (string, string))
    requires named in before.waivers <==> NamedAt(records, actionable, before.checks, at, named)
    requires forall r :: r in covering <==> r in records && Covers(r, check, actionable)
    requires entry.checks == before.checks + [check]
    requires named in entry.waivers <==>
               named in before.waivers || exists r | r in covering :: r.expiry == At(at) && r.Named() == named
    ensures named in entry.waivers <==> NamedAt(records, actionable, entry.checks, at, named)
  {
    hide Covers;
    if r, c :| r in records && c in entry.checks && Covers(r, c, actionable) && r.expiry == At(at) && r.Named() == named {
      assert c == check ==> r in covering;
      assert c != check ==> c in before.checks;
    }
    if r, c :| r in records && c in before.checks && Covers(r, c, actionable) && r.expiry == At(at) && r.Named() == named {
      assert c in entry.checks;
    }
    if r :| r in covering && r.expiry == At(at) && r.Named() == named {
      assert check in entry.checks;
    }
  }

  lemma EndAdded(ends: map<int, Ending>, moments: seq<int>, done: seq<string>, check: string, at: int,
                 covering: seq<WaiverRecord>, entry: Ending,
                 records: seq<WaiverRecord>, actionable: string -> bool)
    requires Table(ends, moments, done, records, actionable) && check !in done
    requires EndsAt(records, actionable, check, at)
    requires forall r :: r in covering <==> r in records && Covers(r, check, actionable)
    requires var before := if at in ends then ends[at] else Ending([], []);
             && entry.checks == before.checks + [check] && DistinctNames(entry.waivers)
             && forall named :: named in entry.waivers <==>
                  named in before.waivers || exists r | r in covering :: r.expiry == At(at) && r.Named() == named
    ensures Table(ends[at := entry], if at in ends then moments else moments + [at], done + [check], records, actionable)
  {
    var before := if at in ends then ends[at] else Ending([], []);
    assert EndingOf(before, at, done, records, actionable);
    forall named
      ensures named in entry.waivers <==> NamedAt(records, actionable, entry.checks, at, named)
    {
      WaiversNamed(before, entry, check, at, covering, records, actionable, named);
    }
    OneMomentEach(records, actionable, check, at);
    hide NamedAt, EndsAt, Covers;
    assert EndingOf(entry, at, done + [check], records, actionable);
  }

  lemma OneMomentEach(records: seq<WaiverRecord>, actionable: string -> bool, check: string, at: int)
    requires EndsAt(records, actionable, check, at)
    ensures forall other | EndsAt(records, actionable, check, other) :: other == at
  {
  }

  /** Enter one check under the moment its last waiver ends, unless one of them never does. */
  method AddEnding(ends: map<int, Ending>, moments: seq<int>, check: string, mine: seq<WaiverRecord>,
                   ghost done: seq<string>, ghost records: seq<WaiverRecord>, ghost actionable: string -> bool)
      returns (ends': map<int, Ending>, moments': seq<int>)
    requires Table(ends, moments, done, records, actionable) && check !in done
    requires mine != [] && forall r :: r in mine <==> r in records && Covers(r, check, actionable)
    ensures Table(ends', moments', done + [check], records, actionable)
  {
    if exists k | 0 <= k < |mine| :: mine[k].expiry.Never? {
      NothingToAdd(ends, moments, done, check, records, actionable);
      return ends, moments;
    }
    var at := LatestMoment(mine);
    assert EndsAt(records, actionable, check, at);
    assert forall k :: k in moments <==> k in ends;
    hide Table, EndsAt, Covers;
    var entry := if at in ends then ends[at] else Ending([], []);
    var waivers := AddNamed(entry.waivers, mine, at);
    entry := Ending(entry.checks + [check], waivers);
    EndAdded(ends, moments, done, check, at, mine, entry, records, actionable);
    return ends[at := entry], if at in ends then moments else moments + [at];
  }

  predicate Before(a: int, b: int) { a <= b }

  /** What the table of one report has to be. */
  ghost predicate Deadlines(ds: seq<Deadline>, records: seq<WaiverRecord>, actionable: string -> bool, now: int) {
    && (forall i, j | 0 <= i < j < |ds| :: ds[i].expiresAt < ds[j].expiresAt)
    && (forall i | 0 <= i < |ds| ::
          && ds[i].daysLeft == Days(ds[i].expiresAt, now) && (ds[i].expired <==> ds[i].expiresAt <= now)
          && DistinctStrings(ds[i].checks) && DistinctNames(ds[i].waivers)
          && (forall check :: check in ds[i].checks <==> EndsAt(records, actionable, check, ds[i].expiresAt))
          && (forall named :: named in ds[i].waivers <==>
                NamedAt(records, actionable, ds[i].checks, ds[i].expiresAt, named)))
    && (forall check, at | EndsAt(records, actionable, check, at) :: exists i | 0 <= i < |ds| :: ds[i].expiresAt == at)
  }

  /**
   The deadlines of one report: strictly increasing moments, each with exactly
   the checks whose last waiver ends then and exactly the waivers ending then
   that cover one of them.
   */
  method WaiverDeadlines(records: seq<WaiverRecord>, actionable: string -> bool, now: int) returns (ds: seq<Deadline>)
    ensures Deadlines(ds, records, actionable, now)
  {
    var covering, order := Covering(records, actionable);
    var checks := Sort(order, StringLeq);
    OrderOfChecks(order);
    var ends, moments: seq<int> := map[], [];
    for i := 0 to |checks|
      invariant Table(ends, moments, checks[..i], records, actionable)
    {
      var check := checks[i];
      assert checks[..i + 1] == checks[..i] + [check];
      assert check in checks && check in covering;
      ends, moments := AddEnding(ends, moments, check, covering[check], checks[..i], records, actionable);
    }
    assert checks[..|checks|] == checks;
    var sorted := Sort(moments, Before);
    SortedMoments(moments);
    ds := [];
    for i := 0 to |sorted|
      invariant |ds| == i
      invariant forall k | 0 <= k < i ::
                  ds[k] == Deadline(sorted[k], Days(sorted[k], now), sorted[k] <= now, ends[sorted[k]].checks, ends[sorted[k]].waivers)
    {
      var at := sorted[i];
      assert at in sorted;
      ds := ds + [Deadline(at, Days(at, now), at <= now, ends[at].checks, ends[at].waivers)];
    }
    TableIsComplete(ds, sorted, ends, moments, checks, covering, order, records, actionable, now);
  }

  lemma OrderOfChecks(order: seq<string>)
    requires DistinctStrings(order)
    ensures DistinctStrings(Sort(order, StringLeq)) && forall check :: check in Sort(order, StringLeq) <==> check in order
  {
    forall check
      ensures check in Sort(order, StringLeq) <==> check in order
    {
      SortMembers(order, StringLeq, check);
    }
    SortContents(order, StringLeq);
    DistinctByContents(order, Sort(order, StringLeq));
  }

  lemma SortedMoments(moments: seq<int>)
    requires forall i, j | 0 <= i < j < |moments| :: moments[i] != moments[j]
    ensures var sorted := Sort(moments, Before);
            && (forall at :: at in sorted <==> at in moments)
            && forall i, j | 0 <= i < j < |sorted| :: sorted[i] < sorted[j]
  {
    var sorted := Sort(moments, Before);
    forall at
      ensures at in sorted <==> at in moments
    {
      SortMembers(moments, Before, at);
    }
    SortOrdered(moments, Before);
    SortContents(moments, Before);
    DistinctByContents(moments, sorted);
    forall i, j | 0 <= i < j < |sorted|
      ensures sorted[i] < sorted[j]
    {
      assert Before(sorted[i], sorted[j]);
    }
  }

  lemma TableIsComplete(ds: seq<Deadline>, sorted: seq<int>, ends: map<int, Ending>, moments: seq<int>, checks: seq<string>,
                        covering: map<string, seq<WaiverRecord>>, order: seq<string>,
                        records: seq<WaiverRecord>, actionable: string -> bool, now: int)
    requires CoversBy(covering, order, records, actionable)
    requires forall check :: check in checks <==> check in order
    requires Table(ends, moments, checks, records, actionable)
    requires forall at :: at in sorted <==> at in moments
    requires forall i, j | 0 <= i < j < |sorted| :: sorted[i] < sorted[j]
    requires |ds| == |sorted|
    requires forall k | 0 <= k < |ds| :: sorted[k] in ends &&
               ds[k] == Deadline(sorted[k], Days(sorted[k], now), sorted[k] <= now, ends[sorted[k]].checks, ends[sorted[k]].waivers)
    ensures Deadlines(ds, records, actionable, now)
  {
    forall i | 0 <= i < |ds|
      ensures forall check :: check in ds[i].checks <==> EndsAt(records, actionable, check, ds[i].expiresAt)
    {
      assert EndingOf(ends[sorted[i]], sorted[i], checks, records, actionable);
      forall check | EndsAt(records, actionable, check, ds[i].expiresAt)
        ensures check in checks
      {
        var r :| r in records && Covers(r, check, actionable);
      }
    }
    forall check, at | EndsAt(records, actionable, check, at)
      ensures exists i | 0 <= i < |ds| :: ds[i].expiresAt == at
    {
      var r :| r in records && Covers(r, check, actionable);
      assert at in sorted;
      var i :| 0 <= i < |sorted| && sorted[i] == at;
      assert ds[i].expiresAt == at;
    }
  }

  /** The simple reading of the table, check by check: one entry and the right one, or none at all. */
  lemma EachCheckOnce(ds: seq<Deadline>, records: seq<WaiverRecord>, actionable: string -> bool, now: int, check: string)
    requires Deadlines(ds, records, actionable, now)
    ensures (exists i | 0 <= i < |ds| :: check in ds[i].checks)
            <==> Covered(records, actionable, check)
                 && forall r | r in records && Covers(r, check, actionable) :: !r.expiry.Never?
    ensures forall i, j | 0 <= i < |ds| && 0 <= j < |ds| && check in ds[i].checks && check in ds[j].checks :: i == j
    ensures forall i | 0 <= i < |ds| && check in ds[i].checks ::
              forall t :: Silenced(records, actionable, check, t) <==> t < ds[i].expiresAt
  {
    forall i | 0 <= i < |ds| && check in ds[i].checks
      ensures forall t :: Silenced(records, actionable, check, t) <==> t < ds[i].expiresAt
    {
      DeadlineIsTheEndOfSilence(records, actionable, check, ds[i].expiresAt);
    }
    if Covered(records, actionable, check) && forall r | r in records && Covers(r, check, actionable) :: !r.expiry.Never? {
      var at := LastDeadline(records, actionable, check);
      var i :| 0 <= i < |ds| && ds[i].expiresAt == at;
      assert check in ds[i].checks;
    }
    forall i, j | 0 <= i < |ds| && 0 <= j < |ds| && check in ds[i].checks && check in ds[j].checks
      ensures i == j
    {
      var a, b := ds[i].expiresAt, ds[j].expiresAt;
      assert EndsAt(records, actionable, check, a) && EndsAt(records, actionable, check, b);
      assert a == b;
    }
  }

  lemma {:induction false} LastDeadline(records: seq<WaiverRecord>, actionable: string -> bool, check: string) returns (at: int)
    requires Covered(records, actionable, check)
    requires forall r | r in records && Covers(r, check, actionable) :: !r.expiry.Never?
    ensures EndsAt(records, actionable, check, at)
  {
    var front, last := records[..|records| - 1], records[|records| - 1];
    assert records == front + [last];
    if Covered(front, actionable, check) {
      at := LastDeadline(front, actionable, check);
      if Covers(last, check, actionable) && last.expiry.moment > at {
        at := last.expiry.moment;
      }
    } else {
      assert Covers(last, check, actionable);
      at := last.expiry.moment;
    }
  }

  /** The record silences this check for as long as it lasts, read off its fields. */
  predicate NamesCheck(r: WaiverRecord, check: string, actionable: string -> bool) {
    r.expiry != Unreadable && check in r.matched && actionable(check)
  }

  /**
   A table entry on the fields of the records: a check is under the moment at which
   some record naming it ends and after which none does; days are whole ones, and a
   deadline is over from its own second on.
   */
  lemma DeadlineOnFields(ds: seq<Deadline>, records: seq<WaiverRecord>, actionable: string -> bool, now: int, i: nat, check: string)
    requires Deadlines(ds, records, actionable, now) && i < |ds|
    ensures var at := ds[i].expiresAt;
            && (check in ds[i].checks
                <==> && (exists r | r in records :: NamesCheck(r, check, actionable) && r.expiry == At(at))
                     && (forall r | r in records && NamesCheck(r, check, actionable) :: r.expiry.At? && r.expiry.moment <= at))
            && 86400 * ds[i].daysLeft <= at - now < 86400 * (ds[i].daysLeft + 1)
            && (ds[i].expired <==> at - now <= 0)
  {
    assert forall r: WaiverRecord :: Covers(r, check, actionable) <==> NamesCheck(r, check, actionable);
    hide Covers, NamesCheck;
    assert check in ds[i].checks <==> EndsAt(records, actionable, check, ds[i].expiresAt);
  }

  /** The waivers a table entry shows are those that end then and name one of its checks, by pattern and reason. */
  lemma WaiversOnFields(ds: seq<Deadline>, records: seq<WaiverRecord>, actionable: string -> bool, now: int, i: nat, pattern: string, reason: string)
    requires Deadlines(ds, records, actionable, now) && i < |ds|
    ensures (pattern, reason) in ds[i].waivers
            <==> exists r, check | r in records && check in ds[i].checks ::
                   r.pattern == pattern && r.reason == reason && r.expiry == At(ds[i].expiresAt) && NamesCheck(r, check, actionable)
  {
    forall r: WaiverRecord, check
      ensures Covers(r, check, actionable) <==> NamesCheck(r, check, actionable)
    {
    }
    hide Covers, NamesCheck, EndsAt;
    assert (pattern, reason) in ds[i].waivers <==> NamedAt(records, actionable, ds[i].checks, ds[i].expiresAt, (pattern, reason));
  }
}
