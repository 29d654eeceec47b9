/** The waiver deadlines of a whole fleet: those of every scanned host, cut at the window and put in order. */
module FleetDeadlines {
  import opened Sorting
  import opened Text
  import opened Fleet
  import opened FleetWaivers

  /** A deadline and the host it is on. */
  datatype Due = Due(host: string, deadline: Deadline)

  /** Soonest first, then by host. */
  predicate DueLeq(a: Due, b: Due) {
    if a.deadline.expiresAt != b.deadline.expiresAt then a.deadline.expiresAt < b.deadline.expiresAt
    else StringLeq(a.host, b.host)
  }

  /** The list shows that this check of this host ends at this moment. */
  predicate Shows(due: seq<Due>, host: string, check: string, at: int) {
    exists i | 0 <= i < |due| :: due[i].host == host && due[i].deadline.expiresAt == at && check in due[i].deadline.checks
  }

  /** The last waiver of the check ends then, at most `windowDays` from now or already. */
  ghost predicate EndsWithin(r: Report, actionable: string -> bool, now: int, windowDays: int, check: string, at: int) {
    !r.Failed() && EndsAt(r.waivers, actionable, check, at) && Days(at, now) <= windowDays
  }

  ghost predicate SomeEndsWithin(reports: seq<Report>, actionable: string -> bool, now: int, windowDays: int,
                                 host: string, check: string, at: int) {
    exists r | r in reports :: r.host == host && EndsWithin(r, actionable, now, windowDays, check, at)
  }

  /** In order, and showing for every check exactly the end of its silence, when that is near enough. */
  ghost predicate DueList(due: seq<Due>, reports: seq<Report>, actionable: string -> bool, now: int, windowDays: int) {
    && Ordered(due, DueLeq)
    && (forall host, check, at :: Shows(due, host, check, at) <==> SomeEndsWithin(reports, actionable, now, windowDays, host, check, at))
  }

  lemma ShowsConcat(a: seq<Due>, b: seq<Due>, host: string, check: string, at: int)
    ensures Shows(a + b, host, check, at) <==> Shows(a, host, check, at) || Shows(b, host, check, at)
  {
    var all := a + b;
    if i :| 0 <= i < |a| && a[i].host == host && a[i].deadline.expiresAt == at && check in a[i].deadline.checks {
      assert all[i] == a[i];
    }
    if i :| 0 <= i < |b| && b[i].host == host && b[i].deadline.expiresAt == at && check in b[i].deadline.checks {
      assert all[|a| + i] == b[i];
    }
  }

  /** The deadlines of one scanned host that are near enough. */
  method DueOn(r: Report, actionable: string -> bool, now: int, windowDays: int) returns (due: seq<Due>)
    requires !r.Failed()
    ensures forall host, check, at ::
              Shows(due, host, check, at) <==> r.host == host && EndsWithin(r, actionable, now, windowDays, check, at)
  {
    var ds := WaiverDeadlines(r.waivers, actionable, now);
    due := [];
    for i := 0 to |ds|
      invariant forall d | d in due :: d.host == r.host && d.deadline in ds && d.deadline.daysLeft <= windowDays
      invariant forall k | 0 <= k < i && ds[k].daysLeft <= windowDays :: Due(r.host, ds[k]) in due
    {
      if ds[i].daysLeft <= windowDays {
        due := due + [Due(r.host, ds[i])];
      }
    }
    forall host, check, at
      ensures Shows(due, host, check, at) <==> r.host == host && EndsWithin(r, actionable, now, windowDays, check, at)
    {
      DueOnHost(due, ds, r, actionable, now, windowDays, host, check, at);
    }
  }

  lemma DueOnHost(due: seq<Due>, ds: seq<Deadline>, r: Report, actionable: string -> bool, now: int, windowDays: int,
                  host: string, check: string, at: int)
    requires !r.Failed() && Deadlines(ds, r.waivers, actionable, now)
    requires forall d | d in due :: d.host == r.host && d.deadline in ds && d.deadline.daysLeft <= windowDays
    requires forall d | d in ds && d.daysLeft <= windowDays :: Due(r.host, d) in due
    ensures Shows(due, host, check, at) <==> r.host == host && EndsWithin(r, actionable, now, windowDays, check, at)
  {
    hide EndsAt;
    if i :| 0 <= i < |due| && due[i].host == host && due[i].deadline.expiresAt == at && check in due[i].deadline.checks {
      assert due[i] in due;
      var k :| 0 <= k < |ds| && ds[k] == due[i].deadline;
      assert EndsAt(r.waivers, actionable, check, ds[k].expiresAt);
    }
    if r.host == host && EndsWithin(r, actionable, now, windowDays, check, at) {
      var k :| 0 <= k < |ds| && ds[k].expiresAt == at;
      assert check in ds[k].checks && ds[k] in ds;
      var i :| 0 <= i < |due| && due[i] == Due(r.host, ds[k]);
    }
  }

  /** The waiver deadlines of the summary. */
  method UpcomingDeadlines(reports: seq<Report>, actionable: string -> bool, now: int, windowDays: int) returns (due: seq<Due>)
    ensures DueList(due, reports, actionable, now, windowDays)
  {
    var all: seq<Due> := [];
    for i := 0 to |reports|
      invariant forall host, check, at ::
                  Shows(all, host, check, at) <==> SomeEndsWithin(reports[..i], actionable, now, windowDays, host, check, at)
    {
      var r := reports[i];
      assert reports[..i + 1] == reports[..i] + [r];
      if r.Failed() {
        forall host, check, at
          ensures SomeEndsWithin(reports[..i + 1], actionable, now, windowDays, host, check, at)
                  <==> SomeEndsWithin(reports[..i], actionable, now, windowDays, host, check, at)
        {
          OneReportMore(reports[..i], r, actionable, now, windowDays, host, check, at);
        }
        continue;
      }
      var more := DueOn(r, actionable, now, windowDays);
      forall host, check, at
        ensures Shows(all + more, host, check, at)
                <==> SomeEndsWithin(reports[..i + 1], actionable, now, windowDays, host, check, at)
      {
        ShowsConcat(all, more, host, check, at);
        OneReportMore(reports[..i], r, actionable, now, windowDays, host, check, at);
      }
      all := all + more;
    }
    assert reports[..|reports|] == reports;
    due := Sort(all, DueLeq);
    DueOrder();
    SortOrdered(all, DueLeq);
    forall host, check, at
      ensures Shows(due, host, check, at) <==> Shows(all, host, check, at)
    {
      ShowsSorted(all, host, check, at);
    }
  }

  lemma OneReportMore(reports: seq<Report>, r: Report, actionable: string -> bool, now: int, windowDays: int,
                      host: string, check: string, at: int)
    ensures SomeEndsWithin(reports + [r], actionable, now, windowDays, host, check, at)
            <==> || SomeEndsWithin(reports, actionable, now, windowDays, host, check, at)
                 || (r.host == host && EndsWithin(r, actionable, now, windowDays, check, at))
  {
    hide EndsWithin;
    assert forall q :: q in reports + [r] <==> q in reports || q == r;
  }

  lemma ShowsSorted(all: seq<Due>, host: string, check: string, at: int)
    ensures Shows(Sort(all, DueLeq), host, check, at) <==> Shows(all, host, check, at)
  {
    var due := Sort(all, DueLeq);
    hide Sort, DueLeq;
    forall d
      ensures d in due <==> d in all
    {
      SortMembers(all, DueLeq, d);
    }
    if i :| 0 <= i < |all| && all[i].host == host && all[i].deadline.expiresAt == at && check in all[i].deadline.checks {
      assert all[i] in due;
    }
    if i :| 0 <= i < |due| && due[i].host == host && due[i].deadline.expiresAt == at && check in due[i].deadline.checks {
      assert due[i] in all;
    }
  }

  lemma DueOrder()
    ensures TotalPreorder(DueLeq)
  {
    hide StringLeq;
    forall a, b
      ensures DueLeq(a, b) || DueLeq(b, a)
    {
      StringLeqTotal(a.host, b.host);
    }
    forall a, b, c | DueLeq(a, b) && DueLeq(b, c)
      ensures DueLeq(a, c)
    {
      if StringLeq(a.host, b.host) && StringLeq(b.host, c.host) {
        StringLeqTransitive(a.host, b.host, c.host);
      }
    }
  }

  /** Two lines of the list: the sooner deadline first, then the host. */
  lemma SoonestFirst(due: seq<Due>, i: nat, j: nat)
    requires Ordered(due, DueLeq) && i < j < |due|
    ensures due[i].deadline.expiresAt <= due[j].deadline.expiresAt
    ensures due[i].deadline.expiresAt == due[j].deadline.expiresAt ==> StringLeq(due[i].host, due[j].host)
  {
    hide StringLeq;
    assert DueLeq(due[i], due[j]);
  }

  /** The list on the fields of the reports: what some scan that succeeded lets end before the window is over. */
  lemma DueOnFields(due: seq<Due>, reports: seq<Report>, actionable: string -> bool, now: int, windowDays: int,
                    host: string, check: string, at: int)
    requires DueList(due, reports, actionable, now, windowDays)
    ensures Shows(due, host, check, at)
            <==> exists r | r in reports ::
                   && r.host == host && r.error == ""
                   && at - now < 86400 * (windowDays + 1)
                   && (exists w | w in r.waivers :: NamesCheck(w, check, actionable) && w.expiry == At(at))
                   && (forall w | w in r.waivers && NamesCheck(w, check, actionable) :: w.expiry.At? && w.expiry.moment <= at)
  {
    forall w: WaiverRecord
      ensures Covers(w, check, actionable) <==> NamesCheck(w, check, actionable)
    {
    }
    hide Covers, NamesCheck, Shows, Ordered;
    assert Days(at, now) <= windowDays <==> at - now < 86400 * (windowDays + 1);
    hide Days;
  }
}
