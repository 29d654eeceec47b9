/** What a scan looked at: the recorder, and the counts readers take from its block. */
module Coverage {
  import opened Wrappers
  import opened Sorting
  import opened Text
  import opened Documents

  const NOT_APPLICABLE := "not_applicable"
  const PROBE_DISABLED := "probe_disabled"
  const PREREQUISITE_MISSING := "prerequisite_missing"
  const TIMEOUT := "timeout"
  const UNREADABLE := "unreadable"
  const NO_ROUTE := "no_route"

  const REASONS: set<string> :=
    {NOT_APPLICABLE, PROBE_DISABLED, PREREQUISITE_MISSING, TIMEOUT, UNREADABLE, NO_ROUTE}

  const NETWORK_LIMITED: set<string> := {TIMEOUT, NO_ROUTE}

  /** What an entry has to be to be constructed at all. */
  predicate ValidEntry(e: CoverageRow) {
    && !e.state.Unrecognised?
    && (e.reason != "" ==> e.reason in REASONS)
    && (e.state.Passed? || e.state.Failed? <==> e.reason == "")
  }

  predicate Recorded(entries: seq<CoverageRow>, id: string) {
    exists i | 0 <= i < |entries| :: entries[i].id == id
  }

  ghost predicate UniqueRows(rows: seq<CoverageRow>) {
    forall i, j | 0 <= i < j < |rows| :: rows[i].id != rows[j].id
  }

  /** `setdefault`: the first entry recorded for a check stays. */
  function Added(entries: seq<CoverageRow>, e: CoverageRow): seq<CoverageRow> {
    if Recorded(entries, e.id) then entries else entries + [e]
  }

  predicate RowLeq(a: CoverageRow, b: CoverageRow) {
    PairLeq((a.group, a.id), (b.group, b.id))
  }

  datatype Counts = Counts(passed: nat, failed: nat, notChecked: nat, inconclusive: nat)

  function CountState(rows: seq<CoverageRow>, state: State): nat {
    if rows == [] then 0
    else CountState(rows[..|rows| - 1], state) + (if rows[|rows| - 1].state == state then 1 else 0)
  }

  function CountsOf(rows: seq<CoverageRow>): Counts {
    Counts(CountState(rows, Passed), CountState(rows, Failed),
           CountState(rows, NotChecked), CountState(rows, Inconclusive))
  }

  /** One recorder per scan; `entries` is its dictionary in insertion order. */
  class CoverageRecorder {
    var entries: seq<CoverageRow>

    ghost predicate Valid()
      reads this
    {
      UniqueRows(entries) && forall e | e in entries :: ValidEntry(e)
    }

    constructor ()
      ensures Valid() && entries == []
    {
      entries := [];
    }

    method Measured(check: string, group: string, passed: bool)
      requires Valid()
      modifies this
      ensures Valid()
      ensures entries == Added(old(entries), CoverageRow(check, group, if passed then Passed else Failed, ""))
    {
      Add(CoverageRow(check, group, if passed then Passed else Failed, ""));
    }

    /** Refuses, changing nothing, a reason that is not one of the known ones. */
    method Skipped(check: string, group: string, reason: string) returns (accepted: bool)
      requires Valid()
      modifies this
      ensures Valid() && accepted == (reason in REASONS)
      ensures entries == if accepted then Added(old(entries), CoverageRow(check, group, NotChecked, reason)) else old(entries)
    {
      accepted := ValidEntry(CoverageRow(check, group, NotChecked, reason));
      if accepted {
        Add(CoverageRow(check, group, NotChecked, reason));
      }
    }

    method Inconclusive(check: string, group: string, reason: string) returns (accepted: bool)
      requires Valid()
      modifies this
      ensures Valid() && accepted == (reason in REASONS)
      ensures entries == if accepted then Added(old(entries), CoverageRow(check, group, State.Inconclusive, reason)) else old(entries)
    {
      accepted := ValidEntry(CoverageRow(check, group, State.Inconclusive, reason));
      if accepted {
        Add(CoverageRow(check, group, State.Inconclusive, reason));
      }
    }

    method Add(e: CoverageRow)
      requires Valid() && ValidEntry(e)
      modifies this
      ensures Valid() && entries == Added(old(entries), e)
    {
      if !Recorded(entries, e.id) {
        entries := entries + [e];
      }
    }

    /** The rows of the document's coverage block. */
    function Rows(): seq<CoverageRow>
      reads this
    {
      Sort(entries, RowLeq)
    }
  }

  /** Recording a check again, in whatever state, changes nothing: the first decision is the one reported. */
  lemma FirstWriteWins(entries: seq<CoverageRow>, first: CoverageRow, second: CoverageRow)
    requires first.id == second.id
    ensures Added(Added(entries, first), second) == Added(entries, first)
  {
    var once := Added(entries, first);
    if !Recorded(entries, first.id) {
      assert once[|entries|].id == first.id;
    }
  }

  /** The block lists what was recorded, each check once, in group order. */
  lemma RowsListEntries(entries: seq<CoverageRow>)
    requires UniqueRows(entries)
    ensures var rows := Sort(entries, RowLeq);
            UniqueRows(rows) && Ordered(rows, RowLeq) && (forall r :: r in rows <==> r in entries)
  {
    var rows := Sort(entries, RowLeq);
    forall a: CoverageRow, b: CoverageRow, c: CoverageRow
      ensures RowLeq(a, b) || RowLeq(b, a)
      ensures RowLeq(a, b) && RowLeq(b, c) ==> RowLeq(a, c)
    {
      PairLeqOrders((a.group, a.id), (b.group, b.id), (c.group, c.id));
    }
    SortOrdered(entries, RowLeq);
    SortContents(entries, RowLeq);
    forall r
      ensures r in rows <==> r in entries
    {
      SortMembers(entries, RowLeq, r);
    }
    SortKeepsUnique(entries);
  }

  lemma {:induction false} InsertKeepsUnique(e: CoverageRow, rows: seq<CoverageRow>)
    requires UniqueRows(rows) && forall r | r in rows :: r.id != e.id
    ensures UniqueRows(Insert(e, rows, RowLeq))
    ensures forall r :: r in Insert(e, rows, RowLeq) <==> r == e || r in rows
  {
    if rows != [] && !RowLeq(e, rows[0]) {
      InsertKeepsUnique(e, rows[1..]);
      var inserted := Insert(e, rows[1..], RowLeq);
      assert rows == [rows[0]] + rows[1..];
      forall j | 0 <= j < |inserted|
        ensures inserted[j].id != rows[0].id
      {
        assert inserted[j] in inserted;
      }
    }
  }

  lemma {:induction false} SortKeepsUnique(rows: seq<CoverageRow>)
    requires UniqueRows(rows)
    ensures UniqueRows(Sort(rows, RowLeq))
  {
    if rows == [] {
    } else {
      SortKeepsUnique(rows[1..]);
      forall r | r in Sort(rows[1..], RowLeq)
        ensures r.id != rows[0].id
      {
        SortMembers(rows[1..], RowLeq, r);
      }
      InsertKeepsUnique(rows[0], Sort(rows[1..], RowLeq));
    }
  }

  // ----- readers

  /** The rows in a state. */
  function InState(rows: seq<CoverageRow>, state: State): set<nat> {
    set i: nat | i < |rows| && rows[i].state == state
  }

  /** The rows in a state that are limited by the network. */
  function LimitedInState(rows: seq<CoverageRow>, state: State): set<nat> {
    set i: nat | i < |rows| && rows[i].state == state && (rows[i].reason == "timeout" || rows[i].reason == "no_route")
  }

  lemma OneRowMore(front: seq<CoverageRow>, last: CoverageRow, state: State)
    ensures |InState(front + [last], state)| == |InState(front, state)| + if last.state == state then 1 else 0
  {
    var rows, before := front + [last], InState(front, state);
    forall i: nat
      ensures i in InState(rows, state) <==> i in before || (i == |front| && last.state == state)
    {
    }
    assert |front| !in before;
    hide InState;
    assert InState(rows, state) == if last.state == state then before + {|front|} else before;
  }

  lemma OneLimitedMore(front: seq<CoverageRow>, last: CoverageRow, state: State)
    ensures var limited := last.state == state && (last.reason == "timeout" || last.reason == "no_route");
            |LimitedInState(front + [last], state)| == |LimitedInState(front, state)| + if limited then 1 else 0
  {
    var limited := last.state == state && (last.reason == "timeout" || last.reason == "no_route");
    var rows, before := front + [last], LimitedInState(front, state);
    forall i: nat
      ensures i in LimitedInState(rows, state) <==> i in before || (i == |front| && limited)
    {
    }
    assert |front| !in before;
    hide LimitedInState;
    assert LimitedInState(rows, state) == if limited then before + {|front|} else before;
  }

  lemma {:induction false} CountsAreSizes(rows: seq<CoverageRow>, state: State)
    ensures CountState(rows, state) == |InState(rows, state)|
    ensures state != Passed && state != Failed ==> CountNetwork(rows, state) == |LimitedInState(rows, state)|
  {
    if rows == [] {
      assert InState(rows, state) == {} && LimitedInState(rows, state) == {};
    } else {
      var front, last := rows[..|rows| - 1], rows[|rows| - 1];
      CountsAreSizes(front, state);
      OneRowMore(front, last, state);
      OneLimitedMore(front, last, state);
      NetworkLimitedIff(last);
      assert rows == front + [last];
      hide InState, LimitedInState, NetworkLimited;
    }
  }

  method StateCounts(rows: seq<CoverageRow>) returns (counts: Counts)
    ensures counts.passed == |InState(rows, Passed)| && counts.failed == |InState(rows, Failed)|
    ensures counts.notChecked == |InState(rows, NotChecked)| && counts.inconclusive == |InState(rows, State.Inconclusive)|
  {
    counts := Counts(0, 0, 0, 0);
    for i := 0 to |rows|
      invariant counts == CountsOf(rows[..i])
    {
      assert rows[..i + 1][..i] == rows[..i];
      match rows[i].state {
        case Passed => counts := counts.(passed := counts.passed + 1);
        case Failed => counts := counts.(failed := counts.failed + 1);
        case NotChecked => counts := counts.(notChecked := counts.notChecked + 1);
        case Inconclusive => counts := counts.(inconclusive := counts.inconclusive + 1);
        case Unrecognised =>
      }
    }
    assert rows[..|rows|] == rows;
    CountsAreSizes(rows, Passed);
    CountsAreSizes(rows, Failed);
    CountsAreSizes(rows, NotChecked);
    CountsAreSizes(rows, State.Inconclusive);
  }

  datatype Summary = Summary(evaluated: nat, skipped: nat, indeterminate: nat, networkLimited: nat) {
    function Total(): nat { evaluated + skipped + indeterminate + networkLimited }
  }

  predicate NetworkLimited(row: CoverageRow) {
    !row.state.Passed? && !row.state.Failed? && row.reason in NETWORK_LIMITED
  }

  function CountNetwork(rows: seq<CoverageRow>, state: State): nat {
    if rows == [] then 0
    else CountNetwork(rows[..|rows| - 1], state)
         + (if rows[|rows| - 1].state == state && NetworkLimited(rows[|rows| - 1]) then 1 else 0)
  }

  /**
   The four numbers a reader sees, loop against the plain counts by state: the
   network-limited rows are taken out of the two gaps and nothing else moves.
   */
  method Summarise(rows: seq<CoverageRow>) returns (s: Summary)
    ensures s.evaluated == CountState(rows, Passed) + CountState(rows, Failed)
    ensures s.skipped + CountNetwork(rows, NotChecked) == CountState(rows, NotChecked)
    ensures s.indeterminate + CountNetwork(rows, Inconclusive) == CountState(rows, Inconclusive)
    ensures s.networkLimited == CountNetwork(rows, NotChecked) + CountNetwork(rows, Inconclusive) + CountNetwork(rows, Unrecognised)
  {
    s := Summary(0, 0, 0, 0);
    for i := 0 to |rows|
      invariant s.evaluated == CountState(rows[..i], Passed) + CountState(rows[..i], Failed)
      invariant s.skipped + CountNetwork(rows[..i], NotChecked) == CountState(rows[..i], NotChecked)
      invariant s.indeterminate + CountNetwork(rows[..i], Inconclusive) == CountState(rows[..i], Inconclusive)
      invariant s.networkLimited == CountNetwork(rows[..i], NotChecked) + CountNetwork(rows[..i], Inconclusive)
                                    + CountNetwork(rows[..i], Unrecognised)
    {
      assert rows[..i + 1][..i] == rows[..i];
      var row := rows[i];
      if row.state.Passed? || row.state.Failed? {
        s := s.(evaluated := s.evaluated + 1);
      } else if row.reason in NETWORK_LIMITED {
        s := s.(networkLimited := s.networkLimited + 1);
      } else if row.state.NotChecked? {
        s := s.(skipped := s.skipped + 1);
      } else if row.state.Inconclusive? {
        s := s.(indeterminate := s.indeterminate + 1);
      }
    }
    assert rows[..|rows|] == rows;
  }

  /** Rows a recorder wrote are each in exactly one state, so the four counts add up to all of them. */
  lemma {:induction false} EveryRowCountedOnce(rows: seq<CoverageRow>)
    requires forall r | r in rows :: ValidEntry(r)
    ensures CountState(rows, Passed) + CountState(rows, Failed)
            + CountState(rows, NotChecked) + CountState(rows, Inconclusive) == |rows|
    ensures CountNetwork(rows, Unrecognised) == 0
  {
    if rows == [] {
    } else {
      EveryRowCountedOnce(rows[..|rows| - 1]);
      assert rows[|rows| - 1] in rows;
    }
  }

  /** `considered`: every check listed, with the group of its last row; None when none is listed. */
  function Considered(d: Document): Option<map<string, string>> {
    if d.coverage.None? || d.coverage.value == [] then None else Some(GroupsOf(d.coverage.value))
  }

  function GroupsOf(rows: seq<CoverageRow>): (groups: map<string, string>)
    ensures forall id :: id in groups <==> id != "" && Recorded(rows, id)
  {
    if rows == [] then map[]
    else
      var front, last := GroupsOf(rows[..|rows| - 1]), rows[|rows| - 1];
      if last.id == "" then front else front[last.id := last.group]
  }

  /** A check listed more than once belongs to the group of its last row. */
  lemma {:induction false} LastRowGivesTheGroup(rows: seq<CoverageRow>, i: nat)
    requires i < |rows| && rows[i].id != "" && forall j | i < j < |rows| :: rows[j].id != rows[i].id
    ensures rows[i].id in GroupsOf(rows) && GroupsOf(rows)[rows[i].id] == rows[i].group
    decreases |rows|
  {
    if i == |rows| - 1 {
    } else {
      LastRowGivesTheGroup(rows[..|rows| - 1], i);
    }
  }

  // ----- words and order

  /** An entry can be made when a decided check gives no reason, and any other one of six. */
  lemma EntryIsValidIff(e: CoverageRow)
    ensures ValidEntry(e)
            <==> || ((e.state == Passed || e.state == Failed) && e.reason == "")
                 || ((e.state == NotChecked || e.state == Inconclusive)
                     && e.reason in {"not_applicable", "probe_disabled", "prerequisite_missing", "timeout", "unreadable", "no_route"})
  {
  }

  /** The network is to blame for an undecided check that timed out or had no route. */
  lemma NetworkLimitedIff(row: CoverageRow)
    ensures NetworkLimited(row) <==> row.state !in {Passed, Failed} && (row.reason == "timeout" || row.reason == "no_route")
  {
  }

  /** Rows stand by group and then by identifier. */
  lemma RowsStandInOrder(rows: seq<CoverageRow>, i: nat, j: nat)
    requires Ordered(rows, RowLeq) && i < j < |rows|
    ensures StringLeq(rows[i].group, rows[j].group)
    ensures rows[i].group == rows[j].group ==> StringLeq(rows[i].id, rows[j].id)
  {
    assert RowLeq(rows[i], rows[j]);
    StringLeqTotal(rows[i].group, rows[j].group);
  }
}
