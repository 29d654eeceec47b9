/** Counting one vulnerability once, however many feeds describe it under one another's names. */
module AdvisoryAliases {
  import opened Sorting

  /** An OSV record: a missing id is the empty string, `affected` counts its entries. */
  datatype OsvRecord = OsvRecord(id: string, aliases: set<string>, affected: nat) {
    function Names(): set<string> { {id} + aliases }
  }

  /** `sorted(key=-len(affected))`: the record that says the most comes first. */
  predicate SaysMore(a: OsvRecord, b: OsvRecord) {
    a.affected >= b.affected
  }

  predicate Shares(a: OsvRecord, b: OsvRecord) {
    exists n :: n in a.Names() && n in b.Names()
  }

  predicate SharesWithAny(r: OsvRecord, kept: seq<OsvRecord>) {
    exists i | 0 <= i < |kept| :: Shares(r, kept[i])
  }

  /** Keep each record that names nothing an earlier kept one names. */
  function KeepFirst(ordered: seq<OsvRecord>): seq<OsvRecord> {
    if ordered == [] then []
    else
      var front, last := KeepFirst(ordered[..|ordered| - 1]), ordered[|ordered| - 1];
      if SharesWithAny(last, front) then front else front + [last]
  }

  function NamesOf(kept: seq<OsvRecord>): (names: set<string>)
    ensures forall n :: n in names <==> exists i | 0 <= i < |kept| :: n in kept[i].Names()
  {
    if kept == [] then {} else NamesOf(kept[..|kept| - 1]) + kept[|kept| - 1].Names()
  }

  method WithoutAliases(records: seq<OsvRecord>) returns (kept: seq<OsvRecord>)
    ensures kept == KeepFirst(Sort(records, SaysMore))
  {
    hide Sort, SharesWithAny;
    kept := [];
    var seen: set<string> := {};
    var ordered := Sort(records, SaysMore);
    for i := 0 to |ordered|
      invariant kept == KeepFirst(ordered[..i])
      invariant seen == NamesOf(kept)
    {
      assert ordered[..i + 1][..i] == ordered[..i];
      var record := ordered[i];
      SeenDecides(record, kept);
      if record.id in seen || record.aliases * seen != {} {
        continue;
      }
      seen := seen + {record.id};
      seen := seen + record.aliases;
      assert (kept + [record])[..|kept|] == kept;
      kept := kept + [record];
    }
    assert ordered[..|ordered|] == ordered;
  }

  lemma SeenDecides(record: OsvRecord, kept: seq<OsvRecord>)
    ensures SharesWithAny(record, kept) <==> record.id in NamesOf(kept) || record.aliases * NamesOf(kept) != {}
  {
    if SharesWithAny(record, kept) {
      var i :| 0 <= i < |kept| && Shares(record, kept[i]);
      var n :| n in record.Names() && n in kept[i].Names();
      assert n in NamesOf(kept);
      assert n != record.id ==> n in record.aliases * NamesOf(kept);
    }
    if record.id in NamesOf(kept) || record.aliases * NamesOf(kept) != {} {
      var n :| n in record.Names() && n in NamesOf(kept);
      var i :| 0 <= i < |kept| && n in kept[i].Names();
      assert Shares(record, kept[i]);
    }
  }

  /** No two records name the same issue. */
  ghost predicate Apart(kept: seq<OsvRecord>) {
    forall i: nat, j: nat | i < j < |kept| :: kept[i].Names() !! kept[j].Names()
  }

  lemma SharesMeans(a: OsvRecord, b: OsvRecord)
    ensures Shares(a, b) <==> !(a.Names() !! b.Names())
    ensures Shares(a, b) <==> Shares(b, a)
  {
    assert !(a.Names() !! b.Names()) ==> exists n :: n in a.Names() && n in b.Names();
  }

  /** Two records share a name when they have one id, or one names the other, or both name a third. */
  lemma SharesIff(a: OsvRecord, b: OsvRecord)
    ensures Shares(a, b) <==> a.id == b.id || a.id in b.aliases || b.id in a.aliases || exists n :: n in a.aliases && n in b.aliases
  {
    assert a.id in a.Names() && b.id in b.Names();
    assert forall n | n in a.aliases :: n in a.Names();
    assert forall n | n in b.aliases :: n in b.Names();
  }

  lemma {:induction false} KeptDisjoint(ordered: seq<OsvRecord>)
    ensures forall r | r in KeepFirst(ordered) :: r in ordered
    ensures Apart(KeepFirst(ordered))
  {
    if ordered == [] {
    } else {
      var front, last := ordered[..|ordered| - 1], ordered[|ordered| - 1];
      KeptDisjoint(front);
      var before, kept := KeepFirst(front), KeepFirst(ordered);
      forall i: nat, j: nat | i < j < |kept|
        ensures kept[i].Names() !! kept[j].Names()
      {
        if j == |before| {
          assert !Shares(last, before[i]);
          SharesMeans(before[i], last);
        } else {
          assert kept[i] == before[i] && kept[j] == before[j];
        }
      }
    }
  }

  /** The kept record that stands for one that was read: itself, or an earlier one sharing a name. */
  lemma {:induction false} KeptStandsFor(ordered: seq<OsvRecord>, k: nat) returns (kept: OsvRecord)
    requires k < |ordered| && Ordered(ordered, SaysMore)
    ensures kept in KeepFirst(ordered) && (kept == ordered[k] || Shares(ordered[k], kept))
    ensures SaysMore(kept, ordered[k])
  {
    var front, last := ordered[..|ordered| - 1], ordered[|ordered| - 1];
    if k < |front| {
      kept := KeptStandsFor(front, k);
    } else if SharesWithAny(last, KeepFirst(front)) {
      var i :| 0 <= i < |KeepFirst(front)| && Shares(last, KeepFirst(front)[i]);
      kept := KeepFirst(front)[i];
      KeptDisjoint(front);
      assert kept in front;
      var j :| 0 <= j < |front| && front[j] == kept;
      assert SaysMore(ordered[j], ordered[k]);
    } else {
      kept := last;
    }
  }

  /**
   A maximal independent choice: no two kept records name the same issue, every
   kept record was read, and every record read is kept or shares a name with a
   kept one that lists at least as many affected entries.
   */
  lemma {:induction false} KeptIsMaximalAndIndependent(records: seq<OsvRecord>)
    ensures var kept := KeepFirst(Sort(records, SaysMore));
            && Apart(kept)
            && (forall r | r in kept :: r in records)
            && (forall r | r in records :: exists k | k in kept :: (k == r || Shares(r, k)) && k.affected >= r.affected)
  {
    var ordered := Sort(records, SaysMore);
    var kept := KeepFirst(ordered);
    SortOrdered(records, SaysMore);
    KeptDisjoint(ordered);
    forall r | r in kept
      ensures r in records
    {
      SortMembers(records, SaysMore, r);
    }
    forall r | r in records
      ensures exists k | k in kept :: (k == r || Shares(r, k)) && k.affected >= r.affected
    {
      SortMembers(records, SaysMore, r);
      var n :| 0 <= n < |ordered| && ordered[n] == r;
      var k := KeptStandsFor(ordered, n);
    }
  }

  /** Whatever the feed lists under an identifier is counted at most once. */
  lemma EachNameCountedOnce(records: seq<OsvRecord>, name: string, i: nat, j: nat)
    requires i < |KeepFirst(Sort(records, SaysMore))| && j < |KeepFirst(Sort(records, SaysMore))|
    requires name in KeepFirst(Sort(records, SaysMore))[i].Names()
    requires name in KeepFirst(Sort(records, SaysMore))[j].Names()
    ensures i == j
  {
    KeptIsMaximalAndIndependent(records);
  }

  // ----- chains of aliases

  /** The k-th record is kept: it names nothing a record kept before it names. */
  predicate KeptAt(ordered: seq<OsvRecord>, k: nat)
    requires k < |ordered|
  {
    !SharesWithAny(ordered[k], KeepFirst(ordered[..k]))
  }

  lemma KeepNext(ordered: seq<OsvRecord>, k: nat)
    requires k < |ordered|
    ensures KeepFirst(ordered[..k + 1])
            == if KeptAt(ordered, k) then KeepFirst(ordered[..k]) + [ordered[k]] else KeepFirst(ordered[..k])
  {
    assert ordered[..k + 1][..k] == ordered[..k];
  }

  /** A record kept at its place is among the records kept. */
  lemma {:induction false} KeptAtIsKept(ordered: seq<OsvRecord>, n: nat, k: nat)
    requires k < n <= |ordered|
    ensures KeptAt(ordered, k) ==> ordered[k] in KeepFirst(ordered[..n])
    decreases n
  {
    assert ordered[..n][..n - 1] == ordered[..n - 1];
    if k == n - 1 {
    } else {
      KeptAtIsKept(ordered, n - 1, k);
    }
  }

  /** What is kept of the first `n` records was kept at its place. */
  lemma {:induction false} KeptComesFrom(ordered: seq<OsvRecord>, n: nat, r: OsvRecord) returns (k: nat)
    requires n <= |ordered| && r in KeepFirst(ordered[..n])
    ensures k < n && ordered[k] == r && KeptAt(ordered, k)
    decreases n
  {
    assert ordered[..n][..n - 1] == ordered[..n - 1];
    if r in KeepFirst(ordered[..n - 1]) {
      k := KeptComesFrom(ordered, n - 1, r);
    } else {
      k := n - 1;
    }
  }

  /** A record is dropped exactly when a record kept before it shares a name with it. */
  lemma DroppedIff(ordered: seq<OsvRecord>, k: nat)
    requires k < |ordered|
    ensures !KeptAt(ordered, k) <==> exists i: nat | i < k :: KeptAt(ordered, i) && Shares(ordered[i], ordered[k])
  {
    hide Shares, KeepFirst;
    var kept := KeepFirst(ordered[..k]);
    if !KeptAt(ordered, k) {
      var n :| 0 <= n < |kept| && Shares(ordered[k], kept[n]);
      var i := KeptComesFrom(ordered, k, kept[n]);
      SharesMeans(ordered[k], kept[n]);
    }
    if i: nat :| i < k && KeptAt(ordered, i) && Shares(ordered[i], ordered[k]) {
      KeptAtIsKept(ordered, k, i);
      var n :| 0 <= n < |kept| && kept[n] == ordered[i];
      SharesMeans(ordered[i], ordered[k]);
    }
  }

  /** A chain of records each of which shares a name with the next. */
  predicate Chain(ordered: seq<OsvRecord>, path: seq<nat>) {
    && path != []
    && (forall n | 0 <= n < |path| :: path[n] < |ordered|)
    && (forall n | 0 < n < |path| :: Shares(ordered[path[n - 1]], ordered[path[n]]))
  }

  /** One vulnerability: a chain of aliases leads from the i-th record to the j-th. */
  ghost predicate OneIssue(ordered: seq<OsvRecord>, i: nat, j: nat) {
    exists path :: Chain(ordered, path) && path[0] == i && path[|path| - 1] == j
  }

  ghost predicate FirstOfIssue(ordered: seq<OsvRecord>, i: nat) {
    i < |ordered| && forall j: nat | OneIssue(ordered, i, j) :: i <= j
  }

  lemma SharingIsOneIssue(ordered: seq<OsvRecord>, i: nat, j: nat)
    requires i < |ordered| && j < |ordered| && Shares(ordered[i], ordered[j])
    ensures OneIssue(ordered, i, j)
  {
    assert Chain(ordered, [i, j]);
  }

  lemma OneIssueIsSymmetric(ordered: seq<OsvRecord>, i: nat, j: nat)
    requires OneIssue(ordered, i, j)
    ensures OneIssue(ordered, j, i) && i < |ordered| && j < |ordered|
  {
    hide Shares;
    var path :| Chain(ordered, path) && path[0] == i && path[|path| - 1] == j;
    var back := seq(|path|, n requires 0 <= n < |path| => path[|path| - 1 - n]);
    forall n | 0 < n < |back|
      ensures Shares(ordered[back[n - 1]], ordered[back[n]])
    {
      var m := |path| - n;
      assert Shares(ordered[path[m - 1]], ordered[path[m]]);
      SharesMeans(ordered[path[m - 1]], ordered[path[m]]);
    }
    assert Chain(ordered, back);
  }

  lemma OneIssueIsTransitive(ordered: seq<OsvRecord>, i: nat, j: nat, k: nat)
    requires OneIssue(ordered, i, j) && OneIssue(ordered, j, k)
    ensures OneIssue(ordered, i, k)
  {
    hide Shares;
    var front :| Chain(ordered, front) && front[0] == i && front[|front| - 1] == j;
    var back :| Chain(ordered, back) && back[0] == j && back[|back| - 1] == k;
    var path := front + back[1..];
    forall n | 0 < n < |path|
      ensures Shares(ordered[path[n - 1]], ordered[path[n]])
    {
      if n >= |front| {
        assert path[n] == back[n - |front| + 1];
        assert path[n - 1] == back[n - |front|];
      }
    }
    assert Chain(ordered, path);
  }

  /** Every record belongs to an issue with a first record. */
  lemma {:induction false} IssueHasAFirst(ordered: seq<OsvRecord>, i: nat) returns (first: nat)
    requires i < |ordered|
    ensures FirstOfIssue(ordered, first) && OneIssue(ordered, first, i)
    decreases i
  {
    assert Chain(ordered, [i]);
    hide Chain;
    if FirstOfIssue(ordered, i) {
      first := i;
    } else {
      var j: nat :| OneIssue(ordered, i, j) && j < i;
      OneIssueIsSymmetric(ordered, i, j);
      first := IssueHasAFirst(ordered, j);
      OneIssueIsTransitive(ordered, first, j, i);
    }
  }

  /** The record that says the most about an issue is kept. */
  lemma FirstIsKept(ordered: seq<OsvRecord>, first: nat)
    requires FirstOfIssue(ordered, first)
    ensures first < |ordered| && KeptAt(ordered, first)
  {
    hide OneIssue, Shares;
    DroppedIff(ordered, first);
    if i: nat :| i < first && KeptAt(ordered, i) && Shares(ordered[i], ordered[first]) {
      SharesMeans(ordered[i], ordered[first]);
      SharingIsOneIssue(ordered, first, i);
    }
  }

  /** No two records kept describe one issue. */
  ghost predicate IssuesKeptOnce(ordered: seq<OsvRecord>) {
    forall i: nat, j: nat | i < |ordered| && j < |ordered| && OneIssue(ordered, i, j) && KeptAt(ordered, i) && KeptAt(ordered, j) :: i == j
  }

  /** Every record of an issue shares a name with the one that says the most about it. */
  ghost predicate NamedByTheFirst(ordered: seq<OsvRecord>) {
    forall first: nat, j: nat | FirstOfIssue(ordered, first) && OneIssue(ordered, first, j) ::
      j < |ordered| && Shares(ordered[first], ordered[j])
  }

  /**
   Exactly when no issue is counted twice: every issue keeps its first record, and
   that one alone if and only if all its records share a name with it. One joined
   to it only through a record that was dropped is counted again.
   */
  lemma EachIssueCountedOnceIff(ordered: seq<OsvRecord>)
    ensures forall first: nat | FirstOfIssue(ordered, first) :: KeptAt(ordered, first)
    ensures IssuesKeptOnce(ordered) <==> NamedByTheFirst(ordered)
  {
    hide OneIssue, Shares, FirstOfIssue, KeptAt;
    forall first: nat | FirstOfIssue(ordered, first)
      ensures first < |ordered| && KeptAt(ordered, first)
    {
      FirstIsKept(ordered, first);
    }
    if IssuesKeptOnce(ordered) {
      forall first: nat, j: nat | FirstOfIssue(ordered, first) && OneIssue(ordered, first, j)
        ensures j < |ordered| && Shares(ordered[first], ordered[j])
      {
        OnlyTheFirst(ordered, first, j);
      }
    }
    if NamedByTheFirst(ordered) {
      forall i: nat, j: nat | i < |ordered| && j < |ordered| && OneIssue(ordered, i, j) && KeptAt(ordered, i) && KeptAt(ordered, j)
        ensures i == j
      {
        var first := IssueHasAFirst(ordered, i);
        OneIssueIsTransitive(ordered, first, i, j);
        SharersAreDropped(ordered, first, i);
        SharersAreDropped(ordered, first, j);
      }
    }
  }

  lemma OnlyTheFirst(ordered: seq<OsvRecord>, first: nat, j: nat)
    requires IssuesKeptOnce(ordered) && FirstOfIssue(ordered, first) && OneIssue(ordered, first, j)
    ensures j < |ordered| && Shares(ordered[first], ordered[j])
  {
    OneIssueIsSymmetric(ordered, first, j);
    FirstIsKept(ordered, first);
    SharesMeans(ordered[j], ordered[j]);
    hide OneIssue, Shares, KeptAt, FirstOfIssue;
    if j == first {
      assert ordered[j].id in ordered[j].Names();
    } else if KeptAt(ordered, j) {
      assert false;
    } else {
      DroppedIff(ordered, j);
      var i: nat :| i < j && KeptAt(ordered, i) && Shares(ordered[i], ordered[j]);
      SharesMeans(ordered[i], ordered[j]);
      SharingIsOneIssue(ordered, j, i);
      OneIssueIsTransitive(ordered, first, j, i);
    }
  }

  lemma SharersAreDropped(ordered: seq<OsvRecord>, first: nat, j: nat)
    requires FirstOfIssue(ordered, first) && OneIssue(ordered, first, j)
    requires j < |ordered| && Shares(ordered[first], ordered[j]) && KeptAt(ordered, j)
    ensures j == first
  {
    FirstIsKept(ordered, first);
    hide KeptAt, Shares, OneIssue;
    DroppedIff(ordered, j);
  }

  /** The GitHub record and a third one both kept, though the Go database's names them both. */
  const CHAIN: seq<OsvRecord> := [
    OsvRecord("GHSA-a", {"CVE-1"}, 3), OsvRecord("GO-b", {"CVE-1", "CVE-2"}, 2), OsvRecord("GHSA-c", {"CVE-2"}, 1)]

  lemma SortedAlready(a: OsvRecord, b: OsvRecord, c: OsvRecord)
    requires SaysMore(a, b) && SaysMore(b, c)
    ensures Sort([a, b, c], SaysMore) == [a, b, c]
  {
    assert [a, b, c][1..] == [b, c] && [b, c][1..] == [c] && [c][1..] == [];
    assert Sort([c], SaysMore) == [c];
    assert Sort([b, c], SaysMore) == [b, c];
  }

  lemma MiddleIsDropped(a: OsvRecord, b: OsvRecord, c: OsvRecord)
    requires Shares(b, a) && !Shares(c, a)
    ensures KeepFirst([a, b, c]) == [a, c] && KeptAt([a, b, c], 0) && KeptAt([a, b, c], 2)
  {
    hide Shares;
    var ordered := [a, b, c];
    assert ordered[..0] == [] && ordered[..3] == ordered;
    KeepNext(ordered, 0);
    assert KeepFirst(ordered[..1]) == [a];
    KeepNext(ordered, 1);
    assert Shares(b, [a][0]);
    assert KeepFirst(ordered[..2]) == [a];
    KeepNext(ordered, 2);
  }

  lemma ChainOfThree(a: OsvRecord, b: OsvRecord, c: OsvRecord)
    requires Shares(a, b) && Shares(b, c)
    ensures OneIssue([a, b, c], 0, 2)
  {
    hide Shares;
    var path: seq<nat> := [0, 1, 2];
    assert Chain([a, b, c], path);
  }

  /** One issue counted twice: the names of a dropped record are forgotten. */
  lemma ChainIsCountedTwice()
    ensures Sort(CHAIN, SaysMore) == CHAIN && KeepFirst(CHAIN) == [CHAIN[0], CHAIN[2]]
    ensures OneIssue(CHAIN, 0, 2) && !IssuesKeptOnce(CHAIN)
  {
    var a, b, c := CHAIN[0], CHAIN[1], CHAIN[2];
    assert SaysMore(a, b) && SaysMore(b, c);
    assert "CVE-1" in a.Names() && "CVE-1" in b.Names() && "CVE-2" in b.Names() && "CVE-2" in c.Names();
    assert a.Names() !! c.Names();
    assert Shares(a, b) && Shares(b, a) && Shares(b, c) && !Shares(c, a);
    hide Shares, CHAIN, KeepFirst, KeptAt, OneIssue;
    SortedAlready(a, b, c);
    MiddleIsDropped(a, b, c);
    ChainOfThree(a, b, c);
  }
}
