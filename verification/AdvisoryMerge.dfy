/** Folding fetched advisories into the bundled database without losing anything. */
module AdvisoryMerge {
  import opened Wrappers
  import opened Sorting

  /** A JSON value of an entry, as far as the merge looks at it. */
  datatype Value = Null | Text(s: string) | Listed(items: seq<Item>) {
    /** Python truthiness. */
    predicate Truthy() {
      match this
      case Null => false
      case Text(s) => s != ""
      case Listed(items) => items != []
    }

    /** What an update takes over: everything but None and the empty string. */
    predicate Stated() { this != Null && this != Text("") }
  }

  datatype Item = Pair(range: Range) | Unusable

  /** One affected range; either bound may be missing. */
  datatype Range = Range(introduced: Value, fixed: Value) {
    predicate Bounded() { introduced.Truthy() || fixed.Truthy() }
  }

  /** A database entry: its identifier, and every field it has. */
  datatype Entry = Entry(id: string, fields: map<string, Value>) {
    function Get(key: string): Value { if key in fields then fields[key] else Null }
  }

  const RANGE_KEYS: set<string> := {"introduced", "fixed", "ranges"}

  function BoundedItems(items: seq<Item>): (ranges: seq<Range>)
    ensures forall r :: r in ranges <==> r.Bounded() && Pair(r) in items
  {
    if items == [] then []
    else if items[0].Pair? && items[0].range.Bounded() then [items[0].range] + BoundedItems(items[1..])
    else BoundedItems(items[1..])
  }

  function FlatRange(e: Entry): Range { Range(e.Get("introduced"), e.Get("fixed")) }

  /** `_ranges`: the bounded ranges listed, or else the flat pair, bounded or not. */
  function Ranges(e: Entry): (ranges: seq<Range>)
    ensures ranges != []
    ensures (forall r | r in ranges :: r.Bounded()) || ranges == [FlatRange(e)]
  {
    var listed := match e.Get("ranges") case Listed(items) => BoundedItems(items) case _ => [];
    if listed != [] then listed else [FlatRange(e)]
  }

  /**
   The ranges a scan matches a version against: the bounded ones. A record
   that bounds nothing is dropped by the reader rather than matched by everything.
   */
  function Affected(e: Entry): set<Range> {
    set r | r in Ranges(e) && r.Bounded()
  }

  /** Every range once, in order of first appearance. */
  function Distinct(ranges: seq<Range>): (unique: seq<Range>)
    ensures forall r :: r in unique <==> r in ranges
    ensures forall i, j | 0 <= i < j < |unique| :: unique[i] != unique[j]
    ensures ranges != [] ==> unique != [] && unique[0] == ranges[0]
  {
    if ranges == [] then []
    else
      var front, last := Distinct(ranges[..|ranges| - 1]), ranges[|ranges| - 1];
      if last in front then front else front + [last]
  }

  function MergedRanges(previous: Entry, fetched: Entry): (ranges: seq<Range>)
    ensures ranges != []
  {
    Distinct(Ranges(previous) + Ranges(fetched))
  }

  method MergeRanges(previous: Entry, fetched: Entry) returns (merged: seq<Range>)
    ensures merged == MergedRanges(previous, fetched)
  {
    merged := [];
    var all := Ranges(previous) + Ranges(fetched);
    for i := 0 to |all|
      invariant merged == Distinct(all[..i])
    {
      assert all[..i + 1][..i] == all[..i];
      if all[i] !in merged {
        merged := merged + [all[i]];
      }
    }
    assert all[..|all|] == all;
  }

  function StatedFields(e: Entry): map<string, Value> {
    map key | key in e.fields && e.fields[key].Stated() :: e.fields[key]
  }

  function AsItems(ranges: seq<Range>): (items: seq<Item>)
    ensures |items| == |ranges| && forall i | 0 <= i < |ranges| :: items[i] == Pair(ranges[i])
  {
    if ranges == [] then [] else [Pair(ranges[0])] + AsItems(ranges[1..])
  }

  /** An entry with these other fields and exactly these ranges. */
  function Build(id: string, fields: map<string, Value>, ranges: seq<Range>): Entry
    requires ranges != []
  {
    var flat := (fields - RANGE_KEYS)["introduced" := ranges[0].introduced]["fixed" := ranges[0].fixed];
    Entry(id, if |ranges| == 1 then flat else flat["ranges" := Listed(AsItems(ranges))])
  }

  /** What one fetched entry makes of the stored entry with its id. */
  function MergeEntry(previous: Entry, fetched: Entry): Entry {
    Build(previous.id, previous.fields + StatedFields(fetched), MergedRanges(previous, fetched))
  }

  /** The position `by_id` gives an identifier: its last one. */
  function LastIndex(current: seq<Entry>, id: string): (index: Option<nat>)
    ensures index.None? <==> forall i | 0 <= i < |current| :: current[i].id != id
    ensures index.Some? ==> index.value < |current| && current[index.value].id == id
                            && forall i | index.value < i < |current| :: current[i].id != id
  {
    if current == [] then None
    else
      var last := |current| - 1;
      if current[last].id == id then Some(last) else LastIndex(current[..last], id)
  }

  function Step(current: seq<Entry>, fetched: Entry): seq<Entry> {
    match LastIndex(current, fetched.id)
    case None => current + [fetched]
    case Some(i) => current[i := MergeEntry(current[i], fetched)]
  }

  function Merge(current: seq<Entry>, entries: seq<Entry>): seq<Entry> {
    if entries == [] then current
    else Step(Merge(current, entries[..|entries| - 1]), entries[|entries| - 1])
  }

  method MergeOne(previous: Entry, entry: Entry) returns (merged: Entry)
    ensures merged == MergeEntry(previous, entry) && merged.id == previous.id
  {
    hide MergedRanges, StatedFields, AsItems, Build;
    var fields := previous.fields + StatedFields(entry);
    var ranges := MergeRanges(previous, entry);
    fields := fields["introduced" := ranges[0].introduced]["fixed" := ranges[0].fixed];
    if |ranges| == 1 {
      fields := fields - {"ranges"};
    } else {
      fields := fields["ranges" := Listed(AsItems(ranges))];
    }
    merged := Entry(previous.id, fields);
    BuildByUpdates(previous.id, previous.fields + StatedFields(entry), ranges);
  }

  lemma BuildByUpdates(id: string, fields: map<string, Value>, ranges: seq<Range>)
    requires ranges != []
    ensures var flat := fields["introduced" := ranges[0].introduced]["fixed" := ranges[0].fixed];
            Build(id, fields, ranges)
            == Entry(id, if |ranges| == 1 then flat - {"ranges"} else flat["ranges" := Listed(AsItems(ranges))])
  {
    hide AsItems;
    var flat := fields["introduced" := ranges[0].introduced]["fixed" := ranges[0].fixed];
    assert Build(id, fields, ranges).fields
        == if |ranges| == 1 then flat - {"ranges"} else flat["ranges" := Listed(AsItems(ranges))];
  }

  /** `by_id` over the list as it stands. */
  ghost predicate Indexes(byId: map<string, nat>, current: seq<Entry>) {
    forall id: string :: LastIndex(current, id) == if id in byId then Some(byId[id]) else None
  }

  method MergeDocument(entries: seq<Entry>, existing: seq<Entry>) returns (advisories: seq<Entry>)
    ensures advisories == Merge(existing, entries)
  {
    hide MergeEntry, LastIndex, Indexes;
    var current := existing;
    var byId: map<string, nat> := map[];
    NothingIndexed();
    assert current[..0] == [];
    for i := 0 to |current|
      invariant Indexes(byId, current[..i])
    {
      assert current[..i + 1] == current[..i] + [current[i]];
      IndexAppended(byId, current[..i], current[i]);
      byId := byId[current[i].id := i];
    }
    assert current[..|current|] == current;
    for i := 0 to |entries|
      invariant current == Merge(existing, entries[..i])
      invariant Indexes(byId, current)
    {
      assert entries[..i + 1][..i] == entries[..i];
      var entry := entries[i];
      IndexFinds(byId, current, entry.id);
      if entry.id !in byId {
        IndexAppended(byId, current, entry);
        current := current + [entry];
        byId := byId[entry.id := |current| - 1];
      } else {
        var index := byId[entry.id];
        var merged := MergeOne(current[index], entry);
        IndexUpdated(byId, current, index, merged);
        current := current[index := merged];
      }
    }
    assert entries[..|entries|] == entries;
    return current;
  }

  lemma NothingIndexed()
    ensures Indexes(map[], [])
  {
  }

  lemma IndexFinds(byId: map<string, nat>, current: seq<Entry>, id: string)
    requires Indexes(byId, current)
    ensures LastIndex(current, id) == if id in byId then Some(byId[id]) else None
  {
  }

  lemma IndexAppended(byId: map<string, nat>, current: seq<Entry>, entry: Entry)
    requires Indexes(byId, current)
    ensures Indexes(byId[entry.id := |current|], current + [entry])
  {
    assert (current + [entry])[..|current|] == current;
  }

  lemma IndexUpdated(byId: map<string, nat>, current: seq<Entry>, index: nat, entry: Entry)
    requires Indexes(byId, current)
    requires index < |current| && LastIndex(current, entry.id) == Some(index)
    ensures Indexes(byId, current[index := entry])
  {
    forall id: string
      ensures LastIndex(current[index := entry], id) == LastIndex(current, id)
    {
      SameIdsSameIndex(current, current[index := entry], id);
    }
  }

  lemma {:induction false} SameIdsSameIndex(a: seq<Entry>, b: seq<Entry>, id: string)
    requires |a| == |b| && forall i | 0 <= i < |a| :: a[i].id == b[i].id
    ensures LastIndex(a, id) == LastIndex(b, id)
  {
    if a == [] {
    } else {
      SameIdsSameIndex(a[..|a| - 1], b[..|b| - 1], id);
    }
  }

  // ----- what an entry affects

  lemma {:induction false} BoundedItemsOf(ranges: seq<Range>)
    requires forall i | 0 <= i < |ranges| :: ranges[i].Bounded()
    ensures BoundedItems(AsItems(ranges)) == ranges
    decreases |ranges|
  {
    if ranges == [] {
    } else {
      BoundedItemsOf(ranges[1..]);
      assert AsItems(ranges)[1..] == AsItems(ranges[1..]);
    }
  }

  lemma BoundedItemsMember(ranges: seq<Range>, r: Range)
    ensures r in BoundedItems(AsItems(ranges)) <==> r in ranges && r.Bounded()
  {
    if r in ranges {
      var i :| 0 <= i < |ranges| && ranges[i] == r;
      assert AsItems(ranges)[i] == Pair(r);
    }
  }

  /** Reading a built entry back gives the bounded ranges it was built from. */
  lemma BuiltAffects(id: string, fields: map<string, Value>, ranges: seq<Range>)
    requires ranges != []
    ensures Affected(Build(id, fields, ranges)) == set r | r in ranges && r.Bounded()
  {
    var e := Build(id, fields, ranges);
    forall r
      ensures r in Affected(e) <==> r in ranges && r.Bounded()
    {
      BoundedItemsMember(ranges, r);
      assert FlatRange(e) == ranges[0];
      if |ranges| > 1 {
        assert e.Get("ranges") == Listed(AsItems(ranges));
      } else {
        assert e.Get("ranges") == Null;
      }
    }
  }

  /** One merge affects exactly what either side affected, whatever the two look like. */
  lemma MergeEntryAffects(previous: Entry, fetched: Entry)
    ensures Affected(MergeEntry(previous, fetched)) == Affected(previous) + Affected(fetched)
  {
    BuiltAffects(previous.id, previous.fields + StatedFields(fetched), MergedRanges(previous, fetched));
    assert forall r :: r in MergedRanges(previous, fetched) <==> r in Ranges(previous) || r in Ranges(fetched);
  }

  /** Every range any record with this identifier affects. */
  function AffectedBy(entries: seq<Entry>, id: string): set<Range> {
    if entries == [] then {}
    else
      var last := entries[|entries| - 1];
      AffectedBy(entries[..|entries| - 1], id) + (if last.id == id then Affected(last) else {})
  }

  lemma {:induction false} AffectedByMember(entries: seq<Entry>, id: string, r: Range)
    ensures r in AffectedBy(entries, id) <==> exists i | 0 <= i < |entries| :: entries[i].id == id && r in Affected(entries[i])
  {
    if entries == [] {
    } else {
      AffectedByMember(entries[..|entries| - 1], id, r);
    }
  }

  lemma StepAffects(current: seq<Entry>, fetched: Entry, id: string)
    ensures AffectedBy(Step(current, fetched), id)
            == AffectedBy(current, id) + (if fetched.id == id then Affected(fetched) else {})
  {
    hide Affected, MergeEntry;
    match LastIndex(current, fetched.id) {
      case None =>
        assert (current + [fetched])[..|current|] == current;
      case Some(k) =>
        var next := current[k := MergeEntry(current[k], fetched)];
        assert MergeEntry(current[k], fetched).id == current[k].id by { MergeKeepsId(current[k], fetched); }
        MergeEntryAffects(current[k], fetched);
        forall r
          ensures r in AffectedBy(next, id) <==> r in AffectedBy(current, id) || (fetched.id == id && r in Affected(fetched))
        {
          AffectedByMember(current, id, r);
          AffectedByMember(next, id, r);
          assert next[k].id == fetched.id;
          if r in AffectedBy(current, id) {
            var i :| 0 <= i < |current| && current[i].id == id && r in Affected(current[i]);
            assert next[i].id == id && r in Affected(next[i]);
          }
        }
    }
  }

  lemma MergeKeepsId(previous: Entry, fetched: Entry)
    ensures MergeEntry(previous, fetched).id == previous.id
  {
  }

  /**
   The merge never shrinks, and never grows past what was fetched: for every
   identifier the ranges affected afterwards are those stored before together
   with those the fetched entries state. No assumption on either list.
   */
  lemma {:induction false} MergeAffectsTheUnion(current: seq<Entry>, entries: seq<Entry>, id: string)
    ensures AffectedBy(Merge(current, entries), id) == AffectedBy(current, id) + AffectedBy(entries, id)
    decreases |entries|
  {
    if entries == [] {
    } else {
      var front, last := entries[..|entries| - 1], entries[|entries| - 1];
      MergeAffectsTheUnion(current, front, id);
      StepAffects(Merge(current, front), last, id);
    }
  }

  /** The same for versions, under any reading of what a range covers. */
  lemma AffectedVersionsAreTheUnion<V>(current: seq<Entry>, entries: seq<Entry>, id: string, v: V, covers: (Range, V) -> bool)
    ensures (exists r | r in AffectedBy(Merge(current, entries), id) :: covers(r, v))
            <==>
            ((exists r | r in AffectedBy(current, id) :: covers(r, v))
             || (exists r | r in AffectedBy(entries, id) :: covers(r, v)))
  {
    MergeAffectsTheUnion(current, entries, id);
  }

  // ----- what a merge keeps

  ghost predicate UniqueIds(entries: seq<Entry>) {
    forall i, j | 0 <= i < j < |entries| :: entries[i].id != entries[j].id
  }

  /** Some fetched entry with this identifier states a value for the field. */
  ghost predicate FieldStated(entries: seq<Entry>, id: string, key: string) {
    exists e | e in entries :: e.id == id && key in StatedFields(e)
  }

  /** Every stored entry stays where it was, keeps its id, and every field no fetched entry states. */
  lemma {:induction false} MergeKeeps(current: seq<Entry>, entries: seq<Entry>, i: nat, key: string)
    requires i < |current|
    ensures |Merge(current, entries)| >= |current| && Merge(current, entries)[i].id == current[i].id
    ensures key !in RANGE_KEYS && !FieldStated(entries, current[i].id, key) ==>
              (key in Merge(current, entries)[i].fields <==> key in current[i].fields)
              && Merge(current, entries)[i].Get(key) == current[i].Get(key)
    decreases |entries|
  {
    if entries == [] {
    } else {
      var front, last := entries[..|entries| - 1], entries[|entries| - 1];
      MergeKeeps(current, front, i, key);
      assert forall e | e in front :: e in entries;
      assert last in entries;
    }
  }

  /** Ids stay unique, and an id that was fetched is there afterwards. */
  lemma {:induction false} MergeKeepsIdsUnique(current: seq<Entry>, entries: seq<Entry>)
    requires UniqueIds(current)
    ensures UniqueIds(Merge(current, entries))
    ensures forall e | e in entries :: LastIndex(Merge(current, entries), e.id).Some?
    decreases |entries|
  {
    if entries == [] {
    } else {
      var front, last := entries[..|entries| - 1], entries[|entries| - 1];
      MergeKeepsIdsUnique(current, front);
      var before, after := Merge(current, front), Merge(current, entries);
      assert forall k | 0 <= k < |before| :: after[k].id == before[k].id;
      forall e | e in entries
        ensures LastIndex(after, e.id).Some?
      {
        if e in front {
          var k := LastIndex(before, e.id).value;
          assert after[k].id == e.id;
        } else {
          assert e == last;
          assert after[if LastIndex(before, last.id).Some? then LastIndex(before, last.id).value else |before|].id == last.id;
        }
      }
    }
  }

  // ----- field by field

  /** A version is written there: neither missing nor empty. */
  predicate Written(v: Value) {
    v != Null && v != Text("") && v != Listed([])
  }

  predicate NamesVersion(r: Range) {
    Written(r.introduced) || Written(r.fixed)
  }

  /** The entry lists this range, and a version in it. */
  ghost predicate ListsRange(e: Entry, r: Range) {
    && "ranges" in e.fields && e.fields["ranges"].Listed?
    && Pair(r) in e.fields["ranges"].items && NamesVersion(r)
  }

  /** The two flat fields as they stand, missing ones included. */
  ghost predicate IsFlatPair(e: Entry, r: Range) {
    && r.introduced == (if "introduced" in e.fields then e.fields["introduced"] else Null)
    && r.fixed == (if "fixed" in e.fields then e.fields["fixed"] else Null)
  }

  /** Every listed range that names a version at either end is read; the flat pair stands in when there is none. */
  lemma RangeIsReadIff(e: Entry, r: Range)
    ensures r in Ranges(e) <==> ListsRange(e, r) || (IsFlatPair(e, r) && forall q :: !ListsRange(e, q))
  {
    if "ranges" in e.fields && e.fields["ranges"].Listed? {
      var listed := BoundedItems(e.fields["ranges"].items);
      assert forall q :: q in listed <==> ListsRange(e, q);
      assert listed != [] ==> listed[0] in listed;
    }
  }

  /** Ranges are read in the order they are listed. */
  lemma {:induction false} RangesAreReadInOrder(items: seq<Item>, more: seq<Item>)
    ensures BoundedItems(items + more) == BoundedItems(items) + BoundedItems(more)
  {
    if items == [] {
      assert items + more == more;
    } else {
      assert (items + more)[1..] == items[1..] + more;
      RangesAreReadInOrder(items[1..], more);
    }
  }

  /** A scan matches what the flat pair or the list names, and nothing when neither names a version. */
  lemma AffectedIff(e: Entry, r: Range)
    ensures r in Affected(e) <==> NamesVersion(r) && (ListsRange(e, r) || (IsFlatPair(e, r) && forall q :: !ListsRange(e, q)))
  {
    RangeIsReadIff(e, r);
  }

  lemma ReadBySome(entries: seq<Entry>, id: string, r: Range)
    requires NamesVersion(r)
    ensures r in AffectedBy(entries, id) <==> exists e | e in entries :: e.id == id && r in Ranges(e)
  {
    AffectedByMember(entries, id, r);
    hide Ranges, AffectedBy;
    if e :| e in entries && e.id == id && r in Ranges(e) {
      var i :| 0 <= i < |entries| && entries[i] == e;
      assert r in Affected(entries[i]);
    }
  }

  lemma OneEntryPerId(entries: seq<Entry>, k: nat, r: Range)
    requires UniqueIds(entries) && k < |entries|
    ensures (exists e | e in entries :: e.id == entries[k].id && r in Ranges(e)) <==> r in Ranges(entries[k])
  {
    hide Ranges;
    if e :| e in entries && e.id == entries[k].id && r in Ranges(e) {
      var i :| 0 <= i < |entries| && entries[i] == e;
      assert i == k;
    }
  }

  /**
   Adding only, range by range: an entry of the refreshed database is read as
   exactly the ranges that the stored entry or a fetched one with its id was read
   as, whichever of those name a version.
   */
  lemma RangesAfterMerge(current: seq<Entry>, entries: seq<Entry>, k: nat, r: Range)
    requires UniqueIds(current) && k < |Merge(current, entries)| && NamesVersion(r)
    ensures var after := Merge(current, entries)[k];
            r in Ranges(after) <==> exists e | e in current + entries :: e.id == after.id && r in Ranges(e)
  {
    hide *;
    var all := Merge(current, entries);
    MergeKeepsIdsUnique(current, entries);
    MergeAffectsTheUnion(current, entries, all[k].id);
    ReadBySome(all, all[k].id, r);
    ReadBySome(current, all[k].id, r);
    ReadBySome(entries, all[k].id, r);
    OneEntryPerId(all, k, r);
    assert forall e :: e in current + entries <==> e in current || e in entries;
  }

  /** A range that a stored or fetched entry lists is among those read after the merge. */
  lemma ListedRangeSurvives(current: seq<Entry>, entries: seq<Entry>, k: nat, e: Entry, r: Range)
    requires UniqueIds(current) && k < |Merge(current, entries)|
    requires e in current + entries && e.id == Merge(current, entries)[k].id
    requires ListsRange(e, r) || (NamesVersion(r) && IsFlatPair(e, r) && forall q :: !ListsRange(e, q))
    ensures r in Ranges(Merge(current, entries)[k])
  {
    RangeIsReadIff(e, r);
    RangesAfterMerge(current, entries, k, r);
  }

  /** What the fetched entry states, anything but None and the empty string, replaces what is stored; the rest stays. */
  lemma MergedField(previous: Entry, fetched: Entry, key: string)
    requires key != "introduced" && key != "fixed" && key != "ranges"
    ensures var merged := MergeEntry(previous, fetched);
            var stated := key in fetched.fields && fetched.fields[key] != Null && fetched.fields[key] != Text("");
            && (key in merged.fields <==> stated || key in previous.fields)
            && (key in merged.fields ==> merged.fields[key] == if stated then fetched.fields[key] else previous.fields[key])
  {
  }

  /** The flat pair after a merge is the first range of the stored entry; a list is written when there are several. */
  lemma MergedFlatPair(previous: Entry, fetched: Entry)
    ensures var merged := MergeEntry(previous, fetched);
            && IsFlatPair(merged, Ranges(previous)[0])
            && ("ranges" in merged.fields <==> exists q, r | q in Ranges(previous) + Ranges(fetched) && r in Ranges(previous) + Ranges(fetched) :: q != r)
            && ("ranges" in merged.fields ==>
                  && merged.fields["ranges"].Listed? && |merged.fields["ranges"].items| > 1
                  && forall r :: Pair(r) in merged.fields["ranges"].items <==> r in Ranges(previous) || r in Ranges(fetched))
  {
    var merged := MergeEntry(previous, fetched);
    var all := MergedRanges(previous, fetched);
    var both := Ranges(previous) + Ranges(fetched);
    hide Ranges, MergedRanges;
    assert all == Distinct(both) by { AllIsDistinct(previous, fetched); }
    hide Distinct;
    assert both[0] == Ranges(previous)[0];
    if |all| > 1 {
      assert all[0] in both && all[1] in both && all[0] != all[1];
      forall r
        ensures Pair(r) in AsItems(all) <==> r in all
      {
        if r in all {
          var i :| 0 <= i < |all| && all[i] == r;
          assert AsItems(all)[i] == Pair(r);
        }
      }
    } else {
      assert forall r :: r in both <==> r == all[0];
    }
  }

  lemma AllIsDistinct(previous: Entry, fetched: Entry)
    ensures MergedRanges(previous, fetched) == Distinct(Ranges(previous) + Ranges(fetched))
  {
  }

  /** The last entry with an identifier keeps its place while others are merged or appended. */
  lemma {:induction false} PlaceStays(current: seq<Entry>, entries: seq<Entry>, id: string)
    requires LastIndex(current, id).Some?
    ensures LastIndex(Merge(current, entries), id) == LastIndex(current, id)
    decreases |entries|
  {
    if entries == [] {
    } else {
      var front, last := entries[..|entries| - 1], entries[|entries| - 1];
      PlaceStays(current, front, id);
      var before, after := Merge(current, front), Merge(current, entries);
      hide Merge, MergeEntry;
      assert after == Step(before, last) by { NextMerge(current, entries); }
      assert forall i | 0 <= i < |before| :: after[i].id == before[i].id by { StepKeepsIds(before, last); }
      StepAppendsOther(before, last, id);
    }
  }

  lemma NextMerge(current: seq<Entry>, entries: seq<Entry>)
    requires entries != []
    ensures Merge(current, entries) == Step(Merge(current, entries[..|entries| - 1]), entries[|entries| - 1])
  {
  }

  lemma StepKeepsIds(current: seq<Entry>, fetched: Entry)
    ensures |current| <= |Step(current, fetched)| && forall i | 0 <= i < |current| :: Step(current, fetched)[i].id == current[i].id
  {
  }

  lemma StepAppendsOther(current: seq<Entry>, fetched: Entry, id: string)
    requires LastIndex(current, id).Some?
    ensures LastIndex(Step(current, fetched), id) == LastIndex(current, id)
  {
    hide MergeEntry;
    if LastIndex(current, fetched.id).None? {
      assert current[LastIndex(current, id).value].id == id;
      assert (current + [fetched])[..|current|] == current;
    } else {
      StepKeepsIds(current, fetched);
      SameIdsSameIndex(current, Step(current, fetched), id);
    }
  }

  /**
   The last fetched entry to state a field decides it: the stored entry, the last
   with the id, shows that value after the whole refresh.
   */
  lemma {:induction false} LastStatedFieldIsTaken(current: seq<Entry>, entries: seq<Entry>, j: nat, key: string)
    requires j < |entries| && LastIndex(current, entries[j].id).Some?
    requires key != "introduced" && key != "fixed" && key != "ranges"
    requires key in entries[j].fields && entries[j].fields[key] != Null && entries[j].fields[key] != Text("")
    requires forall i | j < i < |entries| && entries[i].id == entries[j].id ::
               key !in entries[i].fields || entries[i].fields[key] == Null || entries[i].fields[key] == Text("")
    ensures var k := LastIndex(current, entries[j].id).value;
            && k < |Merge(current, entries)| && key in Merge(current, entries)[k].fields
            && Merge(current, entries)[k].fields[key] == entries[j].fields[key]
    decreases |entries|
  {
    hide *;
    var front, last := entries[..|entries| - 1], entries[|entries| - 1];
    var id := entries[j].id;
    PlaceStays(current, front, id);
    PlaceStays(current, entries, id);
    NextMerge(current, entries);
    StepMergesAt(Merge(current, front), last, id, key);
    if j < |front| {
      LastStatedFieldIsTaken(current, front, j, key);
    }
  }

  /** One step at the place of an id: merged when it is this id's entry, untouched otherwise. */
  lemma StepMergesAt(current: seq<Entry>, fetched: Entry, id: string, key: string)
    requires LastIndex(current, id).Some? && key != "introduced" && key != "fixed" && key != "ranges"
    ensures var k, next := LastIndex(current, id).value, Step(current, fetched);
            var stated := fetched.id == id && key in fetched.fields && fetched.fields[key] != Null && fetched.fields[key] != Text("");
            && k < |next| && (key in next[k].fields <==> stated || key in current[k].fields)
            && (key in next[k].fields ==> next[k].fields[key] == if stated then fetched.fields[key] else current[k].fields[key])
  {
    MergedField(current[LastIndex(current, id).value], fetched, key);
    hide MergeEntry;
  }

  // ----- merging the same entries again

  /** The entry says which versions it affects. */
  predicate HasBound(e: Entry) {
    Ranges(e)[0].Bounded()
  }

  lemma HasBoundIff(e: Entry)
    ensures HasBound(e) <==> exists r | r in Ranges(e) :: NamesVersion(r)
  {
    hide Ranges;
    assert Ranges(e)[0] in Ranges(e);
    if !HasBound(e) {
      assert Ranges(e) == [FlatRange(e)];
    }
  }

  lemma BoundedThroughout(e: Entry)
    requires HasBound(e)
    ensures forall i | 0 <= i < |Ranges(e)| :: Ranges(e)[i].Bounded()
  {
    forall i | 0 <= i < |Ranges(e)|
      ensures Ranges(e)[i].Bounded()
    {
      assert Ranges(e)[i] in Ranges(e);
    }
  }

  lemma BuiltReadsBack(id: string, fields: map<string, Value>, ranges: seq<Range>)
    requires ranges != [] && forall i | 0 <= i < |ranges| :: ranges[i].Bounded()
    ensures Ranges(Build(id, fields, ranges)) == ranges
  {
    var e := Build(id, fields, ranges);
    BoundedItemsOf(ranges);
    if |ranges| == 1 {
      assert e.Get("ranges") == Null;
      assert Ranges(e) == [FlatRange(e)] == [ranges[0]];
    }
  }

  lemma {:induction false} DistinctTwice(a: seq<Range>, b: seq<Range>)
    ensures Distinct(Distinct(a) + b) == Distinct(a + b)
    decreases |b|
  {
    hide Distinct;
    if b == [] {
      assert Distinct(a) + b == Distinct(a) && a + b == a;
      DistinctFixed(Distinct(a));
    } else {
      var front, last := b[..|b| - 1], b[|b| - 1];
      DistinctTwice(a, front);
      assert Distinct(a) + b == Distinct(a) + front + [last] && a + b == a + front + [last];
      DistinctLast(Distinct(a) + front, last);
      DistinctLast(a + front, last);
    }
  }

  lemma DistinctLast(ranges: seq<Range>, last: Range)
    ensures Distinct(ranges + [last])
            == if last in Distinct(ranges) then Distinct(ranges) else Distinct(ranges) + [last]
  {
    assert (ranges + [last])[..|ranges|] == ranges;
  }

  lemma {:induction false} DistinctFixed(a: seq<Range>)
    requires forall i, j | 0 <= i < j < |a| :: a[i] != a[j]
    ensures Distinct(a) == a
  {
    if a == [] {
    } else {
      DistinctFixed(a[..|a| - 1]);
    }
  }

  lemma {:induction false} DistinctAbsorbs(a: seq<Range>, b: seq<Range>)
    requires forall r | r in b :: r in a
    ensures Distinct(a + b) == Distinct(a)
    decreases |b|
  {
    if b == [] {
      assert a + b == a;
    } else {
      var front := b[..|b| - 1];
      assert b == front + [b[|b| - 1]];
      DistinctAbsorbs(a, front);
      assert (a + b)[..|a + b| - 1] == a + front;
      assert b[|b| - 1] in b;
    }
  }

  /** The fetched entries with one identifier, in order. */
  function EntriesFor(entries: seq<Entry>, id: string): (found: seq<Entry>)
    ensures forall e | e in found :: e in entries && e.id == id
  {
    if entries == [] then []
    else
      var last := entries[|entries| - 1];
      EntriesFor(entries[..|entries| - 1], id) + (if last.id == id then [last] else [])
  }

  function Fold(previous: Entry, entries: seq<Entry>): Entry {
    if entries == [] then previous
    else MergeEntry(Fold(previous, entries[..|entries| - 1]), entries[|entries| - 1])
  }

  function AllStated(entries: seq<Entry>): map<string, Value> {
    if entries == [] then map[] else AllStated(entries[..|entries| - 1]) + StatedFields(entries[|entries| - 1])
  }

  function AllRanges(entries: seq<Entry>): (ranges: seq<Range>)
    ensures entries != [] ==> ranges != []
  {
    if entries == [] then [] else AllRanges(entries[..|entries| - 1]) + Ranges(entries[|entries| - 1])
  }

  ghost predicate AllBounded(entries: seq<Entry>) {
    forall i | 0 <= i < |entries| :: HasBound(entries[i])
  }

  lemma {:induction false} AllRangesBounded(entries: seq<Entry>)
    requires AllBounded(entries)
    ensures forall r | r in AllRanges(entries) :: r.Bounded()
  {
    if entries == [] {
    } else {
      AllRangesBounded(entries[..|entries| - 1]);
      BoundedThroughout(entries[|entries| - 1]);
    }
  }

  lemma BuildForgetsRangeFields(id: string, f: map<string, Value>, g: map<string, Value>, ranges: seq<Range>)
    requires ranges != [] && f - RANGE_KEYS == g - RANGE_KEYS
    ensures Build(id, f, ranges) == Build(id, g, ranges)
  {
  }

  lemma MergeIntoBuilt(id: string, fields: map<string, Value>, ranges: seq<Range>, last: Entry)
    requires ranges != [] && Ranges(Build(id, fields, ranges)) == ranges
    ensures MergeEntry(Build(id, fields, ranges), last)
            == Build(id, fields + StatedFields(last), Distinct(ranges + Ranges(last)))
  {
    hide Ranges, Distinct, StatedFields;
    var built := Build(id, fields, ranges);
    var stated := StatedFields(last);
    assert (built.fields + stated) - RANGE_KEYS == (fields + stated) - RANGE_KEYS;
    BuildForgetsRangeFields(id, built.fields + stated, fields + stated, Distinct(ranges + Ranges(last)));
  }

  /** The ranges a run of merges starts from: an open one does not outlive the second merge. */
  function BaseRanges(previous: Entry, entries: seq<Entry>): seq<Range> {
    if HasBound(previous) || |entries| <= 1 then Ranges(previous) else []
  }

  /** All fields stated, all ranges once: what a run of merges leaves. */
  function ClosedForm(previous: Entry, entries: seq<Entry>): Entry
    requires entries != []
  {
    Build(previous.id, previous.fields + AllStated(entries), Distinct(BaseRanges(previous, entries) + AllRanges(entries)))
  }

  /** Unless a single entry was merged into an open one, the closed form names versions only. */
  lemma ClosedFormReadsBack(previous: Entry, entries: seq<Entry>)
    requires entries != [] && AllBounded(entries) && (HasBound(previous) || |entries| > 1)
    ensures Ranges(ClosedForm(previous, entries)) == Distinct(BaseRanges(previous, entries) + AllRanges(entries))
  {
    var ranges := Distinct(BaseRanges(previous, entries) + AllRanges(entries));
    if HasBound(previous) {
      BoundedThroughout(previous);
    }
    AllRangesBounded(entries);
    hide Ranges, Build, AllRanges, Distinct;
    forall i | 0 <= i < |ranges|
      ensures ranges[i].Bounded()
    {
      assert ranges[i] in ranges;
    }
    BuiltReadsBack(previous.id, previous.fields + AllStated(entries), ranges);
  }

  lemma {:induction false} DistinctAfter(first: Range, ranges: seq<Range>)
    requires first !in ranges
    ensures Distinct([first] + ranges) == [first] + Distinct(ranges)
  {
    if ranges == [] {
      assert ([first] + ranges)[..0] == [];
    } else {
      hide Distinct;
      var front, last := ranges[..|ranges| - 1], ranges[|ranges| - 1];
      assert front + [last] == ranges && last in ranges;
      DistinctAfter(first, front);
      DistinctLast(front, last);
      assert [first] + front + [last] == [first] + ranges;
      DistinctLast([first] + front, last);
      AfterOther(first, Distinct(front), last);
    }
  }

  lemma AfterOther(first: Range, ranges: seq<Range>, last: Range)
    requires first != last
    ensures last in [first] + ranges <==> last in ranges
    ensures [first] + ranges + [last] == [first] + (ranges + [last])
  {
  }

  /** An open entry merged with one that names versions is read as naming those alone. */
  lemma OpenRangeIsDropped(previous: Entry, fetched: Entry)
    requires !HasBound(previous) && HasBound(fetched)
    ensures Ranges(MergeEntry(previous, fetched)) == Distinct(Ranges(fetched))
  {
    var open, named := FlatRange(previous), Ranges(fetched);
    BoundedThroughout(fetched);
    assert Ranges(previous) == [open] && open !in named;
    var distinct := Distinct(named);
    hide Ranges, Distinct;
    DistinctAfter(open, named);
    forall i | 0 <= i < |distinct|
      ensures distinct[i].Bounded()
    {
      assert distinct[i] in named;
    }
    BoundedItemsOf(distinct);
    OpenItemIsDropped(previous.id, previous.fields + StatedFields(fetched), open, distinct);
  }

  lemma OpenItemIsDropped(id: string, fields: map<string, Value>, open: Range, named: seq<Range>)
    requires !open.Bounded() && named != [] && BoundedItems(AsItems(named)) == named
    ensures Ranges(Build(id, fields, [open] + named)) == named
  {
    var ranges := [open] + named;
    assert ranges[1..] == named;
    assert Build(id, fields, ranges).Get("ranges") == Listed(AsItems(ranges));
    assert AsItems(ranges)[1..] == AsItems(named);
  }

  /** A run of merges in closed form, whatever it starts from. */
  lemma {:induction false} FoldForm(previous: Entry, entries: seq<Entry>)
    requires entries != [] && AllBounded(entries)
    ensures Fold(previous, entries) == ClosedForm(previous, entries)
    decreases |entries|
  {
    hide Ranges, Build, Distinct, StatedFields, HasBound, BaseRanges;
    var front, last := entries[..|entries| - 1], entries[|entries| - 1];
    if front == [] {
      OneMergeForm(previous, entries);
    } else {
      FoldForm(previous, front);
      OneMergeMore(previous, front, last);
      assert entries == front + [last];
    }
  }

  lemma OneMergeForm(previous: Entry, entries: seq<Entry>)
    requires |entries| == 1
    ensures Fold(previous, entries) == ClosedForm(previous, entries)
  {
    hide Ranges, Build, Distinct, StatedFields, HasBound;
    var last := entries[0];
    assert AllRanges(entries) == [] + Ranges(last) == Ranges(last);
    assert AllStated(entries) == map[] + StatedFields(last) == StatedFields(last);
  }

  lemma AllSnoc(front: seq<Entry>, last: Entry)
    ensures AllStated(front + [last]) == AllStated(front) + StatedFields(last)
    ensures AllRanges(front + [last]) == AllRanges(front) + Ranges(last)
  {
    assert (front + [last])[..|front|] == front;
  }

  lemma FrontBounded(front: seq<Entry>, last: Entry)
    requires AllBounded(front + [last])
    ensures AllBounded(front) && HasBound(last)
  {
    hide HasBound;
    assert (front + [last])[|front|] == last;
    assert forall i | 0 <= i < |front| :: front[i] == (front + [last])[i];
  }

  lemma OneMergeMore(previous: Entry, front: seq<Entry>, last: Entry)
    requires front != [] && AllBounded(front + [last])
    ensures MergeEntry(ClosedForm(previous, front), last) == ClosedForm(previous, front + [last])
  {
    hide Ranges, Build, Distinct, StatedFields, HasBound, AllStated, AllRanges, AllBounded, MergeEntry;
    FrontBounded(front, last);
    AllSnoc(front, last);
    var fields, ranges := previous.fields + AllStated(front), BaseRanges(previous, front) + AllRanges(front);
    assert fields + StatedFields(last) == previous.fields + (AllStated(front) + StatedFields(last));
    if HasBound(previous) || |front| > 1 {
      ClosedFormReadsBack(previous, front);
      MergeIntoBuilt(previous.id, fields, Distinct(ranges), last);
      assert ranges + Ranges(last) == BaseRanges(previous, front) + (AllRanges(front) + Ranges(last));
    } else {
      OneMergeForm(previous, front);
      assert front == [front[0]];
      FoldOne(previous, front[0]);
      FirstBounded(front);
      OpenRangeIsDropped(previous, front[0]);
      MergeIntoOpen(previous, front, last);
      ranges := AllRanges(front);
      assert ranges + Ranges(last) == [] + (AllRanges(front) + Ranges(last));
    }
    DistinctTwice(ranges, Ranges(last));
  }

  lemma FirstBounded(entries: seq<Entry>)
    requires entries != [] && AllBounded(entries)
    ensures HasBound(entries[0])
  {
    hide HasBound;
  }

  lemma MergeIntoOpen(previous: Entry, front: seq<Entry>, last: Entry)
    requires |front| == 1 && Ranges(ClosedForm(previous, front)) == Distinct(Ranges(front[0]))
    ensures AllRanges(front) == Ranges(front[0])
    ensures MergeEntry(ClosedForm(previous, front), last)
            == Build(previous.id, previous.fields + AllStated(front) + StatedFields(last),
                     Distinct(Distinct(AllRanges(front)) + Ranges(last)))
  {
    var fields, ranges := previous.fields + AllStated(front), Distinct(BaseRanges(previous, front) + AllRanges(front));
    BuildKeepsOthers(previous.id, fields, ranges);
    assert AllRanges(front) == [] + Ranges(front[0]) == Ranges(front[0]);
    hide Ranges, Distinct, StatedFields, Build, AllStated, AllRanges, BaseRanges;
    var once, stated := ClosedForm(previous, front), StatedFields(last);
    SameOutside(once.fields, fields, stated);
    BuildForgetsRangeFields(previous.id, once.fields + stated, fields + stated, MergedRanges(once, last));
  }

  lemma SameOutside(a: map<string, Value>, b: map<string, Value>, more: map<string, Value>)
    requires a - RANGE_KEYS == b - RANGE_KEYS
    ensures (a + more) - RANGE_KEYS == (b + more) - RANGE_KEYS
  {
    assert forall key | key !in RANGE_KEYS :: key in a <==> key in a - RANGE_KEYS;
    assert forall key | key !in RANGE_KEYS :: key in b <==> key in b - RANGE_KEYS;
    assert forall key | key in a && key !in RANGE_KEYS :: a[key] == (a - RANGE_KEYS)[key] == b[key];
  }

  /** Entries that state and name only what a built entry already has leave it as it is. */
  lemma NothingNewIsAbsorbed(id: string, fields: map<string, Value>, all: seq<Range>, entries: seq<Entry>)
    requires all != [] && (forall r | r in all :: r.Bounded()) && entries != [] && AllBounded(entries)
    requires (forall r | r in AllRanges(entries) :: r in all) && fields + AllStated(entries) == fields
    ensures Fold(Build(id, fields, Distinct(all)), entries) == Build(id, fields, Distinct(all))
  {
    var once, ranges, stated := Build(id, fields, Distinct(all)), Distinct(all), AllStated(entries);
    hide Ranges, Distinct, AllStated, AllRanges, HasBound, Build;
    forall i | 0 <= i < |ranges|
      ensures ranges[i].Bounded()
    {
      assert ranges[i] in all;
    }
    BuiltReadsBack(id, fields, ranges);
    BuiltHasBound(once, ranges);
    FoldForm(once, entries);
    assert BaseRanges(once, entries) == ranges;
    DistinctTwice(all, AllRanges(entries));
    DistinctAbsorbs(all, AllRanges(entries));
    BuildKeepsOthers(id, fields, ranges);
    SameOutside(once.fields, fields, stated);
    BuildForgetsRangeFields(id, once.fields + stated, fields, ranges);
  }

  lemma BuiltHasBound(e: Entry, ranges: seq<Range>)
    requires Ranges(e) == ranges && forall i | 0 <= i < |ranges| :: ranges[i].Bounded()
    ensures HasBound(e)
  {
  }

  lemma FoldSettles(previous: Entry, entries: seq<Entry>)
    requires AllBounded(entries) && entries != [] && (HasBound(previous) || |entries| > 1)
    ensures Fold(Fold(previous, entries), entries) == Fold(previous, entries)
  {
    hide Ranges, Distinct, AllStated, AllRanges, HasBound, Build, Fold, AllBounded;
    var fields, all := previous.fields + AllStated(entries), BaseRanges(previous, entries) + AllRanges(entries);
    FoldForm(previous, entries);
    AllRangesBounded(entries);
    if HasBound(previous) {
      RangesBounded(previous);
    }
    assert fields + AllStated(entries) == fields;
    NothingNewIsAbsorbed(previous.id, fields, all, entries);
  }

  lemma RangesBounded(e: Entry)
    requires HasBound(e)
    ensures forall r | r in Ranges(e) :: r.Bounded()
  {
  }

  /**
   Merging the same entries into one stored entry again changes nothing exactly
   when it named a version, or there was not just one of them. An entry that
   names none loses its open range from the stored form on the second merge.
   */
  lemma FoldTwiceIff(previous: Entry, entries: seq<Entry>)
    requires AllBounded(entries)
    ensures Fold(Fold(previous, entries), entries) == Fold(previous, entries)
            <==> HasBound(previous) || |entries| != 1
  {
    hide HasBound, AllBounded, MergeEntry, FlatRange;
    if entries == [] {
    } else if HasBound(previous) || |entries| > 1 {
      hide Fold;
      FoldSettles(previous, entries);
    } else {
      hide Fold;
      var fetched := entries[0];
      assert entries == [fetched];
      FoldOne(previous, fetched);
      FoldOne(MergeEntry(previous, fetched), fetched);
      FirstBounded(entries);
      OpenRangeIsLost(previous, fetched);
    }
  }

  lemma FoldNewSettles(first: Entry, rest: seq<Entry>)
    requires rest != [] && AllBounded([first] + rest)
    ensures Fold(Fold(first, rest), [first] + rest) == Fold(first, rest)
  {
    hide Ranges, Distinct, AllStated, AllRanges, HasBound, Build, Fold;
    var entries := [first] + rest;
    assert forall i | 0 <= i < |rest| :: rest[i] == entries[i + 1];
    assert AllBounded(rest) && HasBound(entries[0]);
    hide AllBounded;
    var fields, all := first.fields + AllStated(rest), Ranges(first) + AllRanges(rest);
    FoldForm(first, rest);
    FirstOfAll(first, rest);
    AllRangesBounded(rest);
    RangesBounded(first);
    assert fields + (StatedFields(first) + AllStated(rest)) == fields;
    NothingNewIsAbsorbed(first.id, fields, all, entries);
  }

  /** The same for entries of an identifier the database did not have: the first of them was appended as it came. */
  lemma FoldNewTwiceIff(entries: seq<Entry>)
    requires entries != [] && AllBounded(entries)
    ensures var once := Fold(entries[0], entries[1..]);
            Fold(once, entries) == once <==> |entries| != 1 || Stable(entries[0])
  {
    hide HasBound, AllBounded, MergeEntry;
    var first, rest := entries[0], entries[1..];
    assert entries == [first] + rest;
    if rest == [] {
      FoldOne(first, first);
    } else {
      hide Fold;
      FoldNewSettles(first, rest);
    }
  }

  lemma {:induction false} FirstOfAll(first: Entry, rest: seq<Entry>)
    ensures AllStated([first] + rest) == StatedFields(first) + AllStated(rest)
    ensures AllRanges([first] + rest) == Ranges(first) + AllRanges(rest)
    decreases |rest|
  {
    hide *;
    if rest == [] {
      assert [first] + rest == [] + [first];
      AllSnoc([], first);
      NothingStated();
    } else {
      var front, last := rest[..|rest| - 1], rest[|rest| - 1];
      FirstOfAll(first, front);
      AllSnoc(front, last);
      AllSnoc([first] + front, last);
      assert [first] + front + [last] == [first] + rest && front + [last] == rest;
      UpdatesAssociate(StatedFields(first), AllStated(front), StatedFields(last));
    }
  }

  lemma NothingStated()
    ensures AllStated([]) == map[] && AllRanges([]) == []
    ensures forall fields: map<string, Value> :: map[] + fields == fields && fields + map[] == fields
  {
  }

  lemma UpdatesAssociate(a: map<string, Value>, b: map<string, Value>, c: map<string, Value>)
    ensures a + b + c == a + (b + c)
  {
  }

  lemma BuildKeepsOthers(id: string, fields: map<string, Value>, ranges: seq<Range>)
    requires ranges != []
    ensures Build(id, fields, ranges).fields - RANGE_KEYS == fields - RANGE_KEYS
    ensures Build(id, fields, ranges).id == id
  {
  }

  lemma FoldOne(previous: Entry, fetched: Entry)
    ensures Fold(previous, [fetched]) == MergeEntry(previous, fetched)
  {
    assert Fold(previous, []) == previous;
  }

  lemma OpenRangeIsLost(previous: Entry, fetched: Entry)
    requires HasBound(fetched) && !HasBound(previous)
    ensures FlatRange(MergeEntry(previous, fetched)) != FlatRange(MergeEntry(MergeEntry(previous, fetched), fetched))
  {
    OpenRangeIsDropped(previous, fetched);
    var once := MergeEntry(previous, fetched);
    FlatAfterMerge(previous, fetched);
    FlatAfterMerge(once, fetched);
    BoundedThroughout(fetched);
    assert Distinct(Ranges(fetched))[0] == Ranges(fetched)[0];
  }

  lemma FlatAfterMerge(previous: Entry, fetched: Entry)
    ensures FlatRange(MergeEntry(previous, fetched)) == MergedRanges(previous, fetched)[0]
    ensures MergedRanges(previous, fetched)[0] == Ranges(previous)[0]
  {
  }

  /** An entry already in the shape a merge leaves it in. */
  ghost predicate Stable(e: Entry) {
    MergeEntry(e, e) == e
  }

  lemma FoldNext(previous: Entry, front: seq<Entry>, last: Entry, id: string)
    ensures EntriesFor(front + [last], id) == EntriesFor(front, id) + (if last.id == id then [last] else [])
    ensures Fold(previous, EntriesFor(front + [last], id))
            == if last.id == id then MergeEntry(Fold(previous, EntriesFor(front, id)), last)
               else Fold(previous, EntriesFor(front, id))
  {
    hide MergeEntry;
    var mine := EntriesFor(front, id);
    assert (front + [last])[..|front|] == front;
    assert (mine + [last])[..|mine|] == mine && mine + [] == mine;
  }

  /** Where the next fetched entry lands among entries with unique ids. */
  lemma StepAt(current: seq<Entry>, fetched: Entry, i: nat)
    requires UniqueIds(current) && i < |current|
    ensures i < |Step(current, fetched)|
    ensures Step(current, fetched)[i] == if fetched.id == current[i].id then MergeEntry(current[i], fetched) else current[i]
  {
    hide MergeEntry;
    if fetched.id == current[i].id {
      var k := LastIndex(current, fetched.id).value;
      assert k == i;
    }
  }

  lemma MergeNext(current: seq<Entry>, entries: seq<Entry>)
    requires entries != []
    ensures var front, last := entries[..|entries| - 1], entries[|entries| - 1];
            entries == front + [last] && Merge(current, entries) == Step(Merge(current, front), last)
  {
  }

  lemma {:induction false} MergedStoredEntry(current: seq<Entry>, entries: seq<Entry>, i: nat)
    requires UniqueIds(current) && i < |current|
    ensures i < |Merge(current, entries)| && Merge(current, entries)[i].id == current[i].id
    ensures Merge(current, entries)[i] == Fold(current[i], EntriesFor(entries, current[i].id))
    decreases |entries|
  {
    if entries == [] {
    } else {
      hide Merge, MergeEntry, Step, EntriesFor, Fold, UniqueIds, LastIndex;
      var front, last := entries[..|entries| - 1], entries[|entries| - 1];
      MergeNext(current, entries);
      MergedStoredEntry(current, front, i);
      MergeKeepsIdsUnique(current, front);
      StepAt(Merge(current, front), last, i);
      FoldNext(current[i], front, last, current[i].id);
      assert MergeEntry(Merge(current, front)[i], last).id == current[i].id by {
        MergeKeepsId(Merge(current, front)[i], last);
      }
    }
  }

  /** Every merged entry behind the stored ones is the first fetched with its id, the others folded in. */
  lemma {:induction false} MergedNewEntry(current: seq<Entry>, entries: seq<Entry>, i: nat)
    requires UniqueIds(current) && |current| <= i < |Merge(current, entries)|
    ensures var mine := EntriesFor(entries, Merge(current, entries)[i].id);
            && mine != [] && Merge(current, entries)[i] == Fold(mine[0], mine[1..])
            && LastIndex(current, Merge(current, entries)[i].id).None?
    decreases |entries|
  {
    hide Merge, MergeEntry, Step, EntriesFor, Fold, UniqueIds, LastIndex;
    if entries == [] {
      MergeNone(current);
    } else {
      var front, last := entries[..|entries| - 1], entries[|entries| - 1];
      var before := Merge(current, front);
      MergeNext(current, entries);
      MergeKeepsIdsUnique(current, front);
      if i < |before| {
        var mine := EntriesFor(front, before[i].id);
        MergedNewEntry(current, front, i);
        StepAt(before, last, i);
        MergeKeepsId(before[i], last);
        FoldNext(mine[0], front, last, before[i].id);
        assert mine == [mine[0]] + mine[1..];
        assert (mine + [last])[1..] == mine[1..] + [last];
        FoldSnoc(mine[0], mine[1..], last);
        assert mine + [] == mine;
      } else {
        StepAppends(before, front, last, i);
        FoldNext(last, front, last, last.id);
        NewIdIsNotStored(current, front, last.id);
        assert [last][1..] == [] && [] + [last] == [last];
      }
    }
  }

  lemma FoldSnoc(previous: Entry, entries: seq<Entry>, last: Entry)
    ensures Fold(previous, entries + [last]) == MergeEntry(Fold(previous, entries), last)
  {
    assert (entries + [last])[..|entries|] == entries;
  }

  lemma MergeNone(current: seq<Entry>)
    ensures Merge(current, []) == current
  {
  }

  lemma NewIdIsNotStored(current: seq<Entry>, entries: seq<Entry>, id: string)
    requires LastIndex(Merge(current, entries), id).None?
    ensures LastIndex(current, id).None?
  {
    forall i | 0 <= i < |current|
      ensures current[i].id != id
    {
      MergeKeeps(current, entries, i, "id");
      assert Merge(current, entries)[i].id == current[i].id;
    }
  }

  lemma StepAppends(before: seq<Entry>, front: seq<Entry>, last: Entry, i: nat)
    requires |before| <= i < |Step(before, last)|
    requires forall e | e in front :: LastIndex(before, e.id).Some?
    ensures Step(before, last)[i] == last && EntriesFor(front, last.id) == [] && Fold(last, []) == last
    ensures LastIndex(before, last.id).None?
  {
    hide MergeEntry;
    forall e | e in front
      ensures e.id != last.id
    {
      assert LastIndex(before, e.id).Some?;
    }
    NoEntriesFor(front, last.id);
  }

  lemma {:induction false} NoEntriesFor(entries: seq<Entry>, id: string)
    requires forall e | e in entries :: e.id != id
    ensures EntriesFor(entries, id) == []
  {
    if entries == [] {
    } else {
      NoEntriesFor(entries[..|entries| - 1], id);
    }
  }

  lemma {:induction false} AllPresentAddsNone(current: seq<Entry>, entries: seq<Entry>)
    requires forall e | e in entries :: LastIndex(current, e.id).Some?
    ensures |Merge(current, entries)| == |current|
    decreases |entries|
  {
    if entries == [] {
    } else {
      var front, last := entries[..|entries| - 1], entries[|entries| - 1];
      AllPresentAddsNone(current, front);
      var k := LastIndex(current, last.id).value;
      MergeKeeps(current, front, k, "id");
      assert Merge(current, front)[k].id == last.id;
    }
  }

  /** A stored entry survives the repeat: it names a version, or is not fetched exactly once. */
  predicate KeepsOnRepeat(stored: Entry, entries: seq<Entry>) {
    HasBound(stored) || |EntriesFor(entries, stored.id)| != 1
  }

  /** So does a fetched one: the database had its id, or it was not the only one, or it is in merged shape. */
  ghost predicate SettlesAtOnce(current: seq<Entry>, entries: seq<Entry>, fetched: Entry) {
    LastIndex(current, fetched.id).Some? || |EntriesFor(entries, fetched.id)| != 1 || Stable(fetched)
  }

  /**
   Exactly when a second refresh with the same answer leaves the whole database
   as the first one made it, for every database with unique ids and every feed
   whose entries name versions.
   */
  lemma {:induction false} MergeTwiceIff(current: seq<Entry>, entries: seq<Entry>)
    requires UniqueIds(current) && AllBounded(entries)
    ensures Merge(Merge(current, entries), entries) == Merge(current, entries)
            <==> && (forall i | 0 <= i < |current| :: KeepsOnRepeat(current[i], entries))
                 && (forall e | e in entries :: SettlesAtOnce(current, entries, e))
  {
    hide Merge, EntriesFor, Fold, UniqueIds, HasBound, Stable, LastIndex, SettlesAtOnce;
    var once := Merge(current, entries);
    var twice := Merge(once, entries);
    MergeKeepsIdsUnique(current, entries);
    AllPresentAddsNone(once, entries);
    MergeGrows(current, entries);
    forall i | 0 <= i < |current|
      ensures twice[i] == once[i] <==> KeepsOnRepeat(current[i], entries)
    {
      StoredRepeat(current, entries, i);
    }
    forall i | |current| <= i < |once|
      ensures twice[i] == once[i] <==> forall e | e in entries && e.id == once[i].id :: SettlesAtOnce(current, entries, e)
    {
      NewRepeat(current, entries, i);
    }
    forall e | e in entries
      ensures SettlesAtOnce(current, entries, e) || exists i | |current| <= i < |once| :: once[i].id == e.id
    {
      FetchedIsSomewhere(current, entries, e);
    }
  }

  lemma MergeGrows(current: seq<Entry>, entries: seq<Entry>)
    ensures |current| <= |Merge(current, entries)|
  {
    if current != [] {
      MergeKeeps(current, entries, 0, "id");
    } else {
    }
  }

  lemma EntriesForBounded(entries: seq<Entry>, id: string)
    requires AllBounded(entries)
    ensures AllBounded(EntriesFor(entries, id))
  {
    hide HasBound;
    var mine := EntriesFor(entries, id);
    forall k | 0 <= k < |mine|
      ensures HasBound(mine[k])
    {
      assert mine[k] in mine;
    }
  }

  lemma StoredRepeat(current: seq<Entry>, entries: seq<Entry>, i: nat)
    requires UniqueIds(current) && AllBounded(entries) && i < |current|
    ensures var once := Merge(current, entries);
            i < |once| && i < |Merge(once, entries)|
            && (Merge(once, entries)[i] == once[i] <==> KeepsOnRepeat(current[i], entries))
  {
    hide Merge, EntriesFor, Fold, UniqueIds, HasBound;
    MergeKeepsIdsUnique(current, entries);
    MergedStoredEntry(current, entries, i);
    MergedStoredEntry(Merge(current, entries), entries, i);
    EntriesForBounded(entries, current[i].id);
    FoldTwiceIff(current[i], EntriesFor(entries, current[i].id));
  }

  lemma NewRepeat(current: seq<Entry>, entries: seq<Entry>, i: nat)
    requires UniqueIds(current) && AllBounded(entries) && |current| <= i < |Merge(current, entries)|
    ensures var once := Merge(current, entries);
            i < |Merge(once, entries)|
            && (Merge(once, entries)[i] == once[i]
                <==> forall e | e in entries && e.id == once[i].id :: SettlesAtOnce(current, entries, e))
  {
    hide Merge, EntriesFor, Fold, UniqueIds, HasBound, Stable, LastIndex;
    var once := Merge(current, entries);
    var id := once[i].id;
    var mine := EntriesFor(entries, id);
    MergeKeepsIdsUnique(current, entries);
    MergedNewEntry(current, entries, i);
    MergedStoredEntry(once, entries, i);
    EntriesForBounded(entries, id);
    FoldNewTwiceIff(mine);
    assert mine[0] in mine;
    forall e | e in entries && e.id == id
      ensures e in mine
    {
      FetchedIsItsOwn(entries, e);
    }
    if |mine| == 1 {
      assert mine == [mine[0]];
    }
  }

  lemma {:induction false} FetchedIsItsOwn(entries: seq<Entry>, e: Entry)
    requires e in entries
    ensures e in EntriesFor(entries, e.id)
  {
    var front, last := entries[..|entries| - 1], entries[|entries| - 1];
    assert entries == front + [last];
    if e in front {
      FetchedIsItsOwn(front, e);
    }
  }

  lemma FetchedIsSomewhere(current: seq<Entry>, entries: seq<Entry>, e: Entry)
    requires UniqueIds(current) && e in entries
    ensures SettlesAtOnce(current, entries, e)
            || exists i | |current| <= i < |Merge(current, entries)| :: Merge(current, entries)[i].id == e.id
  {
    hide Merge, EntriesFor, UniqueIds, Stable;
    MergeKeepsIdsUnique(current, entries);
    var i := LastIndex(Merge(current, entries), e.id).value;
    assert Merge(current, entries)[i].id == e.id;
    if i < |current| {
      MergeKeeps(current, entries, i, "id");
      assert current[i].id == e.id;
    }
  }

  /** A hand-written entry that documents a finding and names no version, and one fetched for the same id. */
  lemma OpenEntryRefreshedTwice() returns (stored: Entry, fetched: Entry)
    ensures stored == Entry("OC-EOL", map["title" := Text("Unmaintained release"), "introduced" := Null, "fixed" := Null])
    ensures fetched == Entry("OC-EOL", map["introduced" := Text("1.0.0"), "fixed" := Text("2.0.0")])
    ensures Merge(Merge([stored], [fetched]), [fetched]) != Merge([stored], [fetched])
  {
    stored := Entry("OC-EOL", map["title" := Text("Unmaintained release"), "introduced" := Null, "fixed" := Null]);
    fetched := Entry("OC-EOL", map["introduced" := Text("1.0.0"), "fixed" := Text("2.0.0")]);
    assert stored.Get("ranges") == Null && fetched.Get("ranges") == Null;
    assert Ranges(stored) == [Range(Null, Null)] && Ranges(fetched) == [Range(Text("1.0.0"), Text("2.0.0"))];
    assert !HasBound(stored) && HasBound(fetched);
    hide Ranges, HasBound, Merge, Stable, LastIndex;
    assert [fetched][..0] == [];
    assert EntriesFor([], "OC-EOL") == [] && EntriesFor([fetched], "OC-EOL") == [fetched];
    MergeTwiceIff([stored], [fetched]);
    assert !KeepsOnRepeat([stored][0], [fetched]);
  }

  // ----- entries this program writes itself

  datatype Advisory = Advisory(id: string, cwe: string, title: string, description: string,
                               severity: string, url: string, ranges: seq<Range>)

  const DESCRIPTION_LIMIT := 500

  function Shortened(s: string): string {
    if |s| > DESCRIPTION_LIMIT then s[..DESCRIPTION_LIMIT] else s
  }

  function ToNative(a: Advisory, source: string): Entry
    requires a.ranges != []
  {
    var entry := map["id" := Text(a.id), "cwe" := Text(a.cwe), "title" := Text(a.title),
                     "description" := Text(Shortened(a.description)), "severity" := Text(a.severity),
                     "url" := Text(a.url), "introduced" := a.ranges[0].introduced,
                     "fixed" := a.ranges[0].fixed, "source" := Text(source)];
    Entry(a.id, if |a.ranges| > 1 then entry["ranges" := Listed(AsItems(a.ranges))] else entry)
  }

  /** The entry written for an advisory reads back as its ranges, in order. */
  lemma NativeReadsBack(a: Advisory, source: string)
    requires a.ranges != [] && forall i | 0 <= i < |a.ranges| :: a.ranges[i].Bounded()
    ensures Ranges(ToNative(a, source)) == a.ranges && HasBound(ToNative(a, source))
  {
    var e := ToNative(a, source);
    assert e.fields == Build(a.id, e.fields, a.ranges).fields;
    BuiltReadsBack(a.id, e.fields, a.ranges);
  }

  /** It is in merged shape exactly when the advisory lists no range twice. */
  lemma NativeIsStableIff(a: Advisory, source: string)
    requires a.ranges != [] && forall i | 0 <= i < |a.ranges| :: a.ranges[i].Bounded()
    ensures Stable(ToNative(a, source)) <==> forall i, j | 0 <= i < j < |a.ranges| :: a.ranges[i] != a.ranges[j]
  {
    var e := ToNative(a, source);
    NativeReadsBack(a, source);
    NativeRepeats(a, source);
    DistinctAbsorbs(a.ranges, a.ranges);
    hide ToNative, MergeEntry, Build;
    var distinct := Distinct(a.ranges);
    if forall i, j | 0 <= i < j < |a.ranges| :: a.ranges[i] != a.ranges[j] {
      DistinctFixed(a.ranges);
    }
    if Stable(e) {
      forall i | 0 <= i < |distinct|
        ensures distinct[i].Bounded()
      {
        assert distinct[i] in a.ranges;
      }
      BuiltReadsBack(a.id, e.fields, distinct);
    }
  }

  lemma NativeRepeats(a: Advisory, source: string)
    requires a.ranges != [] && Ranges(ToNative(a, source)) == a.ranges
    ensures ToNative(a, source) == Build(a.id, ToNative(a, source).fields, a.ranges)
    ensures MergeEntry(ToNative(a, source), ToNative(a, source))
            == Build(a.id, ToNative(a, source).fields, Distinct(a.ranges + a.ranges))
  {
    var e := ToNative(a, source);
    assert e.fields == Build(a.id, e.fields, a.ranges).fields;
    assert e.fields + StatedFields(e) == e.fields;
  }
}
