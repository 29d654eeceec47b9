/** Configuration fingerprints: what two scans may say about each other from digests alone. */
module Fingerprint {
  import opened Wrappers
  import opened Sorting
  import opened Text

  datatype Group = Tls | Headers | Sharing | Authentication | Proxy {
    function Name(): string {
      match this
      case Tls => "tls"
      case Headers => "headers"
      case Sharing => "sharing"
      case Authentication => "authentication"
      case Proxy => "proxy"
    }
  }

  const GROUPS: seq<Group> := [Tls, Headers, Sharing, Authentication, Proxy]
  const NOT_MEASURED := "none"

  type Fact = (string, string)

  /** What is serialised and hashed: a sorted list of facts, or of their keys alone. */
  datatype Canonical = FactList(facts: seq<Fact>) | KeyList(keys: seq<string>)

  /** What SHA-256 in hexadecimal is relied on for. */
  ghost predicate CollisionFree(sha: Canonical -> string) {
    && (forall a, b :: sha(a) == sha(b) ==> a == b)
    && (forall a :: sha(a) != NOT_MEASURED && sha(a) != "" && ':' !in sha(a))
  }

  // ----- collecting facts

  /** A value a collector hands over; `Other` stands for its `str` form. */
  datatype Value = Null | Bool(truth: bool) | Other(text: string)

  /** Python's split without a separator: the maximal runs without white space. */
  function Words(s: string): (words: seq<string>)
    ensures s != "" && !IsSpace(s[0]) ==> words != []
  {
    if s == "" then []
    else if IsSpace(s[0]) then Words(s[1..])
    else if |s| == 1 || IsSpace(s[1]) then [[s[0]]] + Words(s[1..])
    else
      var rest := Words(s[1..]);
      [[s[0]] + rest[0]] + rest[1..]
  }

  function Normalise(value: Value): string {
    match value
    case Null => "null"
    case Bool(truth) => if truth then "true" else "false"
    case Other(text) => Lower(Join(Words(text), ' '))
  }

  predicate IsWord(w: string) {
    w != "" && forall c | c in w :: !IsSpace(c)
  }

  lemma {:induction false} WordsAreWords(s: string)
    ensures forall w | w in Words(s) :: IsWord(w)
  {
    if s == "" {
    } else {
      WordsAreWords(s[1..]);
      if !IsSpace(s[0]) && |s| > 1 && !IsSpace(s[1]) {
        var rest := Words(s[1..]);
        assert IsWord(rest[0]);
        assert IsWord([s[0]] + rest[0]);
      }
    }
  }

  function LowerAll(words: seq<string>): (r: seq<string>)
    ensures |r| == |words|
  {
    if words == [] then [] else [Lower(words[0])] + LowerAll(words[1..])
  }

  lemma {:induction false} LowerJoined(words: seq<string>)
    ensures Lower(Join(words, ' ')) == Join(LowerAll(words), ' ')
  {
    if |words| > 1 {
      LowerJoined(words[1..]);
    }
  }

  lemma {:induction false} LowerWords(words: seq<string>)
    requires forall w | w in words :: IsWord(w)
    ensures forall w | w in LowerAll(words) :: IsWord(w)
  {
    if words == [] {
    } else {
      assert IsWord(words[0]);
      var low := Lower(words[0]);
      forall c | c in low
        ensures !IsSpace(c)
      {
        var i :| 0 <= i < |low| && low[i] == c;
        assert words[0][i] in words[0];
      }
      LowerWords(words[1..]);
    }
  }

  lemma {:induction false} WordThenSpace(w: string, rest: string)
    requires IsWord(w)
    ensures Words(w + " " + rest) == [w] + Words(rest)
    ensures Words(w) == [w]
  {
    var s := w + " " + rest;
    if |w| == 1 {
      assert s[1..] == " " + rest && (" " + rest)[1..] == rest && w == [w[0]];
    } else {
      assert w[0] in w && w[1] in w;
      assert forall c | c in w[1..] :: c in w;
      WordThenSpace(w[1..], rest);
      assert s[1..] == w[1..] + " " + rest && w == [w[0]] + w[1..];
    }
  }

  lemma {:induction false} WordsOfJoined(words: seq<string>)
    requires forall w | w in words :: IsWord(w)
    ensures Words(Join(words, ' ')) == words
  {
    if words == [] {
    } else {
      assert IsWord(words[0]);
      WordThenSpace(words[0], Join(words[1..], ' '));
      WordsOfJoined(words[1..]);
      assert words == [words[0]] + words[1..];
    }
  }

  /** Two texts are the same fact exactly when they hold the same words, spacing and case aside. */
  lemma {:induction false} SameFactIff(a: string, b: string)
    ensures Normalise(Other(a)) == Normalise(Other(b)) <==> LowerAll(Words(a)) == LowerAll(Words(b))
  {
    WordsAreWords(a);
    WordsAreWords(b);
    LowerJoined(Words(a));
    LowerJoined(Words(b));
    LowerWords(Words(a));
    LowerWords(Words(b));
    WordsOfJoined(LowerAll(Words(a)));
    WordsOfJoined(LowerAll(Words(b)));
  }

  /** A flag is the same fact as its word, in any case and spacing. */
  lemma FlagIsItsWord(truth: bool, text: string)
    ensures Normalise(Bool(truth)) == Normalise(Other(text)) <==> LowerAll(Words(text)) == [if truth then "true" else "false"]
  {
    var word := if truth then "true" else "false";
    assert Lower(word) == word;
    WordThenSpace(word, "");
    assert LowerAll([word]) == [word] by { assert [word][1..] == []; }
    SameFactIff(word, text);
    assert Normalise(Other(word)) == Lower(Join([word], ' ')) == word;
  }

  /** A fact is its words in small letters, one blank apart. */
  lemma FactIsItsWords(text: string)
    ensures Normalise(Other(text)) == Join(LowerAll(Words(text)), ' ')
  {
    LowerJoined(Words(text));
  }

  class Facts {
    var groups: map<Group, seq<Fact>>

    ghost predicate Valid()
      reads this
    {
      forall g: Group :: g in groups
    }

    constructor ()
      ensures Valid() && forall g: Group :: groups[g] == []
    {
      groups := map[Tls := [], Headers := [], Sharing := [], Authentication := [], Proxy := []];
      new;
      forall g: Group
        ensures g in groups
      {
        assert g.Tls? || g.Headers? || g.Sharing? || g.Authentication? || g.Proxy?;
      }
    }

    /** A probe that did not run leaves nothing behind. */
    method Add(group: Group, key: string, value: Value)
      requires Valid()
      modifies this
      ensures Valid()
      ensures groups == if value.Null? then old(groups)
                        else old(groups)[group := old(groups)[group] + [(key, Normalise(value))]]
    {
      if value == Null {
        return;
      }
      groups := groups[group := groups[group] + [(key, Normalise(value))]];
    }
  }

  // ----- digests

  function Keys(facts: seq<Fact>): (keys: seq<string>)
    ensures |keys| == |facts| && forall i | 0 <= i < |facts| :: keys[i] == facts[i].0
  {
    seq(|facts|, i requires 0 <= i < |facts| => facts[i].0)
  }

  function DigestOf(facts: seq<Fact>, sha: Canonical -> string): string {
    if facts == [] then NOT_MEASURED else sha(FactList(Sort(facts, PairLeq)))
  }

  function ScopeOf(facts: seq<Fact>, sha: Canonical -> string): string {
    if facts == [] then NOT_MEASURED else sha(KeyList(Sort(Keys(facts), StringLeq)))
  }

  /** Equal digests mean equal facts, whatever order they were collected in. */
  lemma DigestsAgreeIff(a: seq<Fact>, b: seq<Fact>, sha: Canonical -> string)
    requires CollisionFree(sha)
    ensures DigestOf(a, sha) == DigestOf(b, sha) <==> multiset(a) == multiset(b)
    ensures DigestOf(a, sha) == "none" <==> a == []
  {
    PairOrder();
    SortCanonical(a, b, PairLeq);
    assert |multiset(a)| == |a| && |multiset(b)| == |b|;
    hide Sort, PairLeq, TotalPreorder, Antisymmetric;
  }

  /** Equal scopes mean the same keys were looked at, however often each. */
  lemma ScopesAgreeIff(a: seq<Fact>, b: seq<Fact>, sha: Canonical -> string)
    requires CollisionFree(sha)
    ensures ScopeOf(a, sha) == ScopeOf(b, sha) <==> multiset(Keys(a)) == multiset(Keys(b))
    ensures ScopeOf(a, sha) == "none" <==> a == []
    ensures ':' !in ScopeOf(a, sha)
  {
    StringOrder();
    SortCanonical(Keys(a), Keys(b), StringLeq);
    assert |multiset(Keys(a))| == |a| && |multiset(Keys(b))| == |b|;
    hide Sort, StringLeq, TotalPreorder, Antisymmetric;
  }

  /** The one value over the five group digests. */
  function OverallDigest(facts: Group -> seq<Fact>, sha: Canonical -> string): string {
    DigestOf(seq(5, i requires 0 <= i < 5 => (GROUPS[i].Name(), DigestOf(facts(GROUPS[i]), sha))), sha)
  }

  lemma NamesAreDistinct(g: Group, h: Group)
    ensures g.Name() == h.Name() ==> g == h
    ensures g in GROUPS
  {
    assert GROUPS[0] == Tls && GROUPS[1] == Headers && GROUPS[2] == Sharing && GROUPS[3] == Authentication && GROUPS[4] == Proxy;
    assert Headers.Name()[0] != Sharing.Name()[0];
  }

  /** What the one value is the hash of: the five digests under their names, in the order of the names. */
  lemma OverallDigestIs(facts: Group -> seq<Fact>, sha: Canonical -> string)
    ensures OverallDigest(facts, sha)
            == sha(FactList([("authentication", DigestOf(facts(Authentication), sha)), ("headers", DigestOf(facts(Headers), sha)),
                             ("proxy", DigestOf(facts(Proxy), sha)), ("sharing", DigestOf(facts(Sharing), sha)),
                             ("tls", DigestOf(facts(Tls), sha))]))
  {
    var a, h, p, s, t := DigestOf(facts(Authentication), sha), DigestOf(facts(Headers), sha), DigestOf(facts(Proxy), sha),
                         DigestOf(facts(Sharing), sha), DigestOf(facts(Tls), sha);
    var listed := seq(5, i requires 0 <= i < 5 => (GROUPS[i].Name(), DigestOf(facts(GROUPS[i]), sha)));
    assert listed == [("tls", t), ("headers", h), ("sharing", s), ("authentication", a), ("proxy", p)];
    hide DigestOf, GROUPS;
    FiveNamesSorted(a, h, p, s, t);
    assert OverallDigest(facts, sha) == DigestOf(listed, sha);
    NotEmptyDigest(listed, sha);
  }

  lemma NotEmptyDigest(facts: seq<Fact>, sha: Canonical -> string)
    requires facts != []
    ensures DigestOf(facts, sha) == sha(FactList(Sort(facts, PairLeq)))
  {
  }

  lemma FiveNamesSorted(a: string, h: string, p: string, s: string, t: string)
    ensures Sort([("tls", t), ("headers", h), ("sharing", s), ("authentication", a), ("proxy", p)], PairLeq)
            == [("authentication", a), ("headers", h), ("proxy", p), ("sharing", s), ("tls", t)]
  {
    var listed: seq<Fact> := [("tls", t), ("headers", h), ("sharing", s), ("authentication", a), ("proxy", p)];
    var sorted: seq<Fact> := [("authentication", a), ("headers", h), ("proxy", p), ("sharing", s), ("tls", t)];
    NamesDiffer(listed, sorted);
    SameMembersSameContents(listed, sorted);
    NamesStandInOrder(sorted);
    hide *;
    PairOrder();
    SortOrdered(listed, PairLeq);
    SortContents(listed, PairLeq);
    OrderedUnique(Sort(listed, PairLeq), sorted, PairLeq);
  }

  lemma NamesDiffer(listed: seq<Fact>, sorted: seq<Fact>)
    requires |sorted| == 5 && sorted[0].0 == "authentication" && sorted[1].0 == "headers" && sorted[2].0 == "proxy"
    requires sorted[3].0 == "sharing" && sorted[4].0 == "tls"
    requires listed == [sorted[4], sorted[1], sorted[3], sorted[0], sorted[2]]
    ensures forall i, j | 0 <= i < j < |listed| :: listed[i] != listed[j]
    ensures forall i, j | 0 <= i < j < |sorted| :: sorted[i] != sorted[j]
    ensures forall x :: x in listed <==> x in sorted
  {
    forall i, j | 0 <= i < j < 5
      ensures sorted[i] != sorted[j]
    {
      assert sorted[i].0[0] != sorted[j].0[0];
    }
    assert sorted == [sorted[0], sorted[1], sorted[2], sorted[3], sorted[4]];
  }

  lemma NamesStandInOrder(sorted: seq<Fact>)
    requires |sorted| == 5 && sorted[0].0 == "authentication" && sorted[1].0 == "headers" && sorted[2].0 == "proxy"
    requires sorted[3].0 == "sharing" && sorted[4].0 == "tls"
    ensures Ordered(sorted, PairLeq)
  {
    forall i, j | 0 <= i < j < 5
      ensures PairLeq(sorted[i], sorted[j])
    {
      assert sorted[i].0[0] < sorted[j].0[0];
      assert StringLeq(sorted[i].0, sorted[j].0);
    }
  }

  /** The overall digest stays put exactly when every group holds the facts it held. */
  lemma OverallDigestMovesWithAnyGroup(a: Group -> seq<Fact>, b: Group -> seq<Fact>, sha: Canonical -> string)
    requires CollisionFree(sha)
    ensures OverallDigest(a, sha) == OverallDigest(b, sha) <==> forall g: Group :: multiset(a(g)) == multiset(b(g))
  {
    var left := seq(5, i requires 0 <= i < 5 => (GROUPS[i].Name(), DigestOf(a(GROUPS[i]), sha)));
    var right := seq(5, i requires 0 <= i < 5 => (GROUPS[i].Name(), DigestOf(b(GROUPS[i]), sha)));
    DigestsAgreeIff(left, right, sha);
    forall g: Group
      ensures DigestOf(a(g), sha) == DigestOf(b(g), sha) <==> multiset(a(g)) == multiset(b(g))
    {
      DigestsAgreeIff(a(g), b(g), sha);
    }
    hide DigestOf, CollisionFree;
    if multiset(left) == multiset(right) {
      forall g: Group
        ensures DigestOf(a(g), sha) == DigestOf(b(g), sha)
      {
        NamesAreDistinct(g, g);
        var i :| 0 <= i < 5 && GROUPS[i] == g;
        assert left[i] in multiset(left);
        var j :| 0 <= j < 5 && right[j] == left[i];
        NamesAreDistinct(GROUPS[i], GROUPS[j]);
      }
    }
    if forall g: Group :: multiset(a(g)) == multiset(b(g)) {
      assert left == right;
    }
  }

  // ----- comparing stored strings

  /** What a report's block says of a group; None for anything but a string. */
  datatype Entry = Entry(digest: Option<string>, scope: Option<string>)

  /** One opaque string per group the block has a digest for. */
  function Digests(entries: map<Group, Entry>): map<Group, string> {
    map g | g in entries && entries[g].digest.Some? ::
      (if entries[g].scope.Some? then entries[g].scope.value else NOT_MEASURED) + ":" + entries[g].digest.value
  }

  function Recorded(facts: Group -> seq<Fact>, sha: Canonical -> string): map<Group, Entry> {
    map g | g in GROUPS :: Entry(Some(DigestOf(facts(g), sha)), Some(ScopeOf(facts(g), sha)))
  }

  /** Python's partition at the first colon. */
  function Partition(s: string): (string, string) {
    if s == "" then ("", "")
    else if s[0] == ':' then ("", s[1..])
    else
      var rest := Partition(s[1..]);
      ([s[0]] + rest.0, rest.1)
  }

  /** Scope and digest of a stored string; anything else is unmeasured. */
  function Parts(value: string): (string, string) {
    var cut := Partition(value);
    if cut.1 == "" then (NOT_MEASURED, NOT_MEASURED) else cut
  }

  function Stored(digests: map<Group, string>, g: Group): (string, string) {
    Parts(if g in digests then digests[g] else "")
  }

  lemma {:induction false} PartitionAtColon(scope: string, digest: string)
    requires ':' !in scope
    ensures Partition(scope + ":" + digest) == (scope, digest)
  {
    var s := scope + ":" + digest;
    if scope == "" {
      assert s[1..] == digest;
    } else {
      PartitionAtColon(scope[1..], digest);
      assert s[1..] == scope[1..] + ":" + digest && scope == [scope[0]] + scope[1..];
    }
  }

  /** A stored string says scope and digest around its first colon, and nothing where it has none or ends there. */
  lemma {:induction false} StoredStringReads(value: string, k: nat)
    ensures ':' !in value ==> Parts(value) == ("none", "none")
    ensures k < |value| && value[k] == ':' && ':' !in value[..k] ==>
              Parts(value) == if k + 1 == |value| then ("none", "none") else (value[..k], value[k + 1..])
  {
    if ':' !in value {
      WithoutColon(value);
    }
    if k < |value| && value[k] == ':' && ':' !in value[..k] {
      assert value == value[..k] + ":" + value[k + 1..];
      PartitionAtColon(value[..k], value[k + 1..]);
    }
  }

  lemma {:induction false} WithoutColon(value: string)
    requires ':' !in value
    ensures Partition(value).1 == ""
  {
    if value == "" {
    } else {
      WithoutColon(value[1..]);
    }
  }

  /** A group that was not stored says nothing. */
  lemma NothingStored(digests: map<Group, string>, g: Group)
    ensures Stored(digests, g) == if g in digests then Parts(digests[g]) else ("none", "none")
  {
    StoredStringReads("", 0);
  }

  predicate MeasuredOnBoth(before: map<Group, string>, after: map<Group, string>, g: Group) {
    Stored(before, g).1 != NOT_MEASURED && Stored(after, g).1 != NOT_MEASURED
  }

  predicate Drifted(before: map<Group, string>, after: map<Group, string>, g: Group) {
    && MeasuredOnBoth(before, after, g)
    && Stored(before, g).0 == Stored(after, g).0
    && Stored(before, g).1 != Stored(after, g).1
  }

  function Select(groups: seq<Group>, keep: Group -> bool): seq<Group> {
    if groups == [] then []
    else
      var last := groups[|groups| - 1];
      Select(groups[..|groups| - 1], keep) + (if keep(last) then [last] else [])
  }

  lemma {:induction false} SelectMembers(groups: seq<Group>, keep: Group -> bool, g: Group)
    ensures g in Select(groups, keep) <==> g in groups && keep(g)
  {
    if groups == [] {
    } else {
      var front, last := groups[..|groups| - 1], groups[|groups| - 1];
      assert groups == front + [last];
      SelectMembers(front, keep, g);
    }
  }

  function DriftOf(before: map<Group, string>, after: map<Group, string>): seq<Group> {
    Select(GROUPS, g => Drifted(before, after, g))
  }

  method Drift(before: map<Group, string>, after: map<Group, string>) returns (drifted: seq<Group>)
    ensures drifted == DriftOf(before, after)
  {
    drifted := [];
    ghost var keep := g => Drifted(before, after, g);
    for i := 0 to |GROUPS|
      invariant drifted == Select(GROUPS[..i], keep)
    {
      hide Stored;
      var g := GROUPS[i];
      assert GROUPS[..i + 1][..i] == GROUPS[..i];
      var left, right := Stored(before, g), Stored(after, g);
      if left.1 == NOT_MEASURED || right.1 == NOT_MEASURED {
        continue;
      }
      if left.0 != right.0 {
        continue;
      }
      if left.1 != right.1 {
        drifted := drifted + [g];
      }
    }
    assert GROUPS[..|GROUPS|] == GROUPS;
  }

  function Incomparable(before: map<Group, string>, after: map<Group, string>): seq<Group> {
    Select(GROUPS, g => MeasuredOnBoth(before, after, g) && Stored(before, g).0 != Stored(after, g).0)
  }

  function Unmeasured(now: map<Group, string>): seq<Group> {
    Select(GROUPS, g => Stored(now, g).1 == NOT_MEASURED)
  }

  // ----- what the comparison means

  /** What a recorded fingerprint is read back as. */
  lemma RecordedReadsBack(facts: Group -> seq<Fact>, g: Group, sha: Canonical -> string)
    requires CollisionFree(sha)
    ensures Stored(Digests(Recorded(facts, sha)), g) == (ScopeOf(facts(g), sha), DigestOf(facts(g), sha))
  {
    NamesAreDistinct(g, g);
    ScopesAgreeIff(facts(g), facts(g), sha);
    DigestsAgreeIff(facts(g), facts(g), sha);
    PartitionAtColon(ScopeOf(facts(g), sha), DigestOf(facts(g), sha));
  }

  /**
   A group drifts exactly when both scans collected facts for it, looked at the
   same keys, and some value differs; the order of collection plays no part.
   */
  lemma DriftMeans(before: Group -> seq<Fact>, after: Group -> seq<Fact>, g: Group, sha: Canonical -> string)
    requires CollisionFree(sha)
    ensures g in DriftOf(Digests(Recorded(before, sha)), Digests(Recorded(after, sha)))
            <==> && before(g) != [] && after(g) != []
                 && multiset(Keys(before(g))) == multiset(Keys(after(g)))
                 && multiset(before(g)) != multiset(after(g))
  {
    var left, right := Digests(Recorded(before, sha)), Digests(Recorded(after, sha));
    SelectMembers(GROUPS, h => Drifted(left, right, h), g);
    NamesAreDistinct(g, g);
    RecordedReadsBack(before, g, sha);
    RecordedReadsBack(after, g, sha);
    DigestsAgreeIff(before(g), after(g), sha);
    DigestsAgreeIff(after(g), before(g), sha);
    ScopesAgreeIff(before(g), after(g), sha);
    hide Stored, Digests, Recorded, DigestOf, ScopeOf, CollisionFree, Select;
  }

  /** Groups looked at differently are reported as such, exactly when both scans saw something. */
  lemma IncomparableMeans(before: Group -> seq<Fact>, after: Group -> seq<Fact>, g: Group, sha: Canonical -> string)
    requires CollisionFree(sha)
    ensures g in Incomparable(Digests(Recorded(before, sha)), Digests(Recorded(after, sha)))
            <==> before(g) != [] && after(g) != [] && multiset(Keys(before(g))) != multiset(Keys(after(g)))
    ensures g in Unmeasured(Digests(Recorded(after, sha))) <==> after(g) == []
  {
    var left, right := Digests(Recorded(before, sha)), Digests(Recorded(after, sha));
    SelectMembers(GROUPS, h => MeasuredOnBoth(left, right, h) && Stored(left, h).0 != Stored(right, h).0, g);
    SelectMembers(GROUPS, h => Stored(right, h).1 == NOT_MEASURED, g);
    NamesAreDistinct(g, g);
    RecordedReadsBack(before, g, sha);
    RecordedReadsBack(after, g, sha);
    DigestsAgreeIff(before(g), after(g), sha);
    DigestsAgreeIff(after(g), before(g), sha);
    ScopesAgreeIff(before(g), after(g), sha);
    hide Stored, Digests, Recorded, DigestOf, ScopeOf, CollisionFree, Select;
  }

  ghost predicate KeyedOnce(facts: seq<Fact>) {
    forall i, j | 0 <= i < j < |facts| :: facts[i].0 != facts[j].0
  }

  /** With each key recorded once, drift names a fact that was looked at twice and said two things. */
  lemma DriftIsAChangedValue(before: Group -> seq<Fact>, after: Group -> seq<Fact>, g: Group, sha: Canonical -> string)
    requires CollisionFree(sha) && KeyedOnce(before(g)) && KeyedOnce(after(g))
    ensures g in DriftOf(Digests(Recorded(before, sha)), Digests(Recorded(after, sha)))
            <==> && multiset(Keys(before(g))) == multiset(Keys(after(g)))
                 && exists p, q | p in before(g) && q in after(g) :: p.0 == q.0 && p.1 != q.1
  {
    DriftMeans(before, after, g, sha);
    hide *;
    var a, b := before(g), after(g);
    if multiset(Keys(a)) == multiset(Keys(b)) {
      SameKeysDiffer(a, b);
    }
  }

  lemma ChangedFactIsGone(b: seq<Fact>, p: Fact, q: Fact)
    requires KeyedOnce(b) && q in b && p.0 == q.0 && p.1 != q.1
    ensures p !in b
  {
    var j :| 0 <= j < |b| && b[j] == q;
    forall i | 0 <= i < |b|
      ensures b[i] != p
    {
      assert i != j ==> b[i].0 != b[j].0;
    }
  }

  lemma SameKeysDiffer(a: seq<Fact>, b: seq<Fact>)
    requires KeyedOnce(a) && KeyedOnce(b) && multiset(Keys(a)) == multiset(Keys(b))
    ensures multiset(a) != multiset(b) <==> exists p, q | p in a && q in b :: p.0 == q.0 && p.1 != q.1
  {
    if p, q :| p in a && q in b && p.0 == q.0 && p.1 != q.1 {
      ChangedFactIsGone(b, p, q);
      assert p in multiset(a) && p !in multiset(b);
    } else {
      forall i | 0 <= i < |a|
        ensures a[i] in b
      {
        var _ := Partner(a, b, i);
      }
      forall i | 0 <= i < |b|
        ensures b[i] in a
      {
        var _ := Partner(b, a, i);
      }
      SameMembersSameContents(a, b);
    }
  }

  lemma Partner(a: seq<Fact>, b: seq<Fact>, i: nat) returns (j: nat)
    requires i < |a| && multiset(Keys(a)) == multiset(Keys(b))
    ensures j < |b| && b[j].0 == a[i].0 && b[j] in b
  {
    assert Keys(a)[i] in multiset(Keys(b));
    j :| 0 <= j < |b| && Keys(b)[j] == Keys(a)[i];
  }

  /** Every group is in exactly one of unmeasured on a side, incomparable, drifted and unchanged. */
  lemma EachGroupAnsweredOnce(before: map<Group, string>, after: map<Group, string>, g: Group)
    ensures var unmeasured := g in Unmeasured(before) || g in Unmeasured(after);
            && !(unmeasured && g in Incomparable(before, after))
            && !(unmeasured && g in DriftOf(before, after))
            && !(g in Incomparable(before, after) && g in DriftOf(before, after))
            && (!unmeasured && g !in Incomparable(before, after) && g !in DriftOf(before, after)
                <==> Stored(before, g) == Stored(after, g) && Stored(before, g).1 != NOT_MEASURED)
  {
    hide Stored, Select;
    NamesAreDistinct(g, g);
    SelectMembers(GROUPS, h => Drifted(before, after, h), g);
    SelectMembers(GROUPS, h => MeasuredOnBoth(before, after, h) && Stored(before, h).0 != Stored(after, h).0, g);
    SelectMembers(GROUPS, h => Stored(before, h).1 == NOT_MEASURED, g);
    SelectMembers(GROUPS, h => Stored(after, h).1 == NOT_MEASURED, g);
  }

  lemma {:induction false} SelectAgrees(groups: seq<Group>, keep: Group -> bool, other: Group -> bool)
    requires forall g: Group :: keep(g) == other(g)
    ensures Select(groups, keep) == Select(groups, other)
  {
    if groups == [] {
    } else {
      SelectAgrees(groups[..|groups| - 1], keep, other);
    }
  }

  /** Which scan came first plays no part. */
  lemma DriftIsSymmetric(before: map<Group, string>, after: map<Group, string>)
    ensures DriftOf(before, after) == DriftOf(after, before)
    ensures Incomparable(before, after) == Incomparable(after, before)
  {
    hide Stored;
    SelectAgrees(GROUPS, h => Drifted(before, after, h), h => Drifted(after, before, h));
    SelectAgrees(GROUPS, h => MeasuredOnBoth(before, after, h) && Stored(before, h).0 != Stored(after, h).0,
                 h => MeasuredOnBoth(after, before, h) && Stored(after, h).0 != Stored(before, h).0);
  }
}
