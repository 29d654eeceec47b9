/** Whether a CAA record names somebody who may issue a certificate. */
module Caa {
  import opened Wrappers
  import opened Dns
  import opened Wire
  import opened Strict
  import opened Query
  import opened Text

  datatype CaaRecord = CaaRecord(tag: string, value: Bytes)

  /** One tag byte decoded as ASCII with replacement and folded to lower case. */
  function Fold(b: Byte): char {
    if 'A' as int <= b <= 'Z' as int then (b + 32) as char
    else if b < 128 then b as char
    else '\U{FFFD}'
  }

  function FoldAll(bytes: Bytes): (s: string)
    ensures |s| == |bytes| && forall i | 0 <= i < |bytes| :: s[i] == Fold(bytes[i])
  {
    seq(|bytes|, i requires 0 <= i < |bytes| => Fold(bytes[i]))
  }

  /** Capitals become small letters, anything beyond ASCII the replacement character, the rest stays. */
  lemma FoldMeans(b: Byte, k: nat)
    requires k < 26
    ensures b == CAPITALS[k] as int ==> Fold(b) == SMALL[k]
    ensures b >= 128 ==> Fold(b) == '\U{FFFD}'
    ensures b < 128 && b as char !in CAPITALS ==> Fold(b) == b as char
  {
    Alphabet();
    hide CAPITALS, SMALL;
    if 'A' as int <= b <= 'Z' as int {
      assert CAPITALS[b - 'A' as int] == b as char;
    }
  }

  /** Where the tag of a property ends; like a Python slice it never reaches past the data. */
  function TagEnd(rdata: Bytes): (end: nat)
    requires |rdata| >= 2
    ensures 2 <= end <= |rdata|
  {
    var tagLength: nat := rdata[1];
    if 2 + tagLength <= |rdata| then 2 + tagLength else |rdata|
  }

  function TagOf(rdata: Bytes): Bytes
    requires |rdata| >= 2
  {
    rdata[2..TagEnd(rdata)]
  }

  /** The property inside one resource record, None for another type or a runt. */
  function CaaOf(record: Record): Option<CaaRecord> {
    if record.rtype != TYPE_CAA || |record.rdata| < 2 then None
    else Some(CaaRecord(FoldAll(TagOf(record.rdata)), record.rdata[TagEnd(record.rdata)..]))
  }

  function CaaRecords(answers: seq<Record>): seq<CaaRecord> {
    if answers == [] then []
    else
      var front := CaaRecords(answers[..|answers| - 1]);
      match CaaOf(answers[|answers| - 1])
      case None => front
      case Some(record) => front + [record]
  }

  /** Properties come in the order of their records, at most one for each. */
  lemma {:induction false} PropertiesInOrder(front: seq<Record>, back: seq<Record>)
    ensures CaaRecords(front + back) == CaaRecords(front) + CaaRecords(back)
    decreases |back|
  {
    if back == [] {
      assert front + back == front;
    } else {
      hide CaaOf;
      var n := |back| - 1;
      PropertiesInOrder(front, back[..n]);
      assert (front + back)[..|front + back| - 1] == front + back[..n];
    }
  }

  function CaaResponse(data: Bytes): Result<seq<CaaRecord>> {
    var header :- HeaderOf(data);
    var start :- QuestionsEnd(data, 12, header.qdcount);
    var (answers, _) :- RecordsAt(data, start, header.ancount);
    Success(CaaRecords(answers))
  }

  method ParseCaaResponse(data: Bytes) returns (r: Result<seq<CaaRecord>>)
    ensures r == CaaResponse(data)
  {
    hide HeaderOf, QuestionsEnd, RecordsAt, FoldAll, TagEnd;
    var header :- HeaderOf(data);
    var start :- SkipQuestions(data, header);
    var read :- ReadRecords(data, start, header.ancount);
    var answers := read.0;
    var records: seq<CaaRecord> := [];
    for i := 0 to |answers|
      invariant records == CaaRecords(answers[..i])
    {
      assert answers[..i + 1][..i] == answers[..i];
      var answer := answers[i];
      if answer.rtype != TYPE_CAA || |answer.rdata| < 2 {
        continue;
      }
      var tag := FoldAll(TagOf(answer.rdata));
      records := records + [CaaRecord(tag, answer.rdata[TagEnd(answer.rdata)..])];
    }
    assert answers[..|answers|] == answers;
    return Success(records);
  }

  predicate Authorizing(record: CaaRecord) {
    record.tag == "issue" || record.tag == "issuewild"
  }

  predicate Restricts(records: seq<CaaRecord>) {
    exists r | r in records :: Authorizing(r)
  }

  /** RFC 8659 section 4.1: a property tag in any mixture of cases. */
  predicate SpellsIgnoringCase(bytes: Bytes, word: string) {
    |bytes| == |word| && forall i | 0 <= i < |word| ::
      bytes[i] == word[i] as int || ('a' <= word[i] <= 'z' && bytes[i] == word[i] as int - 32)
  }

  /** Property data as RFC 8659 section 4.1 lays it out: flags, tag length, tag, value. */
  function PropertyData(flags: Byte, tag: Bytes, value: Bytes): Bytes
    requires |tag| < 256
  {
    [flags, |tag|] + tag + value
  }

  lemma PropertyRoundTrip(flags: Byte, ttl: nat, tag: Bytes, value: Bytes)
    requires |tag| < 256
    ensures CaaOf(Record(TYPE_CAA, ttl, PropertyData(flags, tag, value))) == Some(CaaRecord(FoldAll(tag), value))
  {
    var data := PropertyData(flags, tag, value);
    assert data[2..2 + |tag|] == tag && data[2 + |tag|..] == value;
  }

  /** The data reads as this property. */
  ghost predicate LaidOut(rdata: Bytes, flags: Byte, tag: Bytes, value: Bytes) {
    |tag| < 256 && rdata == PropertyData(flags, tag, value)
  }

  /** The tag length promises more bytes than there are. */
  predicate Overrun(rdata: Bytes) {
    |rdata| >= 2 && 2 + rdata[1] > |rdata|
  }

  /**
   The exact language of the property parser: data laid out as RFC 8659 says, or
   data whose tag length runs past its end, all of which is then taken for the tag.
   */
  lemma CaaOfIff(record: Record, c: CaaRecord)
    ensures CaaOf(record) == Some(c)
            <==> record.rtype == TYPE_CAA
                 && (|| (exists flags, tag, value :: LaidOut(record.rdata, flags, tag, value) && c == CaaRecord(FoldAll(tag), value))
                     || (Overrun(record.rdata) && c == CaaRecord(FoldAll(record.rdata[2..]), [])))
  {
    var data := record.rdata;
    if CaaOf(record) == Some(c) && !Overrun(data) {
      DataIsLaidOut(data);
      assert LaidOut(data, data[0], TagOf(data), data[TagEnd(data)..]);
    }
    if record.rtype == TYPE_CAA {
      forall flags, tag, value | LaidOut(data, flags, tag, value)
        ensures CaaOf(record) == Some(CaaRecord(FoldAll(tag), value))
      {
        LaidOutTag(data, flags, tag, value);
      }
      if Overrun(data) {
        assert data[2..|data|] == data[2..] && data[|data|..] == [];
      }
    }
  }

  lemma DataIsLaidOut(rdata: Bytes)
    requires |rdata| >= 2 && !Overrun(rdata)
    ensures LaidOut(rdata, rdata[0], TagOf(rdata), rdata[TagEnd(rdata)..])
  {
  }

  // ----- properties to the letter

  predicate IsAlphanumeric(b: Byte) {
    '0' as int <= b <= '9' as int || 'A' as int <= b <= 'Z' as int || 'a' as int <= b <= 'z' as int
  }

  /** RFC 8659 section 4.1: at least one ASCII letter or digit, and nothing else. */
  predicate TagFits(tag: Bytes) {
    0 < |tag| < 256 && forall i | 0 <= i < |tag| :: IsAlphanumeric(tag[i])
  }

  ghost predicate StrictProperty(rdata: Bytes) {
    exists flags, tag, value :: TagFits(tag) && LaidOut(rdata, flags, tag, value)
  }

  /** A runt, a tag length of 0 or past the end, or a tag of other characters. */
  predicate BrokenProperty(record: Record) {
    && record.rtype == TYPE_CAA
    && (|| |record.rdata| < 2 || record.rdata[1] == 0 || Overrun(record.rdata)
        || exists b | b in TagOf(record.rdata) :: !IsAlphanumeric(b))
  }

  lemma BrokenPropertyIff(record: Record)
    requires record.rtype == TYPE_CAA
    ensures BrokenProperty(record) <==> !StrictProperty(record.rdata)
  {
    var data := record.rdata;
    if |data| >= 2 && !Overrun(data) {
      DataIsLaidOut(data);
      assert !BrokenProperty(record) ==> TagFits(TagOf(data));
    }
    if flags, tag, value :| TagFits(tag) && LaidOut(data, flags, tag, value) {
      LaidOutTag(data, flags, tag, value);
    }
  }

  lemma LaidOutTag(rdata: Bytes, flags: Byte, tag: Bytes, value: Bytes)
    requires LaidOut(rdata, flags, tag, value)
    ensures |rdata| >= 2 && !Overrun(rdata) && TagOf(rdata) == tag && rdata[TagEnd(rdata)..] == value
  {
  }

  lemma FoldSpells(tag: Bytes, word: string)
    requires forall i | 0 <= i < |word| :: 'a' <= word[i] <= 'z'
    ensures FoldAll(tag) == word <==> SpellsIgnoringCase(tag, word)
  {
    if FoldAll(tag) == word {
      forall i | 0 <= i < |word|
        ensures FoldsTo(tag[i], word[i])
      {
        assert FoldAll(tag)[i] == word[i];
      }
    }
    if SpellsIgnoringCase(tag, word) {
      assert FoldAll(tag) == word;
    }
  }

  predicate FoldsTo(b: Byte, c: char) {
    b == c as int || b == c as int - 32
  }

  lemma {:induction false} CaaRecordsMembers(answers: seq<Record>, r: CaaRecord)
    ensures r in CaaRecords(answers) <==> exists a | a in answers :: CaaOf(a) == Some(r)
  {
    if answers == [] {
    } else {
      var front, last := answers[..|answers| - 1], answers[|answers| - 1];
      assert answers == front + [last];
      CaaRecordsMembers(front, r);
    }
  }

  predicate SpellsIssuer(tag: Bytes) {
    SpellsIgnoringCase(tag, "issue") || SpellsIgnoringCase(tag, "issuewild")
  }

  /** An answer record that restricts issuance as RFC 8659 says: a property of that name, in any case. */
  ghost predicate NamesIssuer(rr: ResourceRecord) {
    rr.rtype == 257 && exists flags, tag, value :: LaidOut(rr.rdata, flags, tag, value) && SpellsIssuer(tag)
  }

  /** One that breaks off in such a name. */
  predicate BreaksOffInIssuer(rr: ResourceRecord) {
    rr.rtype == 257 && Overrun(rr.rdata) && SpellsIssuer(rr.rdata[2..])
  }

  /** The finding passes for a printed message iff some answer record names an issuer, or breaks off in the name. */
  lemma {:induction false} PrintedRestriction(m: Message)
    requires Readable(m)
    ensures CaaResponse(Print(m)).Success?
    ensures Restricts(CaaResponse(Print(m)).value) <==> exists rr | rr in m.answers :: NamesIssuer(rr) || BreaksOffInIssuer(rr)
  {
    hide Print, PrintQuestions, StandsAt, HeaderOf, QuestionsEnd, RecordsAt, CaaRecords, Restricts, NamesIssuer, BreaksOffInIssuer;
    var first, second, third := MessageRoundTrip(m);
    SeenRestriction(m.answers);
  }

  /** Every CAA record of a message is one RFC 8659 allows. */
  ghost predicate StrictProperties(m: Message) {
    forall rr | rr in AllRecords(m) && rr.rtype == TYPE_CAA :: StrictProperty(rr.rdata)
  }

  /** To the letter nothing breaks off: the finding passes iff some answer record names an issuer. */
  lemma StrictRestriction(m: Message)
    requires Readable(m) && StrictProperties(m)
    ensures CaaResponse(Print(m)).Success?
    ensures Restricts(CaaResponse(Print(m)).value) <==> exists rr | rr in m.answers :: NamesIssuer(rr)
  {
    PrintedRestriction(m);
    hide Print, Readable, CaaResponse, Restricts, NamesIssuer, StrictProperty, SpellsIssuer;
    forall rr | rr in m.answers
      ensures !BreaksOffInIssuer(rr)
    {
      assert rr in AllRecords(m);
      if rr.rtype == TYPE_CAA {
        BrokenPropertyIff(rr.Seen());
      }
    }
  }

  lemma SeenRestriction(rrs: seq<ResourceRecord>)
    ensures Restricts(CaaRecords(Seen(rrs))) <==> exists rr | rr in rrs :: NamesIssuer(rr) || BreaksOffInIssuer(rr)
  {
    var records := CaaRecords(Seen(rrs));
    forall rr | rr in rrs && (NamesIssuer(rr) || BreaksOffInIssuer(rr))
      ensures Restricts(records)
    {
      IssuerIsSeen(rr);
      SeenContains(rrs, rr);
      CaaRecordsMembers(Seen(rrs), CaaOf(rr.Seen()).value);
    }
    if Restricts(records) {
      var r :| r in records && Authorizing(r);
      CaaRecordsMembers(Seen(rrs), r);
      var a :| a in Seen(rrs) && CaaOf(a) == Some(r);
      var rr := SeenComesFrom(rrs, a);
      IssuerIsSeen(rr);
    }
  }

  /** The header passes and its questions and answers stand behind it; the other sections are not looked at. */
  ghost predicate LeadsWithAnswers(data: Bytes, qs: seq<Question>, rrs: seq<ResourceRecord>) {
    && HeaderOf(data).Success? && HeaderOf(data).value.qdcount == |qs| && HeaderOf(data).value.ancount == |rrs|
    && QuestionsFit(qs) && RecordsFit(rrs)
    && StandsAt(data, 12, PrintQuestions(qs)) && StandsAt(data, 12 + |PrintQuestions(qs)|, PrintRecords(rrs))
  }

  /**
   The exact language of the parser: a response is accepted with these properties
   if and only if it begins with a header, questions and answers that carry them,
   or its question section is cut off and it announces no answers.
   */
  lemma AcceptedExactly(data: Bytes, records: seq<CaaRecord>)
    ensures CaaResponse(data) == Success(records)
            <==> || (exists qs, rrs :: LeadsWithAnswers(data, qs, rrs) && CaaRecords(Seen(rrs)) == records)
                 || (CutOff(data) && HeaderOf(data).value.ancount == 0 && records == [])
  {
    if CaaResponse(data) == Success(records) {
      if CutOff(data) {
        NoAnswersBehindTheEnd(data);
      } else {
        var qs, rrs := AcceptedLeadsWithAnswers(data);
        hide CaaResponse, LeadsWithAnswers, CaaRecords, CutOff;
        LeadingAnswersAreRead(data, qs, rrs);
      }
    }
    if CutOff(data) && HeaderOf(data).value.ancount == 0 {
      NoAnswersBehindTheEnd(data);
    }
    if qs, rrs :| LeadsWithAnswers(data, qs, rrs) && CaaRecords(Seen(rrs)) == records {
      hide CaaResponse, LeadsWithAnswers, CaaRecords, CutOff;
      LeadingAnswersAreRead(data, qs, rrs);
    }
  }

  lemma LeadingAnswersAreRead(data: Bytes, qs: seq<Question>, rrs: seq<ResourceRecord>)
    requires LeadsWithAnswers(data, qs, rrs)
    ensures CaaResponse(data) == Success(CaaRecords(Seen(rrs)))
  {
    hide PrintQuestions, PrintRecords, StandsAt, HeaderOf, QuestionsEnd, RecordsAt, CaaRecords, Seen;
    PrintedQuestionsAreSkipped(data, 12, qs);
    PrintedRecordsAreRead(data, 12 + |PrintQuestions(qs)|, rrs);
  }

  lemma AcceptedLeadsWithAnswers(data: Bytes) returns (qs: seq<Question>, rrs: seq<ResourceRecord>)
    requires CaaResponse(data).Success? && !CutOff(data)
    ensures LeadsWithAnswers(data, qs, rrs)
  {
    hide PrintQuestions, PrintRecords, StandsAt, HeaderOf, QuestionsEnd, RecordsAt, CaaRecords, Seen;
    var h := HeaderOf(data).value;
    qs := SkippedQuestionsWerePrinted(data, 12, h.qdcount);
    rrs := ReadRecordsWerePrinted(data, 12 + |PrintQuestions(qs)|, h.ancount);
  }

  lemma NoAnswersBehindTheEnd(data: Bytes)
    requires CutOff(data)
    ensures CaaResponse(data) == if HeaderOf(data).value.ancount == 0 then Success([]) else Failure
  {
    var h := HeaderOf(data).value;
    var start := QuestionsEnd(data, 12, h.qdcount).value;
    hide HeaderOf, QuestionsEnd;
    if RecordsAt(data, start, h.ancount).Success? {
      RecordsAreBounded(data, start, h.ancount);
    }
  }

  /** One question for the root name, its type and class cut off, and no records announced. */
  const CUT_OFF_RESPONSE: Bytes := [0x12, 0x34, 0x81, 0x80, 0, 1, 0, 0, 0, 0, 0, 0, 0]

  /**
   A malformed response that becomes a finding: these thirteen bytes begin no
   readable message, and are read as a zone without CAA records.
   */
  lemma CutOffResponseBecomesAFinding() returns (data: Bytes)
    ensures data == CUT_OFF_RESPONSE && CutOff(data) && Malformed(data)
    ensures forall m :: !LeadsWith(data, m)
    ensures CaaResponse(data) == Success([]) && !Restricts(CaaResponse(data).value)
  {
    data := CUT_OFF_RESPONSE;
    assert U16(data, 4) == 1 && U16(data, 6) == 0;
    assert NameEnd(data, 12) == Success(13);
    assert QuestionsEnd(data, 17, 0) == Success(17);
    assert QuestionsEnd(data, 12, 1) == Success(17);
    NoAnswersBehindTheEnd(data);
    hide HeaderOf, QuestionsEnd;
    MalformedIff(data);
    forall m
      ensures !LeadsWith(data, m)
    {
      CutOffBeginsNoMessage(data, m);
    }
  }

  lemma IssuerIsSeen(rr: ResourceRecord)
    ensures NamesIssuer(rr) || BreaksOffInIssuer(rr) <==> CaaOf(rr.Seen()).Some? && Authorizing(CaaOf(rr.Seen()).value)
  {
    forall tag: Bytes
      ensures SpellsIssuer(tag) <==> FoldAll(tag) == "issue" || FoldAll(tag) == "issuewild"
    {
      FoldSpells(tag, "issue");
      FoldSpells(tag, "issuewild");
    }
    hide SpellsIssuer, FoldAll, LaidOut, CaaOf;
    forall c
      ensures CaaOf(rr.Seen()) == Some(c)
              <==> rr.rtype == TYPE_CAA
                   && (|| (exists flags, tag, value :: LaidOut(rr.rdata, flags, tag, value) && c == CaaRecord(FoldAll(tag), value))
                       || (Overrun(rr.rdata) && c == CaaRecord(FoldAll(rr.rdata[2..]), [])))
    {
      CaaOfIff(rr.Seen(), c);
    }
  }

  lemma {:induction false} SeenContains(rrs: seq<ResourceRecord>, rr: ResourceRecord)
    requires rr in rrs
    ensures rr.Seen() in Seen(rrs)
  {
    if rr != rrs[0] {
      SeenContains(rrs[1..], rr);
    }
  }

  lemma {:induction false} SeenComesFrom(rrs: seq<ResourceRecord>, record: Record) returns (rr: ResourceRecord)
    requires record in Seen(rrs)
    ensures rr in rrs && rr.Seen() == record
  {
    rr := rrs[0];
    if record != rr.Seen() {
      rr := SeenComesFrom(rrs[1..], record);
    }
  }

  // ----- accepted all the same

  /** The bytes are no response RFC 1035 and RFC 8659 allow. */
  ghost predicate MalformedCaa(data: Bytes) {
    forall m | StrictResponse(m) && StrictProperties(m) :: Print(m) != data
  }

  /** Some CAA record, in whichever section, is broken. */
  predicate PropertyBroken(data: Bytes) {
    WholeRead(data).Success? && exists r | r in WholeRead(data).value.0 :: BrokenProperty(r)
  }

  /**
   Exactly which malformed responses are not refused and become a finding: those
   whose questions are cut off, those not marked as a response, those with a section
   behind the answers that cannot be read, those with an unsound name or a broken
   property, and those that do not end with their last record.
   */
  lemma AcceptedThoughMalformedIff(data: Bytes)
    requires CaaResponse(data).Success?
    ensures MalformedCaa(data) <==>
            || CutOff(data) || !HeaderOf(data).value.IsResponse() || WholeRead(data).Failure?
            || !NamesSound(data) || PropertyBroken(data) || BytesLeftOver(data)
  {
    MalformedCaaIff(data);
    hide CaaResponse, MalformedCaa, PropertyBroken;
    assert CutOff(data) ==> WholeRead(data).Failure? by { hide HeaderOf, QuestionsEnd; }
    hide WholeRead, CutOff;
  }

  /** A broken property is all that can be wrong with a response to the letter of RFC 1035. */
  lemma MalformedCaaIff(data: Bytes)
    ensures MalformedCaa(data) <==> !Sound(data) || PropertyBroken(data)
  {
    hide Print, WholeRead, NamesSound, HeaderOf, StrictNames, BrokenProperty, StrictProperty;
    MalformedIff(data);
    forall m | Readable(m) && Print(m) == data
      ensures PropertyBroken(data) <==> !StrictProperties(m)
    {
      WholeMessage(data, m);
      LeadingMessageIsSoundIff(data, m);
      PropertiesAreSeen(AllRecords(m));
    }
  }

  lemma PropertiesAreSeen(rrs: seq<ResourceRecord>)
    ensures (exists r | r in Seen(rrs) :: BrokenProperty(r))
            <==> exists rr | rr in rrs && rr.rtype == TYPE_CAA :: !StrictProperty(rr.rdata)
  {
    hide Seen, StrictProperty;
    forall rr: ResourceRecord
      ensures BrokenProperty(rr.Seen()) <==> rr.rtype == TYPE_CAA && !StrictProperty(rr.rdata)
    {
      if rr.rtype == TYPE_CAA {
        BrokenPropertyIff(rr.Seen());
      }
    }
    hide BrokenProperty;
    forall rr | rr in rrs
      ensures rr.Seen() in Seen(rrs)
    {
      SeenContains(rrs, rr);
    }
    if r :| r in Seen(rrs) && BrokenProperty(r) {
      var rr := SeenComesFrom(rrs, r);
    }
  }

  // ----- malformed responses that become a finding

  /** A response with one CAA record for the root name. */
  function OneAnswer(rdata: Bytes): (m: Message)
    requires |rdata| < 0x1_0000
    ensures Readable(m)
  {
    Message(0x1234, 0x81, 0x80, [], [ResourceRecord(Name([], Root), TYPE_CAA, IN_CLASS, 300, rdata)], [], [])
  }

  lemma BrokenAnswer(rdata: Bytes) returns (data: Bytes)
    requires |rdata| < 0x1_0000 && BrokenProperty(Record(TYPE_CAA, 300, rdata))
    ensures data == Print(OneAnswer(rdata)) && MalformedCaa(data)
    ensures CaaResponse(data) == Success(CaaRecords([Record(TYPE_CAA, 300, rdata)]))
  {
    var m := OneAnswer(rdata);
    data := Print(m);
    assert Seen(m.answers) == [m.answers[0].Seen()];
    assert AllRecords(m) == m.answers;
    hide Print, HeaderOf, QuestionsEnd, RecordsAt, CaaRecords, Readable, NamesSound, BrokenProperty, Seen, MalformedCaa, PrintQuestions;
    WholeMessage(data, m);
    LeadingMessageIsSoundIff(data, m);
    var _, _, _ := MessageRoundTrip(m);
    MalformedCaaIff(data);
  }

  /** The word "issue" behind a tag length of 9. */
  const OVERRUN_ISSUE: Bytes := [0, 9, 'i' as int, 's' as int, 's' as int, 'u' as int, 'e' as int]

  /** A property cut off in the middle of its tag passes the check. */
  lemma OverrunPropertyPasses() returns (data: Bytes)
    ensures data == Print(OneAnswer(OVERRUN_ISSUE)) && MalformedCaa(data)
    ensures CaaResponse(data).Success? && Restricts(CaaResponse(data).value)
  {
    data := BrokenAnswer(OVERRUN_ISSUE);
    var rr := OneAnswer(OVERRUN_ISSUE).answers[0];
    assert BreaksOffInIssuer(rr) && Seen([rr]) == [rr.Seen()];
    hide *;
    SeenRestriction([rr]);
    assert rr in [rr];
  }

  /** A property of a single byte is dropped, and the zone has no CAA record. */
  lemma RuntPropertyBecomesAFinding() returns (data: Bytes)
    ensures data == Print(OneAnswer([0])) && MalformedCaa(data)
    ensures CaaResponse(data) == Success([])
  {
    data := BrokenAnswer([0]);
    var r := Record(TYPE_CAA, 300, [0]);
    assert CaaOf(r) == None && [r][..0] == [];
  }

  /** A response with one question whose name begins with the length byte 0x40, which RFC 1035 reserves. */
  const RESERVED_LENGTH: Message :=
    Message(0x1234, 0x81, 0x80, [Question(Name([seq(64, _ => 'a' as int)], Root), TYPE_CAA, IN_CLASS)], [], [], [])

  /** Such a response is read as a zone without CAA records. */
  lemma ReservedLengthBecomesAFinding() returns (data: Bytes)
    ensures Readable(RESERVED_LENGTH) && data == Print(RESERVED_LENGTH) && Malformed(data)
    ensures CaaResponse(data) == Success([])
  {
    var m := RESERVED_LENGTH;
    data := Print(m);
    var name := m.questions[0].name;
    assert |name.labels[0]| == 64 && !ShortLabels(name.labels);
    assert !StrictQuestions(m.questions, 12);
    hide Print, HeaderOf, QuestionsEnd, Readable, NamesSound, PrintQuestions, Malformed, StrictQuestions, RESERVED_LENGTH;
    WholeMessage(data, m);
    LeadingMessageIsSoundIff(data, m);
    MalformedIff(data);
    var _, _, _ := MessageRoundTrip(m);
  }

  /** One authority record announced and none there: the answers are all the parser looks at. */
  const MISSING_AUTHORITY: Bytes := [0x12, 0x34, 0x81, 0x80, 0, 0, 0, 0, 0, 1, 0, 0]

  lemma UnreadSectionBecomesAFinding() returns (data: Bytes)
    ensures data == MISSING_AUTHORITY && Malformed(data)
    ensures CaaResponse(data) == Success([])
  {
    data := MISSING_AUTHORITY;
    assert U16(data, 4) == 0 && U16(data, 6) == 0 && U16(data, 8) == 1 && U16(data, 10) == 0;
    assert RecordAt(data, 12).Failure?;
    assert RecordsAt(data, 12, 1).Failure?;
    assert QuestionsEnd(data, 12, 0) == Success(12);
    assert RecordsAt(data, 12, 0) == Success(([], 12));
    hide RecordsAt, QuestionsEnd, Malformed;
    MalformedIff(data);
  }

  /** The scanner's own query sent back is read as a zone without CAA records, whatever the hostname. */
  lemma EchoedQueryBecomesAFinding(hostname: string, queryId: nat) returns (data: Bytes)
    requires queryId < 0x1_0000 && NameOf(hostname).Success?
    ensures data == Print(QueryMessage(NameOf(hostname).value, TYPE_CAA, queryId, false)) && Malformed(data)
    ensures CaaResponse(data) == Success([])
  {
    hide Print, NameOf, Malformed, HeaderOf, QuestionsEnd, Readable, PrintQuestions;
    data := QueryIsNoResponse(hostname, TYPE_CAA, queryId, false);
    QueryParts(NameOf(hostname).value, TYPE_CAA, queryId, false);
    var _, _, _ := MessageRoundTrip(QueryMessage(NameOf(hostname).value, TYPE_CAA, queryId, false));
  }

  /** Ask the resolvers in order; the first response that parses decides. */
  method CheckCaaRecord(isIpLiteral: bool, responses: seq<Option<Bytes>>) returns (passed: Option<bool>)
    ensures passed.None? <==>
            isIpLiteral || forall i | 0 <= i < |responses| :: responses[i].None? || CaaResponse(responses[i].value).Failure?
    ensures passed.Some? ==> exists i | 0 <= i < |responses| ::
              && responses[i].Some? && CaaResponse(responses[i].value).Success?
              && (forall j | 0 <= j < i :: responses[j].None? || CaaResponse(responses[j].value).Failure?)
              && passed.value == Restricts(CaaResponse(responses[i].value).value)
  {
    if isIpLiteral {
      return None;
    }
    for i := 0 to |responses|
      invariant forall j | 0 <= j < i :: responses[j].None? || CaaResponse(responses[j].value).Failure?
    {
      if responses[i].None? {
        continue;
      }
      var parsed := ParseCaaResponse(responses[i].value);
      if parsed.Failure? {
        continue;
      }
      var restricted := false;
      for k := 0 to |parsed.value|
        invariant restricted <==> exists n | 0 <= n < k :: Authorizing(parsed.value[n])
      {
        restricted := restricted || Authorizing(parsed.value[k]);
      }
      assert restricted == Restricts(parsed.value);
      return Some(restricted);
    }
    return None;
  }
}
