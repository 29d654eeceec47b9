/**
 The messages the reader of module Dns accepts, written as a printer: the grammar
 of RFC 1035 section 4.1 with the compression pointers of section 4.1.4, widened to
 the labels the reader steps over. The reader gives back what was printed, and
 accepts nothing else inside a message; only a question section that ends past the
 last byte gets by without being printed. What RFC 1035 allows is narrower and
 stands in module Strict.
 */
module Wire {
  import opened Wrappers
  import opened Dns

  datatype Ending = Root | Pointer(high: Byte, low: Byte)

  datatype Name = Name(labels: seq<Bytes>, ending: Ending)

  datatype Question = Question(name: Name, qtype: nat, qclass: nat)

  datatype ResourceRecord = ResourceRecord(name: Name, rtype: nat, rclass: nat, ttl: nat, rdata: Bytes) {
    function Seen(): Record { Record(rtype, ttl, rdata) }
  }

  datatype Message = Message(id: nat, flagsHigh: Byte, flagsLow: Byte,
                             questions: seq<Question>, answers: seq<ResourceRecord>,
                             authority: seq<ResourceRecord>, additional: seq<ResourceRecord>)

  // ----- readable messages

  /**
   The longest label `skip_name` steps over: it takes every byte below 0xC0 for
   a length. RFC 1035 section 3.1 stops at 63 and section 4.1.4 reserves the rest.
   */
  const LABEL_LIMIT: nat := 0xBF

  predicate LabelsFit(labels: seq<Bytes>) {
    forall i | 0 <= i < |labels| :: 0 < |labels[i]| <= LABEL_LIMIT
  }

  predicate NameFits(name: Name) {
    LabelsFit(name.labels) && (name.ending.Pointer? ==> name.ending.high >= 0xC0)
  }

  predicate QuestionFits(q: Question) {
    NameFits(q.name) && q.qtype < 0x1_0000 && q.qclass < 0x1_0000
  }

  predicate RecordFits(rr: ResourceRecord) {
    && NameFits(rr.name)
    && rr.rtype < 0x1_0000 && rr.rclass < 0x1_0000 && rr.ttl < 0x1_0000_0000 && |rr.rdata| < 0x1_0000
  }

  predicate QuestionsFit(qs: seq<Question>) {
    forall i | 0 <= i < |qs| :: QuestionFits(qs[i])
  }

  predicate RecordsFit(rrs: seq<ResourceRecord>) {
    forall i | 0 <= i < |rrs| :: RecordFits(rrs[i])
  }

  /** A message the reader gets through: fields that fit, not truncated, no error code. */
  predicate Readable(m: Message) {
    && m.id < 0x1_0000 && m.flagsHigh / 2 % 2 == 0 && m.flagsLow % 16 == 0
    && |m.questions| < 0x1_0000 && QuestionsFit(m.questions)
    && |m.answers| < 0x1_0000 && RecordsFit(m.answers)
    && |m.authority| < 0x1_0000 && RecordsFit(m.authority)
    && |m.additional| < 0x1_0000 && RecordsFit(m.additional)
  }

  // ----- printer

  function Bytes2(n: nat): (b: Bytes)
    requires n < 0x1_0000
    ensures |b| == 2 && U16(b, 0) == n
  {
    [n / 0x100, n % 0x100]
  }

  function Bytes4(n: nat): (b: Bytes)
    requires n < 0x1_0000_0000
    ensures |b| == 4 && U32(b, 0) == n
  {
    Bytes2(n / 0x1_0000) + Bytes2(n % 0x1_0000)
  }

  function PrintLabels(labels: seq<Bytes>): Bytes
    requires LabelsFit(labels)
  {
    if labels == [] then [] else [|labels[0]|] + labels[0] + PrintLabels(labels[1..])
  }

  function PrintEnding(ending: Ending): Bytes {
    match ending
    case Root => [0]
    case Pointer(high, low) => [high, low]
  }

  function PrintName(name: Name): Bytes
    requires NameFits(name)
  {
    PrintLabels(name.labels) + PrintEnding(name.ending)
  }

  function PrintQuestion(q: Question): Bytes
    requires QuestionFits(q)
  {
    PrintName(q.name) + (Bytes2(q.qtype) + Bytes2(q.qclass))
  }

  /** Type, class, TTL and data length: the ten bytes between a record's name and its data. */
  function PrintFixed(rr: ResourceRecord): (b: Bytes)
    requires RecordFits(rr)
    ensures |b| == 10 && U16(b, 0) == rr.rtype && U32(b, 4) == rr.ttl && U16(b, 8) == |rr.rdata|
  {
    Bytes2(rr.rtype) + Bytes2(rr.rclass) + Bytes4(rr.ttl) + Bytes2(|rr.rdata|)
  }

  function PrintRecord(rr: ResourceRecord): Bytes
    requires RecordFits(rr)
  {
    PrintName(rr.name) + (PrintFixed(rr) + rr.rdata)
  }

  function PrintQuestions(qs: seq<Question>): Bytes
    requires QuestionsFit(qs)
  {
    if qs == [] then [] else PrintQuestion(qs[0]) + PrintQuestions(qs[1..])
  }

  function PrintRecords(rrs: seq<ResourceRecord>): Bytes
    requires RecordsFit(rrs)
  {
    if rrs == [] then [] else PrintRecord(rrs[0]) + PrintRecords(rrs[1..])
  }

  function HeaderFor(m: Message): Header {
    Header(m.flagsHigh, m.flagsLow, |m.questions|, |m.answers|, |m.authority|, |m.additional|)
  }

  function PrintHeader(m: Message): (b: Bytes)
    requires Readable(m)
    ensures |b| == 12 && HeaderOf(b) == Success(HeaderFor(m))
  {
    var counts := Bytes2(|m.questions|) + Bytes2(|m.answers|) + Bytes2(|m.authority|) + Bytes2(|m.additional|);
    Bytes2(m.id) + [m.flagsHigh, m.flagsLow] + counts
  }

  function Print(m: Message): Bytes
    requires Readable(m)
  {
    PrintHeader(m) + (PrintQuestions(m.questions) + (PrintRecords(m.answers)
                   + (PrintRecords(m.authority) + PrintRecords(m.additional))))
  }

  /** What the reader can see of printed records: type, TTL and data. */
  function Seen(rrs: seq<ResourceRecord>): (records: seq<Record>)
    ensures |records| == |rrs|
  {
    if rrs == [] then [] else [rrs[0].Seen()] + Seen(rrs[1..])
  }

  // ----- a printed fragment inside a longer message

  /** `part` stands in `data` at `at`. */
  predicate StandsAt(data: Bytes, at: nat, part: Bytes) {
    at + |part| <= |data| && data[at..at + |part|] == part
  }

  lemma StandsAtParts(data: Bytes, at: nat, a: Bytes, b: Bytes)
    ensures StandsAt(data, at, a + b) <==> StandsAt(data, at, a) && StandsAt(data, at + |a|, b)
  {
    if StandsAt(data, at, a + b) {
      assert a == (a + b)[..|a|] == data[at..at + |a|];
      assert b == (a + b)[|a|..] == data[at + |a|..at + |a| + |b|];
    }
    if StandsAt(data, at, a) && StandsAt(data, at + |a|, b) {
      assert data[at..at + |a + b|] == data[at..at + |a|] + data[at + |a|..at + |a| + |b|];
    }
  }

  lemma StandsAtByte(data: Bytes, at: nat, part: Bytes, i: nat)
    requires StandsAt(data, at, part) && i < |part|
    ensures data[at + i] == part[i]
  {
    assert data[at..at + |part|][i] == part[i];
  }

  // ----- completeness: what is printed is read back

  lemma {:induction false} PrintedNameIsSkipped(data: Bytes, at: nat, name: Name)
    requires NameFits(name)
    requires StandsAt(data, at, PrintName(name))
    ensures NameEnd(data, at) == Success(at + |PrintName(name)|)
    decreases |name.labels|
  {
    var printed := PrintName(name);
    if name.labels == [] {
      assert printed == PrintEnding(name.ending);
      StandsAtByte(data, at, printed, 0);
    } else {
      hide PrintName, StandsAt;
      var part := name.labels[0];
      var rest := Name(name.labels[1..], name.ending);
      ConsName(part, rest);
      assert name == Name([part] + rest.labels, rest.ending);
      StandsAtByte(data, at, printed, 0);
      StandsAtParts(data, at, [|part|] + part, PrintName(rest));
      PrintedNameIsSkipped(data, at + 1 + |part|, rest);
    }
  }

  lemma {:induction false} PrintedQuestionsAreSkipped(data: Bytes, at: nat, qs: seq<Question>)
    requires QuestionsFit(qs)
    requires StandsAt(data, at, PrintQuestions(qs))
    ensures QuestionsEnd(data, at, |qs|) == Success(at + |PrintQuestions(qs)|)
    decreases |qs|
  {
    hide PrintName, NameEnd, StandsAt;
    if qs == [] {
    } else {
      var q := qs[0];
      StandsAtParts(data, at, PrintQuestion(q), PrintQuestions(qs[1..]));
      StandsAtParts(data, at, PrintName(q.name), Bytes2(q.qtype) + Bytes2(q.qclass));
      PrintedNameIsSkipped(data, at, q.name);
      PrintedQuestionsAreSkipped(data, at + |PrintQuestion(q)|, qs[1..]);
    }
  }

  lemma PrintedRecordIsRead(data: Bytes, at: nat, rr: ResourceRecord)
    requires RecordFits(rr)
    requires StandsAt(data, at, PrintRecord(rr))
    ensures RecordAt(data, at) == Success((rr.Seen(), at + |PrintRecord(rr)|))
  {
    hide PrintName;
    var name := at + |PrintName(rr.name)|;
    StandsAtParts(data, at, PrintName(rr.name), PrintFixed(rr) + rr.rdata);
    StandsAtParts(data, name, PrintFixed(rr), rr.rdata);
    PrintedNameIsSkipped(data, at, rr.name);
    FixedFieldsStand(data, name, PrintFixed(rr));
  }

  /** The ten fixed bytes of a record read the same inside the message as on their own. */
  lemma FixedFieldsStand(data: Bytes, at: nat, fixed: Bytes)
    requires |fixed| == 10 && StandsAt(data, at, fixed)
    ensures U16(data, at) == U16(fixed, 0) && U32(data, at + 4) == U32(fixed, 4)
    ensures U16(data, at + 8) == U16(fixed, 8)
  {
    forall i | 0 <= i < 10
      ensures data[at + i] == fixed[i]
    {
      StandsAtByte(data, at, fixed, i);
    }
    assert data[at + 0] == fixed[0];
  }

  lemma {:induction false} PrintedRecordsAreRead(data: Bytes, at: nat, rrs: seq<ResourceRecord>)
    requires RecordsFit(rrs)
    requires StandsAt(data, at, PrintRecords(rrs))
    ensures RecordsAt(data, at, |rrs|) == Success((Seen(rrs), at + |PrintRecords(rrs)|))
    decreases |rrs|
  {
    hide PrintRecord, RecordAt, StandsAt;
    if rrs == [] {
    } else {
      StandsAtParts(data, at, PrintRecord(rrs[0]), PrintRecords(rrs[1..]));
      PrintedRecordIsRead(data, at, rrs[0]);
      PrintedRecordsAreRead(data, at + |PrintRecord(rrs[0])|, rrs[1..]);
    }
  }

  /**
   The wire round trip: a readable message is vetted, its questions are
   skipped, its three sections come back record for record, and the cursor
   ends on the last byte.
   */
  lemma MessageRoundTrip(m: Message) returns (first: nat, second: nat, third: nat)
    requires Readable(m)
    ensures HeaderOf(Print(m)) == Success(HeaderFor(m))
    ensures StandsAt(Print(m), 12, PrintQuestions(m.questions)) && first == 12 + |PrintQuestions(m.questions)|
    ensures QuestionsEnd(Print(m), 12, |m.questions|) == Success(first)
    ensures RecordsAt(Print(m), first, |m.answers|) == Success((Seen(m.answers), second))
    ensures RecordsAt(Print(m), second, |m.authority|) == Success((Seen(m.authority), third))
    ensures RecordsAt(Print(m), third, |m.additional|) == Success((Seen(m.additional), |Print(m)|))
  {
    hide Print, PrintHeader, PrintQuestions, PrintRecords;
    hide QuestionsEnd, RecordsAt, Seen;
    first, second, third := LeadingMessageIsRead(Print(m), m);
  }

  /** The same with anything after the message: the reader stops where the message ends. */
  lemma LeadingMessageIsRead(data: Bytes, m: Message) returns (first: nat, second: nat, third: nat)
    requires Readable(m) && StandsAt(data, 0, Print(m))
    ensures HeaderOf(data) == Success(HeaderFor(m))
    ensures StandsAt(data, 12, PrintQuestions(m.questions)) && first == 12 + |PrintQuestions(m.questions)| <= |data|
    ensures QuestionsEnd(data, 12, |m.questions|) == Success(first)
    ensures RecordsAt(data, first, |m.answers|) == Success((Seen(m.answers), second))
    ensures RecordsAt(data, second, |m.authority|) == Success((Seen(m.authority), third))
    ensures RecordsAt(data, third, |m.additional|) == Success((Seen(m.additional), |Print(m)|))
  {
    hide Print, PrintHeader, PrintQuestions, PrintRecords, StandsAt;
    hide QuestionsEnd, RecordsAt, Seen;
    first, second, third := PrintedSectionsStand(data, m);
    HeaderStands(data, PrintHeader(m));
    StandsInside(data, 12, PrintQuestions(m.questions));
    PrintedQuestionsAreSkipped(data, 12, m.questions);
    PrintedRecordsAreRead(data, first, m.answers);
    PrintedRecordsAreRead(data, second, m.authority);
    PrintedRecordsAreRead(data, third, m.additional);
  }

  lemma PrintedSectionsStand(data: Bytes, m: Message) returns (first: nat, second: nat, third: nat)
    requires Readable(m)
    ensures first == 12 + |PrintQuestions(m.questions)|
    ensures second == first + |PrintRecords(m.answers)|
    ensures third == second + |PrintRecords(m.authority)|
    ensures |Print(m)| == third + |PrintRecords(m.additional)|
    ensures StandsAt(data, 0, Print(m))
            <==> && StandsAt(data, 0, PrintHeader(m)) && StandsAt(data, 12, PrintQuestions(m.questions))
                 && StandsAt(data, first, PrintRecords(m.answers)) && StandsAt(data, second, PrintRecords(m.authority))
                 && StandsAt(data, third, PrintRecords(m.additional))
  {
    hide PrintHeader, PrintQuestions, PrintRecords, StandsAt;
    var qs, an, ns, ar := PrintQuestions(m.questions), PrintRecords(m.answers),
                          PrintRecords(m.authority), PrintRecords(m.additional);
    StandsAtParts(data, 0, PrintHeader(m), qs + (an + (ns + ar)));
    StandsAtParts(data, 12, qs, an + (ns + ar));
    first := 12 + |qs|;
    StandsAtParts(data, first, an, ns + ar);
    second := first + |an|;
    StandsAtParts(data, second, ns, ar);
    third := second + |ns|;
  }

  lemma HeaderStands(data: Bytes, header: Bytes)
    requires |header| == 12 && StandsAt(data, 0, header)
    ensures HeaderOf(data) == HeaderOf(header)
  {
    forall i | 0 <= i < 12
      ensures data[i] == header[i]
    {
      StandsAtByte(data, 0, header, i);
    }
  }

  // ----- soundness: what is read was printed

  /** Every name the reader steps over is the print of some name. */
  lemma {:induction false} SkippedNameWasPrinted(data: Bytes, at: nat) returns (name: Name)
    requires NameEnd(data, at).Success? && NameEnd(data, at).value <= |data|
    ensures NameFits(name)
    ensures StandsAt(data, at, PrintName(name))
    ensures NameEnd(data, at) == Success(at + |PrintName(name)|)
    decreases |data| - at
  {
    hide PrintName, StandsAt, PrintLabels;
    var length := data[at];
    if length == 0 {
      name := Name([], Root);
      EndingStands(data, at, Root);
    } else if length >= 0xC0 {
      name := Name([], Pointer(length, data[at + 1]));
      EndingStands(data, at, name.ending);
    } else {
      var rest := SkippedNameWasPrinted(data, at + 1 + length);
      var part := data[at + 1..at + 1 + length];
      name := Name([part] + rest.labels, rest.ending);
      ConsName(part, rest);
      LabelStands(data, at, part);
      StandsAtParts(data, at, [length] + part, PrintName(rest));
    }
  }

  lemma EndingStands(data: Bytes, at: nat, ending: Ending)
    requires NameFits(Name([], ending)) && at + |PrintEnding(ending)| <= |data|
    requires data[at] == PrintEnding(ending)[0] && (ending.Pointer? ==> data[at + 1] == ending.low)
    ensures StandsAt(data, at, PrintName(Name([], ending)))
    ensures |PrintName(Name([], ending))| == |PrintEnding(ending)|
  {
    assert PrintName(Name([], ending)) == PrintEnding(ending) == data[at..at + |PrintEnding(ending)|];
  }

  lemma LabelStands(data: Bytes, at: nat, part: Bytes)
    requires at + 1 + |part| <= |data| && data[at] == |part| && part == data[at + 1..at + 1 + |part|]
    ensures StandsAt(data, at, [data[at]] + part)
  {
    assert [data[at]] + part == data[at..at + 1 + |part|];
  }

  lemma ConsName(part: Bytes, rest: Name)
    requires 0 < |part| <= LABEL_LIMIT && NameFits(rest)
    ensures var name := Name([part] + rest.labels, rest.ending);
            NameFits(name) && PrintName(name) == ([|part|] + part) + PrintName(rest)
  {
    assert ([part] + rest.labels)[1..] == rest.labels;
  }

  lemma ReadRecordWasPrinted(data: Bytes, at: nat) returns (rr: ResourceRecord)
    requires RecordAt(data, at).Success?
    ensures RecordFits(rr)
    ensures StandsAt(data, at, PrintRecord(rr))
    ensures RecordAt(data, at) == Success((rr.Seen(), at + |PrintRecord(rr)|))
  {
    hide PrintName;
    var owner := SkippedNameWasPrinted(data, at);
    var name := at + |PrintName(owner)|;
    var (record, end) := RecordAt(data, at).value;
    rr := ResourceRecord(owner, record.rtype, U16(data, name + 2), record.ttl, record.rdata);
    FixedBytesWerePrinted(data, name, rr);
    StandsAtParts(data, name, PrintFixed(rr), rr.rdata);
    StandsAtParts(data, at, PrintName(owner), PrintFixed(rr) + rr.rdata);
  }

  lemma FixedBytesWerePrinted(data: Bytes, at: nat, rr: ResourceRecord)
    requires at + 10 <= |data| && RecordFits(rr)
    requires U16(data, at) == rr.rtype && U16(data, at + 2) == rr.rclass
    requires U32(data, at + 4) == rr.ttl && U16(data, at + 8) == |rr.rdata|
    ensures StandsAt(data, at, PrintFixed(rr))
  {
    Bytes2Inverts(data, at);
    Bytes2Inverts(data, at + 2);
    Bytes2Inverts(data, at + 4);
    Bytes2Inverts(data, at + 6);
    Bytes2Inverts(data, at + 8);
    assert rr.ttl / 0x1_0000 == U16(data, at + 4) && rr.ttl % 0x1_0000 == U16(data, at + 6);
    assert data[at..at + 10] == PrintFixed(rr);
  }

  lemma Bytes2Inverts(data: Bytes, at: nat)
    requires at + 2 <= |data|
    ensures U16(data, at) < 0x1_0000 && Bytes2(U16(data, at)) == [data[at], data[at + 1]]
  {
    var high: nat, low: nat := data[at], data[at + 1];
    assert (high * 0x100 + low) / 0x100 == high && (high * 0x100 + low) % 0x100 == low;
  }

  lemma {:induction false} InsideRecordsWerePrinted(data: Bytes, at: nat, count: nat) returns (rrs: seq<ResourceRecord>)
    requires at <= |data| && RecordsAt(data, at, count).Success?
    ensures |rrs| == count && RecordsFit(rrs)
    ensures StandsAt(data, at, PrintRecords(rrs))
    decreases count
  {
    hide *;
    if count == 0 {
      rrs := [];
      NoRecordsStand(data, at);
    } else {
      OneRecordFirst(data, at, count);
      var first := ReadRecordWasPrinted(data, at);
      var rest := InsideRecordsWerePrinted(data, RecordAt(data, at).value.1, count - 1);
      rrs := [first] + rest;
      ConsRecords(first, rest);
      StandsAtParts(data, at, PrintRecord(first), PrintRecords(rest));
    }
  }

  lemma NoRecordsStand(data: Bytes, at: nat)
    ensures RecordsFit([]) && PrintRecords([]) == [] && Seen([]) == []
    ensures at <= |data| ==> StandsAt(data, at, PrintRecords([]))
  {
  }

  lemma OneRecordFirst(data: Bytes, at: nat, count: nat)
    requires count > 0 && RecordsAt(data, at, count).Success?
    ensures RecordAt(data, at).Success? && RecordsAt(data, RecordAt(data, at).value.1, count - 1).Success?
  {
  }

  /**
   Every run of records the reader returns is the print of that many records.
   Past the last byte, where nothing can stand, it returns none.
   */
  lemma ReadRecordsWerePrinted(data: Bytes, at: nat, count: nat) returns (rrs: seq<ResourceRecord>)
    requires RecordsAt(data, at, count).Success?
    ensures |rrs| == count && RecordsFit(rrs)
    ensures if at <= |data| then StandsAt(data, at, PrintRecords(rrs)) else count == 0
  {
    if at <= |data| {
      rrs := InsideRecordsWerePrinted(data, at, count);
    } else {
      RecordsAreBounded(data, at, count);
      rrs := [];
    }
  }

  lemma ConsRecords(first: ResourceRecord, rest: seq<ResourceRecord>)
    requires RecordFits(first) && RecordsFit(rest)
    ensures RecordsFit([first] + rest)
    ensures PrintRecords([first] + rest) == PrintRecord(first) + PrintRecords(rest)
    ensures Seen([first] + rest) == [first.Seen()] + Seen(rest)
  {
    assert ([first] + rest)[1..] == rest;
  }

  /** `rrs` printed at `at` is exactly what a read of `records` up to `end` can have been given. */
  predicate Explains(data: Bytes, at: nat, rrs: seq<ResourceRecord>, records: seq<Record>, end: nat) {
    && RecordsFit(rrs)
    && Seen(rrs) == records
    && end == at + |PrintRecords(rrs)|
    && StandsAt(data, at, PrintRecords(rrs))
  }

  /**
   The reader's language, both ways, on arbitrary bytes and from any offset:
   reading `count` records succeeds with `records` and `end` if and only if the
   bytes up to `end` are the print of that many records carrying those types,
   TTLs and data, or no record is asked for beyond the last byte.
   */
  lemma ReaderAcceptsExactlyThePrinted(data: Bytes, at: nat, count: nat, records: seq<Record>, end: nat)
    ensures RecordsAt(data, at, count) == Success((records, end))
            <==> || (|records| == count && exists rrs :: Explains(data, at, rrs, records, end))
                 || (at > |data| && count == 0 && records == [] && end == at)
  {
    if RecordsAt(data, at, count) == Success((records, end)) {
      RecordsAreBounded(data, at, count);
      if at <= |data| {
        var rrs := ReadIsExplained(data, at, count, records, end);
      }
    }
    hide Explains;
    if |records| == count && exists rrs :: Explains(data, at, rrs, records, end) {
      var rrs :| Explains(data, at, rrs, records, end);
      ExplainedIsRead(data, at, rrs, records, end);
    }
  }

  lemma ReadIsExplained(data: Bytes, at: nat, count: nat, records: seq<Record>, end: nat) returns (rrs: seq<ResourceRecord>)
    requires at <= |data| && RecordsAt(data, at, count) == Success((records, end))
    ensures Explains(data, at, rrs, records, end)
  {
    hide RecordsAt, PrintRecords, StandsAt, RecordsFit, Seen;
    rrs := InsideRecordsWerePrinted(data, at, count);
    PrintedRecordsAreRead(data, at, rrs);
  }

  lemma ExplainedIsRead(data: Bytes, at: nat, rrs: seq<ResourceRecord>, records: seq<Record>, end: nat)
    requires Explains(data, at, rrs, records, end)
    ensures RecordsAt(data, at, |records|) == Success((records, end))
  {
    hide RecordsAt, PrintRecords, StandsAt, RecordsFit, Seen;
    PrintedRecordsAreRead(data, at, rrs);
  }

  // ----- whole messages

  /** Every question section that ends inside the message is the print of that many questions. */
  lemma {:induction false} SkippedQuestionsWerePrinted(data: Bytes, at: nat, count: nat) returns (qs: seq<Question>)
    requires QuestionsEnd(data, at, count).Success? && QuestionsEnd(data, at, count).value <= |data|
    ensures |qs| == count && QuestionsFit(qs)
    ensures StandsAt(data, at, PrintQuestions(qs))
    ensures QuestionsEnd(data, at, count) == Success(at + |PrintQuestions(qs)|)
    decreases count
  {
    hide *;
    if count == 0 {
      qs := [];
      NoQuestionsStand(data, at);
    } else {
      OneQuestionFirst(data, at, count);
      var q := SkippedQuestionWasPrinted(data, at);
      var rest := SkippedQuestionsWerePrinted(data, NameEnd(data, at).value + 4, count - 1);
      qs := [q] + rest;
      ConsQuestions(q, rest);
      StandsAtParts(data, at, PrintQuestion(q), PrintQuestions(rest));
    }
  }

  lemma NoQuestionsStand(data: Bytes, at: nat)
    ensures QuestionsFit([]) && PrintQuestions([]) == [] && QuestionsEnd(data, at, 0) == Success(at)
    ensures at <= |data| ==> StandsAt(data, at, PrintQuestions([]))
  {
  }

  lemma OneQuestionFirst(data: Bytes, at: nat, count: nat)
    requires count > 0 && QuestionsEnd(data, at, count).Success?
    ensures NameEnd(data, at).Success?
    ensures QuestionsEnd(data, NameEnd(data, at).value + 4, count - 1) == QuestionsEnd(data, at, count)
    ensures NameEnd(data, at).value + 4 <= QuestionsEnd(data, at, count).value
  {
  }

  lemma SkippedQuestionWasPrinted(data: Bytes, at: nat) returns (q: Question)
    requires NameEnd(data, at).Success? && NameEnd(data, at).value + 4 <= |data|
    ensures QuestionFits(q) && StandsAt(data, at, PrintQuestion(q))
    ensures NameEnd(data, at).value + 4 == at + |PrintQuestion(q)|
  {
    hide PrintName, StandsAt, NameEnd, U16, NameFits;
    var name := SkippedNameWasPrinted(data, at);
    var fixed := at + |PrintName(name)|;
    FixedQuestionStands(data, fixed);
    q := Question(name, U16(data, fixed), U16(data, fixed + 2));
    StandsAtParts(data, at, PrintName(name), Bytes2(q.qtype) + Bytes2(q.qclass));
  }

  lemma FixedQuestionStands(data: Bytes, at: nat)
    requires at + 4 <= |data|
    ensures U16(data, at) < 0x1_0000 && U16(data, at + 2) < 0x1_0000
    ensures StandsAt(data, at, Bytes2(U16(data, at)) + Bytes2(U16(data, at + 2)))
  {
    Bytes2Inverts(data, at);
    Bytes2Inverts(data, at + 2);
  }

  lemma ConsQuestions(first: Question, rest: seq<Question>)
    requires QuestionFits(first) && QuestionsFit(rest)
    ensures QuestionsFit([first] + rest)
    ensures PrintQuestions([first] + rest) == PrintQuestion(first) + PrintQuestions(rest)
  {
    assert ([first] + rest)[1..] == rest;
  }

  /** The first twelve bytes are the header of any message with their flags and counts. */
  lemma HeaderWasPrinted(data: Bytes, m: Message)
    requires Readable(m) && HeaderOf(data) == Success(HeaderFor(m)) && m.id == U16(data, 0)
    ensures StandsAt(data, 0, PrintHeader(m))
  {
    hide QuestionsFit, RecordsFit;
    Bytes2Inverts(data, 0);
    Bytes2Inverts(data, 4);
    Bytes2Inverts(data, 6);
    Bytes2Inverts(data, 8);
    Bytes2Inverts(data, 10);
    assert data[0..12] == PrintHeader(m);
  }

  lemma HeaderFits(data: Bytes, m: Message)
    requires HeaderOf(data) == Success(HeaderFor(m)) && m.id == U16(data, 0)
    requires QuestionsFit(m.questions) && RecordsFit(m.answers) && RecordsFit(m.authority) && RecordsFit(m.additional)
    ensures Readable(m)
  {
    hide QuestionsFit, RecordsFit;
    Bytes2Inverts(data, 0);
    Bytes2Inverts(data, 4);
    Bytes2Inverts(data, 6);
    Bytes2Inverts(data, 8);
    Bytes2Inverts(data, 10);
  }

  /** The bytes begin with the print of this message. */
  predicate LeadsWith(data: Bytes, m: Message) {
    Readable(m) && StandsAt(data, 0, Print(m))
  }

  /** The header passes, but its questions end past the last byte. */
  predicate CutOff(data: Bytes) {
    && HeaderOf(data).Success?
    && QuestionsEnd(data, 12, HeaderOf(data).value.qdcount).Success?
    && QuestionsEnd(data, 12, HeaderOf(data).value.qdcount).value > |data|
  }

  /** Nothing that begins with a printed message is cut off. */
  lemma CutOffBeginsNoMessage(data: Bytes, m: Message)
    requires CutOff(data)
    ensures !LeadsWith(data, m)
  {
    if LeadsWith(data, m) {
      hide Print, PrintQuestions, StandsAt, HeaderOf, QuestionsEnd, RecordsAt, Readable;
      var _, _, _ := LeadingMessageIsRead(data, m);
    }
  }

  lemma ReadSectionsWerePrinted(data: Bytes, first: nat, front: nat, middle: nat, back: nat)
      returns (an: seq<ResourceRecord>, ns: seq<ResourceRecord>, ar: seq<ResourceRecord>, second: nat, third: nat)
    requires first <= |data| && RecordsAt(data, first, front + middle).Success?
    requires RecordsAt(data, RecordsAt(data, first, front + middle).value.1, back).Success?
    ensures |an| == front && |ns| == middle && |ar| == back && RecordsFit(an) && RecordsFit(ns) && RecordsFit(ar)
    ensures second == first + |PrintRecords(an)| && third == second + |PrintRecords(ns)|
    ensures StandsAt(data, first, PrintRecords(an)) && StandsAt(data, second, PrintRecords(ns))
    ensures StandsAt(data, third, PrintRecords(ar))
  {
    hide PrintRecords, StandsAt, RecordsAt, RecordsFit, Seen;
    RecordsSplit(data, first, front, middle);
    an := InsideRecordsWerePrinted(data, first, front);
    PrintedRecordsAreRead(data, first, an);
    StandsInside(data, first, PrintRecords(an));
    second := first + |PrintRecords(an)|;
    ns := InsideRecordsWerePrinted(data, second, middle);
    PrintedRecordsAreRead(data, second, ns);
    StandsInside(data, second, PrintRecords(ns));
    third := second + |PrintRecords(ns)|;
    ar := InsideRecordsWerePrinted(data, third, back);
  }

  /** A message whose three sections can be read, and whose questions are all there, begins with a printed one. */
  lemma ReadMessageWasPrinted(data: Bytes, h: Header, first: nat, next: nat) returns (m: Message)
    requires HeaderOf(data) == Success(h) && QuestionsEnd(data, 12, h.qdcount) == Success(first) && first <= |data|
    requires RecordsAt(data, first, h.ancount + h.nscount).Success?
    requires RecordsAt(data, first, h.ancount + h.nscount).value.1 == next && RecordsAt(data, next, h.arcount).Success?
    ensures LeadsWith(data, m)
  {
    hide *;
    var qs := SkippedQuestionsWerePrinted(data, 12, h.qdcount);
    var an, ns, ar, second, third := ReadSectionsWerePrinted(data, first, h.ancount, h.nscount, h.arcount);
    m := AssembledMessage(data, h, qs, an, ns, ar);
  }

  lemma AssembledMessage(data: Bytes, h: Header, qs: seq<Question>,
                         an: seq<ResourceRecord>, ns: seq<ResourceRecord>, ar: seq<ResourceRecord>)
      returns (m: Message)
    requires HeaderOf(data) == Success(h)
    requires h.qdcount == |qs| && h.ancount == |an| && h.nscount == |ns| && h.arcount == |ar|
    requires QuestionsFit(qs) && RecordsFit(an) && RecordsFit(ns) && RecordsFit(ar)
    requires var first, second := 12 + |PrintQuestions(qs)|, 12 + |PrintQuestions(qs)| + |PrintRecords(an)|;
             && StandsAt(data, 12, PrintQuestions(qs)) && StandsAt(data, first, PrintRecords(an))
             && StandsAt(data, second, PrintRecords(ns)) && StandsAt(data, second + |PrintRecords(ns)|, PrintRecords(ar))
    ensures LeadsWith(data, m)
  {
    hide *;
    m := Message(U16(data, 0), h.flagsHigh, h.flagsLow, qs, an, ns, ar);
    SameHeader(m, h);
    HeaderFits(data, m);
    HeaderWasPrinted(data, m);
    SectionsLead(data, m);
  }

  lemma SameHeader(m: Message, h: Header)
    requires h == Header(m.flagsHigh, m.flagsLow, |m.questions|, |m.answers|, |m.authority|, |m.additional|)
    ensures HeaderFor(m) == h
  {
  }

  lemma SectionsLead(data: Bytes, m: Message)
    requires Readable(m) && StandsAt(data, 0, PrintHeader(m))
    requires var first, second := 12 + |PrintQuestions(m.questions)|,
                                  12 + |PrintQuestions(m.questions)| + |PrintRecords(m.answers)|;
             && StandsAt(data, 12, PrintQuestions(m.questions)) && StandsAt(data, first, PrintRecords(m.answers))
             && StandsAt(data, second, PrintRecords(m.authority))
             && StandsAt(data, second + |PrintRecords(m.authority)|, PrintRecords(m.additional))
    ensures LeadsWith(data, m)
  {
    hide PrintHeader, PrintQuestions, PrintRecords, StandsAt, Print, Readable, RecordsFit, QuestionsFit;
    var _, _, _ := PrintedSectionsStand(data, m);
  }

  lemma StandsInside(data: Bytes, at: nat, part: Bytes)
    requires StandsAt(data, at, part)
    ensures at + |part| <= |data|
  {
  }
}
