/**
 What RFC 1035 lets a resolver send, which is less than the reader accepts, and
 how to tell the two apart on the bytes.
 */
module Strict {
  import opened Wrappers
  import opened Dns
  import opened Wire

  // Sections 2.3.4 and 4.1.1 of RFC 1035.
  const LABEL_OCTETS: nat := 63
  const NAME_OCTETS: nat := 255
  const HEADER_OCTETS: nat := 12

  // ----- strict messages

  /** The offset a compression pointer names. */
  function Target(high: Byte, low: Byte): int {
    (high - 0xC0) * 0x100 + low
  }

  predicate ShortLabels(labels: seq<Bytes>) {
    forall i | 0 <= i < |labels| :: |labels[i]| <= LABEL_OCTETS
  }

  /** A pointer names a place behind the header and before the name it ends. */
  predicate PointsBack(ending: Ending, start: nat) {
    ending.Pointer? ==> HEADER_OCTETS <= Target(ending.high, ending.low) < start
  }

  /** A name as sections 2.3.4, 3.1 and 4.1.4 of RFC 1035 allow it at offset `at`. */
  predicate StrictName(name: Name, at: nat)
    requires NameFits(name)
  {
    ShortLabels(name.labels) && |PrintLabels(name.labels)| < NAME_OCTETS && PointsBack(name.ending, at)
  }

  predicate StrictQuestions(qs: seq<Question>, at: nat)
    requires QuestionsFit(qs)
  {
    qs == [] || (StrictName(qs[0].name, at) && StrictQuestions(qs[1..], at + |PrintQuestion(qs[0])|))
  }

  predicate StrictRecords(rrs: seq<ResourceRecord>, at: nat)
    requires RecordsFit(rrs)
  {
    rrs == [] || (StrictName(rrs[0].name, at) && StrictRecords(rrs[1..], at + |PrintRecord(rrs[0])|))
  }

  function AllRecords(m: Message): seq<ResourceRecord> {
    m.answers + m.authority + m.additional
  }

  /** Every name of a message is one RFC 1035 allows where it stands. */
  predicate StrictNames(m: Message)
    requires Readable(m)
  {
    StrictQuestions(m.questions, 12) && StrictRecords(AllRecords(m), 12 + |PrintQuestions(m.questions)|)
  }

  /** A response without an error, to the letter of RFC 1035. */
  predicate StrictResponse(m: Message) {
    Readable(m) && HeaderFor(m).IsResponse() && StrictNames(m)
  }

  /** The bytes are no such response. */
  ghost predicate Malformed(data: Bytes) {
    forall m | StrictResponse(m) :: Print(m) != data
  }

  // ----- the same, read off the bytes

  /** No reserved length byte, at most 255 octets, and a pointer that points back, in the name begun at `start`. */
  predicate NameSound(data: Bytes, start: nat, at: nat)
    requires start <= at
    decreases |data| - at
  {
    && at < |data|
    && if data[at] == 0 then at - start < NAME_OCTETS
       else if data[at] >= 0xC0 then
         && at - start < NAME_OCTETS && at + 1 < |data|
         && HEADER_OCTETS <= Target(data[at], data[at + 1]) < start
       else data[at] <= LABEL_OCTETS && NameSound(data, start, at + 1 + data[at])
  }

  predicate QuestionsSound(data: Bytes, at: nat, count: nat)
    decreases count
  {
    count == 0 || (NameSound(data, at, at) && NameEnd(data, at).Success?
                   && QuestionsSound(data, NameEnd(data, at).value + 4, count - 1))
  }

  predicate RecordsSound(data: Bytes, at: nat, count: nat)
    decreases count
  {
    count == 0 || (NameSound(data, at, at) && RecordAt(data, at).Success?
                   && RecordsSound(data, RecordAt(data, at).value.1, count - 1))
  }

  /** All records behind the questions, and where the last of them ends. */
  function WholeRead(data: Bytes): Result<(seq<Record>, nat)> {
    var header :- HeaderOf(data);
    var first :- QuestionsEnd(data, 12, header.qdcount);
    if first > |data| then Failure
    else RecordsAt(data, first, header.ancount + header.nscount + header.arcount)
  }

  /** All records can be read, and every name among them and the questions is sound. */
  predicate NamesSound(data: Bytes) {
    && WholeRead(data).Success?
    && var header := HeaderOf(data).value;
    && QuestionsSound(data, 12, header.qdcount)
    && RecordsSound(data, QuestionsEnd(data, 12, header.qdcount).value, header.ancount + header.nscount + header.arcount)
  }

  /** Something stands behind the last record. */
  predicate BytesLeftOver(data: Bytes) {
    WholeRead(data).Success? && WholeRead(data).value.1 < |data|
  }

  /** A message that is all there, marked as a response, with sound names and nothing behind it. */
  predicate Sound(data: Bytes) {
    HeaderOf(data).Success? && HeaderOf(data).value.IsResponse() && NamesSound(data) && !BytesLeftOver(data)
  }

  // ----- the two agree

  lemma EndingSoundIff(data: Bytes, start: nat, at: nat, ending: Ending)
    requires start <= at && NameFits(Name([], ending)) && StandsAt(data, at, PrintEnding(ending))
    ensures NameSound(data, start, at) <==> at - start < NAME_OCTETS && PointsBack(ending, start)
  {
    StandsAtByte(data, at, PrintEnding(ending), 0);
    if ending.Pointer? {
      StandsAtByte(data, at, PrintEnding(ending), 1);
    }
  }

  /** A length byte takes the walk on to the next label. */
  lemma LabelSoundIff(data: Bytes, start: nat, at: nat, part: Bytes)
    requires start <= at && 0 < |part| <= LABEL_LIMIT && StandsAt(data, at, [|part|] + part)
    ensures NameSound(data, start, at) <==> |part| <= LABEL_OCTETS && NameSound(data, start, at + 1 + |part|)
  {
    StandsAtByte(data, at, [|part|] + part, 0);
  }

  /** A stretch of a name that stands at `at`, begun at `start`, is sound exactly when what it prints is strict. */
  lemma {:induction false} NameSoundIff(data: Bytes, start: nat, at: nat, name: Name)
    requires start <= at && NameFits(name) && StandsAt(data, at, PrintName(name))
    ensures NameSound(data, start, at)
            <==> ShortLabels(name.labels) && at - start + |PrintLabels(name.labels)| < NAME_OCTETS
                 && PointsBack(name.ending, start)
    decreases |name.labels|
  {
    if name.labels == [] {
      assert PrintName(name) == PrintEnding(name.ending);
      hide NameSound, StandsAt;
      EndingSoundIff(data, start, at, name.ending);
    } else {
      hide NameSound, PrintName, StandsAt, PrintLabels, ShortLabels, PointsBack;
      var part := name.labels[0];
      var rest := Name(name.labels[1..], name.ending);
      ConsName(part, rest);
      ConsLabels(part, rest.labels);
      assert name.labels == [part] + rest.labels;
      StandsAtParts(data, at, [|part|] + part, PrintName(rest));
      LabelSoundIff(data, start, at, part);
      NameSoundIff(data, start, at + 1 + |part|, rest);
    }
  }

  lemma ConsLabels(part: Bytes, rest: seq<Bytes>)
    requires 0 < |part| <= LABEL_LIMIT && LabelsFit(rest)
    ensures LabelsFit([part] + rest) && |PrintLabels([part] + rest)| == 1 + |part| + |PrintLabels(rest)|
    ensures ShortLabels([part] + rest) <==> |part| <= LABEL_OCTETS && ShortLabels(rest)
  {
    var labels := [part] + rest;
    assert labels[1..] == rest;
    assert forall i | 0 < i < |labels| :: labels[i] == rest[i - 1];
    if ShortLabels(labels) {
      assert |labels[0]| <= LABEL_OCTETS;
      assert forall i | 0 <= i < |rest| :: rest[i] == labels[i + 1];
    }
  }

  lemma {:induction false} QuestionsSoundIff(data: Bytes, at: nat, qs: seq<Question>)
    requires QuestionsFit(qs) && StandsAt(data, at, PrintQuestions(qs))
    ensures QuestionsSound(data, at, |qs|) <==> StrictQuestions(qs, at)
    decreases |qs|
  {
    hide PrintName, PrintLabels, NameEnd, StandsAt, NameSound, ShortLabels, PointsBack;
    if qs == [] {
    } else {
      var q := qs[0];
      StandsAtParts(data, at, PrintQuestion(q), PrintQuestions(qs[1..]));
      StandsAtParts(data, at, PrintName(q.name), Bytes2(q.qtype) + Bytes2(q.qclass));
      PrintedNameIsSkipped(data, at, q.name);
      NameSoundIff(data, at, at, q.name);
      QuestionsSoundIff(data, at + |PrintQuestion(q)|, qs[1..]);
    }
  }

  lemma {:induction false} RecordsSoundIff(data: Bytes, at: nat, rrs: seq<ResourceRecord>)
    requires RecordsFit(rrs) && StandsAt(data, at, PrintRecords(rrs))
    ensures RecordsSound(data, at, |rrs|) <==> StrictRecords(rrs, at)
    decreases |rrs|
  {
    hide PrintName, PrintLabels, RecordAt, StandsAt, NameSound, ShortLabels, PointsBack;
    if rrs == [] {
    } else {
      StandsAtParts(data, at, PrintRecord(rrs[0]), PrintRecords(rrs[1..]));
      PrintedRecordIsRead(data, at, rrs[0]);
      StandsAtParts(data, at, PrintName(rrs[0].name), PrintFixed(rrs[0]) + rrs[0].rdata);
      NameSoundIff(data, at, at, rrs[0].name);
      RecordsSoundIff(data, at + |PrintRecord(rrs[0])|, rrs[1..]);
    }
  }

  lemma {:induction false} PrintRecordsConcat(a: seq<ResourceRecord>, b: seq<ResourceRecord>)
    requires RecordsFit(a) && RecordsFit(b)
    ensures RecordsFit(a + b) && PrintRecords(a + b) == PrintRecords(a) + PrintRecords(b)
  {
    hide PrintRecord, RecordFits;
    if a == [] {
      assert a + b == b;
    } else {
      assert (a + b)[1..] == a[1..] + b;
      PrintRecordsConcat(a[1..], b);
    }
  }

  /** The three sections of a printed message stand in it as one. */
  lemma SectionsStandTogether(data: Bytes, m: Message)
    requires LeadsWith(data, m)
    ensures RecordsFit(AllRecords(m))
    ensures StandsAt(data, 12 + |PrintQuestions(m.questions)|, PrintRecords(AllRecords(m)))
    ensures |Print(m)| == 12 + |PrintQuestions(m.questions)| + |PrintRecords(AllRecords(m))|
  {
    hide PrintQuestions, PrintRecords, PrintHeader, StandsAt, RecordsFit, QuestionsFit, Print;
    var first, second, third := PrintedSectionsStand(data, m);
    PrintRecordsConcat(m.answers, m.authority);
    PrintRecordsConcat(m.answers + m.authority, m.additional);
    StandsAtParts(data, first, PrintRecords(m.answers), PrintRecords(m.authority));
    StandsAtParts(data, first, PrintRecords(m.answers + m.authority), PrintRecords(m.additional));
  }

  /** Bytes that begin with a printed message are read as that message, its names sound exactly when strict. */
  lemma LeadingMessageIsSoundIff(data: Bytes, m: Message)
    requires LeadsWith(data, m)
    ensures HeaderOf(data) == Success(HeaderFor(m))
    ensures WholeRead(data) == Success((Seen(AllRecords(m)), |Print(m)|))
    ensures NamesSound(data) <==> StrictNames(m)
  {
    hide Print, PrintQuestions, PrintRecords, StandsAt, HeaderOf, QuestionsEnd, RecordsAt, Seen;
    hide QuestionsSound, RecordsSound, StrictQuestions, StrictRecords;
    var first, _, _ := LeadingMessageIsRead(data, m);
    SectionsStandTogether(data, m);
    PrintedRecordsAreRead(data, first, AllRecords(m));
    QuestionsSoundIff(data, 12, m.questions);
    RecordsSoundIff(data, first, AllRecords(m));
  }

  /** Whatever is read to the end of its last record begins with a printed message. */
  lemma WholeReadWasPrinted(data: Bytes) returns (m: Message)
    requires WholeRead(data).Success?
    ensures LeadsWith(data, m)
  {
    hide HeaderOf, QuestionsEnd, RecordsAt, LeadsWith;
    var h := HeaderOf(data).value;
    var first := QuestionsEnd(data, 12, h.qdcount).value;
    RecordsSplit(data, first, h.ancount + h.nscount, h.arcount);
    m := ReadMessageWasPrinted(data, h, first, RecordsAt(data, first, h.ancount + h.nscount).value.1);
  }

  /** The bytes are a response to the letter of RFC 1035 exactly when a walk over them finds them sound. */
  lemma MalformedIff(data: Bytes)
    ensures Malformed(data) <==> !Sound(data)
  {
    hide Print, WholeRead, QuestionsSound, RecordsSound, HeaderOf, StrictNames;
    if Sound(data) {
      var m := WholeReadWasPrinted(data);
      LeadingMessageIsSoundIff(data, m);
      WholeMessage(data, m);
      assert StrictResponse(m);
    }
    if m :| StrictResponse(m) && Print(m) == data {
      WholeMessage(data, m);
      LeadingMessageIsSoundIff(data, m);
    }
  }

  lemma WholeMessage(data: Bytes, m: Message)
    requires Readable(m)
    ensures Print(m) == data <==> LeadsWith(data, m) && |Print(m)| == |data|
  {
    hide Print;
    assert data[0..|data|] == data;
  }
}
