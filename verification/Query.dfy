/** The one message this program prints itself: a single question, with or without EDNS0. */
module Query {
  import opened Wrappers
  import opened Text
  import opened Dns
  import opened Wire
  import opened Strict

  // ----- names

  predicate IsAscii(s: string) {
    forall i | 0 <= i < |s| :: s[i] as int < 128
  }

  function AsciiBytes(s: string): (b: Bytes)
    requires IsAscii(s)
    ensures |b| == |s| && forall i | 0 <= i < |s| :: b[i] == s[i] as int
  {
    if s == "" then []
    else
      var first: Byte := s[0] as int;
      [first] + AsciiBytes(s[1..])
  }

  /** The labels a hostname names: its non-empty dot-separated parts. */
  function HostLabels(hostname: string): seq<string> {
    NonEmpty(Split(hostname, '.'))
  }

  predicate Encodable(part: string) {
    IsAscii(part) && 0 < |part| <= 63
  }

  predicate AllEncodable(parts: seq<string>) {
    forall i | 0 <= i < |parts| :: Encodable(parts[i])
  }

  function EncodedLabels(parts: seq<string>): (labels: seq<Bytes>)
    requires AllEncodable(parts)
    ensures |labels| == |parts| && LabelsFit(labels)
    ensures forall i | 0 <= i < |parts| :: labels[i] == AsciiBytes(parts[i])
  {
    if parts == [] then [] else [AsciiBytes(parts[0])] + EncodedLabels(parts[1..])
  }

  /** The wire name of a hostname, or a failure when a label does not fit one. */
  function NameOf(hostname: string): (r: Result<Name>)
    ensures r.Success? ==> NameFits(r.value) && r.value.ending.Root?
  {
    if AllEncodable(HostLabels(hostname))
    then Success(Name(EncodedLabels(HostLabels(hostname)), Root))
    else Failure
  }

  lemma {:induction false} NonEmptyMembers(parts: seq<string>, part: string)
    ensures part in NonEmpty(parts) <==> part in parts && part != ""
  {
    if parts == [] {
    } else {
      NonEmptyMembers(parts[1..], part);
      assert part in parts <==> part == parts[0] || part in parts[1..];
    }
  }

  /** Encoding fails exactly when something between two dots is not ASCII or longer than a label may be. */
  lemma EncodingFailsIff(hostname: string)
    ensures NameOf(hostname).Failure? <==> exists part | part in Split(hostname, '.') :: (exists c | c in part :: c as int >= 128) || |part| > 63
  {
    var parts, labels := Split(hostname, '.'), HostLabels(hostname);
    hide Split;
    forall part
      ensures part in labels <==> part in parts && part != ""
    {
      NonEmptyMembers(parts, part);
    }
    forall part: string
      ensures IsAscii(part) <==> forall c | c in part :: c as int < 128
    {
      assert forall i | 0 <= i < |part| :: part[i] in part;
    }
    if part :| part in parts && (!IsAscii(part) || |part| > 63) {
      assert part in labels;
      var i :| 0 <= i < |labels| && labels[i] == part;
      assert !Encodable(labels[i]);
    }
    if i :| 0 <= i < |labels| && !Encodable(labels[i]) {
      assert labels[i] in parts;
    }
  }

  /** Stripping trailing dots first makes no difference: they only add empty parts. */
  lemma {:induction false} TrailingDotsAreEmptyLabels(hostname: string)
    ensures NonEmpty(Split(RStrip(hostname, '.'), '.')) == HostLabels(hostname)
  {
    if hostname != "" && hostname[|hostname| - 1] == '.' {
      var front := hostname[..|hostname| - 1];
      assert hostname == front + ['.'] + "";
      SplitConcat(front, '.', "");
      NonEmptyConcat(Split(front, '.'), [""]);
      assert NonEmpty([""]) == [];
      TrailingDotsAreEmptyLabels(front);
    }
  }

  lemma {:induction false} PrintLabelsSnoc(labels: seq<Bytes>, last: Bytes)
    requires LabelsFit(labels + [last])
    ensures LabelsFit(labels)
    ensures PrintLabels(labels + [last]) == PrintLabels(labels) + ([|last|] + last)
  {
    assert forall i | 0 <= i < |labels| :: labels[i] == (labels + [last])[i];
    if labels == [] {
      assert (labels + [last])[1..] == [];
    } else {
      assert (labels + [last])[1..] == labels[1..] + [last];
      PrintLabelsSnoc(labels[1..], last);
    }
  }

  lemma {:induction false} EncodedLabelsSnoc(parts: seq<string>, last: string)
    requires AllEncodable(parts) && Encodable(last)
    ensures AllEncodable(parts + [last])
    ensures EncodedLabels(parts + [last]) == EncodedLabels(parts) + [AsciiBytes(last)]
  {
    var whole := parts + [last];
    assert AllEncodable(whole);
    forall i | 0 <= i < |whole|
      ensures EncodedLabels(whole)[i] == (EncodedLabels(parts) + [AsciiBytes(last)])[i]
    {
    }
  }

  /** What looking at one more part does to the labels collected so far. */
  lemma NextPart(parts: seq<string>, i: nat)
    requires i < |parts|
    ensures NonEmpty(parts[..i + 1])
            == if parts[i] == "" then NonEmpty(parts[..i]) else NonEmpty(parts[..i]) + [parts[i]]
  {
    OnePart(parts[i]);
    hide NonEmpty;
    assert parts[..i + 1] == parts[..i] + [parts[i]];
    NonEmptyConcat(parts[..i], [parts[i]]);
    assert NonEmpty(parts[..i]) + [] == NonEmpty(parts[..i]);
  }

  /** One part that is no DNS label spoils the whole hostname. */
  lemma UnencodablePart(parts: seq<string>, i: nat)
    requires i < |parts| && parts[i] != "" && !Encodable(parts[i])
    ensures !AllEncodable(NonEmpty(parts))
  {
    NextPart(parts, i);
    hide NonEmpty, Encodable;
    assert parts == parts[..i + 1] + parts[i + 1..];
    NonEmptyConcat(parts[..i + 1], parts[i + 1..]);
    assert NonEmpty(parts)[|NonEmpty(parts[..i])|] == parts[i];
  }

  lemma OnePart(part: string)
    ensures NonEmpty([part]) == if part == "" then [] else [part]
  {
    assert NonEmpty([]) == [];
  }

  lemma NextLabelPrinted(done: seq<string>, part: string)
    requires AllEncodable(done) && Encodable(part)
    ensures AllEncodable(done + [part])
    ensures PrintLabels(EncodedLabels(done + [part]))
            == PrintLabels(EncodedLabels(done)) + [|part|] + AsciiBytes(part)
  {
    hide PrintLabels;
    EncodedLabelsSnoc(done, part);
    PrintLabelsSnoc(EncodedLabels(done), AsciiBytes(part));
    var before := PrintLabels(EncodedLabels(done));
    assert before + ([|part|] + AsciiBytes(part)) == before + [|part|] + AsciiBytes(part);
  }

  method EncodeName(hostname: string) returns (r: Result<Bytes>)
    ensures r == match NameOf(hostname) { case Success(name) => Success(PrintName(name)) case Failure => Failure }
  {
    hide PrintLabels, EncodedLabels, NonEmpty, Split, Encodable;
    var parts := Split(RStrip(hostname, '.'), '.');
    TrailingDotsAreEmptyLabels(hostname);
    var encoded: Bytes := [];
    assert parts[..0] == [];
    EmptyNamePrints();
    for i := 0 to |parts|
      invariant AllEncodable(NonEmpty(parts[..i]))
      invariant encoded == PrintLabels(EncodedLabels(NonEmpty(parts[..i])))
    {
      var part := parts[i];
      NextPart(parts, i);
      if part == "" {
        continue;
      }
      if !IsAscii(part) {
        LabelMustFit(part);
        UnencodablePart(parts, i);
        return Failure;
      }
      var raw := AsciiBytes(part);
      if !(0 < |raw| <= 63) {
        LabelMustFit(part);
        UnencodablePart(parts, i);
        return Failure;
      }
      LabelMustFit(part);
      NextLabelPrinted(NonEmpty(parts[..i]), part);
      encoded := encoded + [|raw|] + raw;
    }
    assert parts[..|parts|] == parts;
    encoded := encoded + [0];
    return Success(encoded);
  }

  lemma LabelMustFit(part: string)
    ensures Encodable(part) <==> IsAscii(part) && 0 < |part| <= 63
  {
  }

  lemma EmptyNamePrints()
    ensures NonEmpty([]) == [] && AllEncodable([]) && PrintLabels(EncodedLabels([])) == []
  {
  }

  // ----- queries

  /** The additional record of an EDNS0 query as the reader sees it. */
  const OPT_SEEN := Record(TYPE_OPT, EDNS_DNSSEC_OK, [])

  const OPT_RECORD: Bytes := [0] + Bytes2(TYPE_OPT) + Bytes2(EDNS_PAYLOAD_SIZE) + Bytes4(EDNS_DNSSEC_OK) + [0, 0]

  /** The query as a message: recursion desired, one question, EDNS0 when signatures are wanted. */
  function QueryMessage(name: Name, qtype: nat, queryId: nat, dnssecOk: bool): Message {
    Message(queryId, 1, 0, [Question(name, qtype, IN_CLASS)], [], [],
            if dnssecOk then [ResourceRecord(Name([], Root), TYPE_OPT, EDNS_PAYLOAD_SIZE, EDNS_DNSSEC_OK, [])] else [])
  }

  method BuildQuery(hostname: string, qtype: nat, queryId: nat, dnssecOk: bool) returns (r: Result<Bytes>)
    requires qtype < 0x1_0000 && queryId < 0x1_0000
    ensures match NameOf(hostname)
            case Failure => r == Failure
            case Success(name) => r == Success(Print(QueryMessage(name, qtype, queryId, dnssecOk)))
  {
    var additional := if dnssecOk then OPT_RECORD else [];
    var header := Bytes2(queryId) + [1, 0] + [0, 1] + [0, 0] + [0, 0] + (if dnssecOk then [0, 1] else [0, 0]);
    var name :- EncodeName(hostname);
    var question := name + Bytes2(qtype) + Bytes2(IN_CLASS);
    r := Success(header + question + additional);
    QueryParts(NameOf(hostname).value, qtype, queryId, dnssecOk);
  }

  /** The printed parts of a query message, byte for byte as the builder lays them out. */
  lemma QueryParts(name: Name, qtype: nat, queryId: nat, dnssecOk: bool)
    requires NameFits(name) && qtype < 0x1_0000 && queryId < 0x1_0000
    ensures var m := QueryMessage(name, qtype, queryId, dnssecOk);
            && Readable(m)
            && Print(m) == Bytes2(queryId) + [1, 0] + [0, 1] + [0, 0] + [0, 0]
                             + (if dnssecOk then [0, 1] else [0, 0])
                           + (PrintName(name) + Bytes2(qtype) + [0, 1])
                           + (if dnssecOk then OPT_RECORD else [])
  {
    var m := QueryMessage(name, qtype, queryId, dnssecOk);
    OneQuestionPrints(m.questions[0]);
    OptRecordPrints();
    hide PrintQuestions, PrintQuestion, PrintRecords, PrintRecord, PrintName, OPT_RECORD;
    assert PrintRecords([]) == [] by { NoRecordsPrint(); }
    assert Bytes2(0) == [0, 0] && Bytes2(1) == [0, 1];
    assert PrintHeader(m) == Bytes2(queryId) + [1, 0] + [0, 1] + [0, 0] + [0, 0]
                             + (if dnssecOk then [0, 1] else [0, 0]);
  }

  lemma NoRecordsPrint()
    ensures PrintRecords([]) == []
  {
  }

  lemma OneQuestionPrints(q: Question)
    requires QuestionFits(q)
    ensures PrintQuestions([q]) == PrintName(q.name) + Bytes2(q.qtype) + Bytes2(q.qclass)
  {
    assert PrintQuestions([q]) == PrintQuestion(q) + [];
  }

  lemma OptRecordPrints()
    ensures var opt := ResourceRecord(Name([], Root), TYPE_OPT, EDNS_PAYLOAD_SIZE, EDNS_DNSSEC_OK, []);
            RecordFits(opt) && PrintRecords([opt]) == OPT_RECORD && opt.Seen().DnssecOk()
    ensures OPT_RECORD == [0, 0, 41, 4, 208, 0, 0, 128, 0, 0, 0]
  {
    var opt := ResourceRecord(Name([], Root), TYPE_OPT, EDNS_PAYLOAD_SIZE, EDNS_DNSSEC_OK, []);
    assert PrintRecords([opt]) == PrintRecord(opt) + [];
    assert PrintName(opt.name) == [0];
  }

  /**
   What a built query says when it is read back: it passes the header check,
   holds one question, no answer and no authority record, and with `dnssecOk`
   exactly one additional record, an OPT record with the DO bit, ending the message.
   */
  lemma QueryRoundTrip(hostname: string, qtype: nat, queryId: nat, dnssecOk: bool)
      returns (data: Bytes, first: nat)
    requires qtype < 0x1_0000 && queryId < 0x1_0000 && NameOf(hostname).Success?
    ensures data == Print(QueryMessage(NameOf(hostname).value, qtype, queryId, dnssecOk))
    ensures HeaderOf(data) == Success(Header(1, 0, 1, 0, 0, if dnssecOk then 1 else 0))
    ensures QuestionsEnd(data, 12, 1) == Success(first)
    ensures StandsAt(data, 12, PrintQuestion(Question(NameOf(hostname).value, qtype, IN_CLASS)))
    ensures first == 12 + |PrintQuestion(Question(NameOf(hostname).value, qtype, IN_CLASS))|
    ensures dnssecOk ==> RecordsAt(data, first, 1) == Success(([OPT_SEEN], |data|)) && OPT_SEEN.DnssecOk()
    ensures !dnssecOk ==> first == |data|
  {
    hide Print, PrintQuestions, PrintQuestion, PrintRecords, StandsAt, HeaderOf, QuestionsEnd;
    hide NameOf, NameFits, Readable, RecordFits;
    var name := NameOf(hostname).value;
    var m := QueryMessage(name, qtype, queryId, dnssecOk);
    QueryParts(name, qtype, queryId, dnssecOk);
    data := Print(m);
    OneQuestionPrintsAlone(m.questions[0]);
    var second, third;
    first, second, third := MessageRoundTrip(m);
    assert RecordsAt(data, first, 0) == Success(([], first));
    if dnssecOk {
      OptRecordPrints();
      assert Seen(m.additional) == [OPT_SEEN];
    }
  }

  lemma OneQuestionPrintsAlone(q: Question)
    requires QuestionFits(q)
    ensures PrintQuestions([q]) == PrintQuestion(q)
  {
    assert PrintQuestions([q]) == PrintQuestion(q) + [];
  }

  /** Asking for signatures changes two things only: the last count and the appended record. */
  lemma SignaturesAreAnAddition(name: Name, qtype: nat, queryId: nat)
    requires NameFits(name) && qtype < 0x1_0000 && queryId < 0x1_0000
    ensures Readable(QueryMessage(name, qtype, queryId, false)) && Readable(QueryMessage(name, qtype, queryId, true))
    ensures var plain := Print(QueryMessage(name, qtype, queryId, false));
            |plain| >= 12 && plain[11] == 0
            && Print(QueryMessage(name, qtype, queryId, true)) == plain[11 := 1] + OPT_RECORD
  {
    QueryParts(name, qtype, queryId, false);
    QueryParts(name, qtype, queryId, true);
    hide Print, PrintName, Bytes2, OPT_RECORD, Readable;
    LastCountByte(Bytes2(queryId) + [1, 0] + [0, 1] + [0, 0] + [0, 0],
                  PrintName(name) + Bytes2(qtype) + [0, 1]);
  }

  lemma LastCountByte(start: Bytes, rest: Bytes)
    requires |start| == 10
    ensures start + [0, 1] + rest == (start + [0, 0] + rest + [])[11 := 1]
    ensures (start + [0, 0] + rest + [])[11] == 0
  {
  }

  /** What the labels of a hostname take in a message, their length bytes included. */
  function Octets(parts: seq<string>): nat {
    if parts == [] then 0 else 1 + |parts[0]| + Octets(parts[1..])
  }

  lemma {:induction false} EncodedOctets(parts: seq<string>)
    requires AllEncodable(parts)
    ensures |PrintLabels(EncodedLabels(parts))| == Octets(parts) && ShortLabels(EncodedLabels(parts))
  {
    if parts == [] {
    } else {
      EncodedOctets(parts[1..]);
      ConsLabels(AsciiBytes(parts[0]), EncodedLabels(parts[1..]));
    }
  }

  /** Labels are held to 63 octets but names not to 255: a query is to the letter exactly below that. */
  lemma QueryIsStrictIff(hostname: string, qtype: nat, queryId: nat, dnssecOk: bool)
    requires qtype < 0x1_0000 && queryId < 0x1_0000 && NameOf(hostname).Success?
    ensures var m := QueryMessage(NameOf(hostname).value, qtype, queryId, dnssecOk);
            Readable(m) && (StrictNames(m) <==> Octets(HostLabels(hostname)) < NAME_OCTETS)
  {
    var name := NameOf(hostname).value;
    var m := QueryMessage(name, qtype, queryId, dnssecOk);
    EncodedOctets(HostLabels(hostname));
    assert StrictName(name, 12) <==> Octets(HostLabels(hostname)) < NAME_OCTETS;
    hide NameOf, NameFits, StrictQuestions, StrictRecords, StrictName, Print, PrintRecords, PrintQuestions;
    QueryParts(name, qtype, queryId, dnssecOk);
    StrictOnItsOwn(m.questions[0], 12);
    RootIsStrict(m.additional, 12 + |PrintQuestions(m.questions)|);
  }

  lemma StrictOnItsOwn(q: Question, at: nat)
    requires QuestionFits(q)
    ensures StrictQuestions([q], at) <==> StrictName(q.name, at)
  {
    assert [q][1..] == [];
  }

  lemma RootIsStrict(rrs: seq<ResourceRecord>, at: nat)
    requires RecordsFit(rrs) && |rrs| <= 1 && forall rr | rr in rrs :: rr.name == Name([], Root)
    ensures StrictRecords(rrs, at) && [] + [] + rrs == rrs
  {
  }

  /** A query is not marked as a response. */
  lemma QueryIsNoResponse(hostname: string, qtype: nat, queryId: nat, dnssecOk: bool) returns (data: Bytes)
    requires qtype < 0x1_0000 && queryId < 0x1_0000 && NameOf(hostname).Success?
    ensures data == Print(QueryMessage(NameOf(hostname).value, qtype, queryId, dnssecOk)) && Malformed(data)
  {
    hide Print, Malformed, HeaderOf, NamesSound;
    var first;
    data, first := QueryRoundTrip(hostname, qtype, queryId, dnssecOk);
    MalformedIff(data);
  }
}
