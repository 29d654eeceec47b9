/** Whether a zone is signed, as far as the resolvers asked could tell. */
module Dnssec {
  import opened Wrappers
  import opened Dns
  import opened Wire
  import opened Strict
  import opened Query

  datatype Answer = Answer(validated: bool, signed: bool, resolverAware: bool)

  predicate CarriesSignature(records: seq<Record>) {
    exists r | r in records :: r.rtype == TYPE_RRSIG
  }

  predicate EchoesDo(records: seq<Record>) {
    exists r | r in records :: r.rtype == TYPE_OPT && r.DnssecOk()
  }

  /** The verdict a raw response carries: signatures count in the first two sections, the DO echo in the third. */
  function AnswerOf(data: Bytes): Result<Answer> {
    var header :- HeaderOf(data);
    var start :- QuestionsEnd(data, 12, header.qdcount);
    var (records, next) :- RecordsAt(data, start, header.ancount + header.nscount);
    var (additional, _) :- RecordsAt(data, next, header.arcount);
    Success(Answer(header.AuthenticData(), CarriesSignature(records), EchoesDo(additional)))
  }

  method ParseDnssecResponse(data: Bytes) returns (r: Result<Answer>)
    ensures r == AnswerOf(data)
  {
    hide HeaderOf, QuestionsEnd, RecordsAt;
    var header :- HeaderOf(data);
    var offset :- SkipQuestions(data, header);
    var front :- ReadRecords(data, offset, header.ancount + header.nscount);
    var rest :- ReadRecords(data, front.1, header.arcount);
    return Success(Answer(header.AuthenticData(), CarriesSignature(front.0), EchoesDo(rest.0)));
  }

  /** What a message says: the AD bit, a signature in answer or authority, the DO echo in the additional section. */
  function VerdictOf(m: Message): Answer {
    Answer(m.flagsLow / 32 % 2 == 1,
           exists rr | rr in m.answers + m.authority :: rr.rtype == 46,
           exists rr | rr in m.additional :: rr.rtype == 41 && rr.ttl / 0x8000 % 2 == 1)
  }

  /** On a printed message each part of the verdict comes from its own section and no other. */
  lemma PrintedVerdict(m: Message)
    requires Readable(m)
    ensures AnswerOf(Print(m)) == Success(VerdictOf(m))
  {
    hide Print, AnswerOf, VerdictOf;
    LeadingVerdict(Print(m), m);
  }

  /** Whatever follows the message. */
  lemma LeadingVerdict(data: Bytes, m: Message)
    requires LeadsWith(data, m)
    ensures AnswerOf(data) == Success(VerdictOf(m))
  {
    hide Print, PrintQuestions, StandsAt, HeaderOf, QuestionsEnd, RecordsAt;
    var first, second, third := LeadingMessageIsRead(data, m);
    RecordsSplit(data, first, |m.answers|, |m.authority|);
    SeenConcat(m.answers, m.authority);
    SignatureIsSeen(m.answers + m.authority);
    EchoIsSeen(m.additional);
  }

  /** Nothing is read of a message whose question section is cut off and whose three counts are 0. */
  predicate EmptyAndCutOff(data: Bytes) {
    CutOff(data) && var h := HeaderOf(data).value; h.ancount == 0 && h.nscount == 0 && h.arcount == 0
  }

  /**
   The exact language of the parser: a response is accepted with a verdict if and
   only if it begins with the print of a readable message that says so, or its
   question section is cut off and there is nothing behind it to read.
   */
  lemma AcceptedExactly(data: Bytes, answer: Answer)
    ensures AnswerOf(data) == Success(answer)
            <==> || (exists m :: LeadsWith(data, m) && VerdictOf(m) == answer)
                 || (EmptyAndCutOff(data) && answer == Answer(HeaderOf(data).value.AuthenticData(), false, false))
  {
    if AnswerOf(data) == Success(answer) {
      if CutOff(data) {
        NothingBehindTheEnd(data);
      } else {
        var m := AcceptedLeadsWith(data);
        hide AnswerOf, VerdictOf, LeadsWith, CutOff;
        LeadingVerdict(data, m);
      }
    }
    if m :| LeadsWith(data, m) && VerdictOf(m) == answer {
      hide AnswerOf, VerdictOf, LeadsWith, CutOff;
      LeadingVerdict(data, m);
    }
  }

  lemma NothingBehindTheEnd(data: Bytes)
    requires CutOff(data)
    ensures AnswerOf(data).Success? ==> EmptyAndCutOff(data)
  {
    var h := HeaderOf(data).value;
    var start := QuestionsEnd(data, 12, h.qdcount).value;
    hide HeaderOf, QuestionsEnd, RecordsAt;
    var front := RecordsAt(data, start, h.ancount + h.nscount);
    if front.Success? {
      RecordsAreBounded(data, start, h.ancount + h.nscount);
      if RecordsAt(data, front.value.1, h.arcount).Success? {
        RecordsAreBounded(data, front.value.1, h.arcount);
      }
    }
  }

  lemma AcceptedLeadsWith(data: Bytes) returns (m: Message)
    requires AnswerOf(data).Success? && !CutOff(data)
    ensures LeadsWith(data, m)
  {
    hide HeaderOf, QuestionsEnd, RecordsAt, Print, StandsAt, Readable;
    var h := HeaderOf(data).value;
    var first := QuestionsEnd(data, 12, h.qdcount).value;
    m := ReadMessageWasPrinted(data, h, first, RecordsAt(data, first, h.ancount + h.nscount).value.1);
  }

  /** A cut-off response stays an unknown here: no resolver that sends one settles the question. */
  lemma CutOffSettlesNothing(data: Bytes)
    requires CutOff(data)
    ensures !Settles(Some(data))
  {
    NothingBehindTheEnd(data);
    hide HeaderOf, QuestionsEnd;
  }

  // ----- accepted all the same

  /**
   Exactly which malformed responses are not refused: those whose questions are cut
   off with nothing counted behind them, those not marked as a response, those with
   an unsound name, and those that do not end with their last record.
   */
  lemma AcceptedThoughMalformedIff(data: Bytes)
    requires AnswerOf(data).Success?
    ensures Malformed(data) <==>
            || CutOff(data) || !HeaderOf(data).value.IsResponse()
            || !NamesSound(data) || BytesLeftOver(data)
  {
    MalformedIff(data);
    hide Malformed, NamesSound;
    if !CutOff(data) {
      AcceptedIsWhole(data);
    } else {
      assert NamesSound(data) ==> !CutOff(data) by { SoundIsNotCutOff(data); }
    }
  }

  lemma AcceptedIsWhole(data: Bytes)
    requires AnswerOf(data).Success? && !CutOff(data)
    ensures WholeRead(data).Success?
  {
    hide HeaderOf, QuestionsEnd, RecordsAt;
    var h := HeaderOf(data).value;
    RecordsSplit(data, QuestionsEnd(data, 12, h.qdcount).value, h.ancount + h.nscount, h.arcount);
  }

  lemma SoundIsNotCutOff(data: Bytes)
    ensures NamesSound(data) ==> !CutOff(data)
  {
    hide HeaderOf, QuestionsEnd, RecordsAt, QuestionsSound, RecordsSound;
  }

  /** Exactly which malformed responses decide the finding: a cut-off one is not among them. */
  lemma MalformedResponseSettlesIff(data: Bytes)
    requires Settles(Some(data))
    ensures Malformed(data) <==> !HeaderOf(data).value.IsResponse() || !NamesSound(data) || BytesLeftOver(data)
  {
    hide HeaderOf, QuestionsEnd, RecordsAt, Malformed, NamesSound, CutOff;
    AcceptedThoughMalformedIff(data);
    if CutOff(data) {
      CutOffSettlesNothing(data);
    }
  }

  /** A malformed response that becomes a finding: the scanner's own query sent back reads as an unsigned zone. */
  lemma EchoedQueryFailsTheCheck(hostname: string, queryId: nat) returns (data: Bytes)
    requires queryId < 0x1_0000 && NameOf(hostname).Success?
    ensures data == Print(QueryMessage(NameOf(hostname).value, TYPE_A, queryId, true)) && Malformed(data)
    ensures Settles(Some(data)) && AnswerOf(data) == Success(Answer(false, false, true))
  {
    hide Print, NameOf, Malformed, AnswerOf, VerdictOf;
    data := QueryIsNoResponse(hostname, TYPE_A, queryId, true);
    var m := QueryMessage(NameOf(hostname).value, TYPE_A, queryId, true);
    QueryParts(NameOf(hostname).value, TYPE_A, queryId, true);
    PrintedVerdict(m);
    QueryVerdict(m);
  }

  lemma QueryVerdict(m: Message)
    requires m.flagsLow == 0 && m.answers == [] && m.authority == [] && |m.additional| == 1
    requires m.additional[0].rtype == TYPE_OPT && m.additional[0].ttl == EDNS_DNSSEC_OK
    ensures VerdictOf(m) == Answer(false, false, true)
  {
    assert m.additional[0] in m.additional;
  }

  lemma SignatureIsSeen(rrs: seq<ResourceRecord>)
    ensures CarriesSignature(Seen(rrs)) <==> exists rr | rr in rrs :: rr.rtype == TYPE_RRSIG
  {
    SeenMembers(rrs);
    forall i | 0 <= i < |rrs| ensures rrs[i].Seen() in Seen(rrs) {
      assert Seen(rrs)[i] in Seen(rrs);
    }
  }

  lemma EchoIsSeen(rrs: seq<ResourceRecord>)
    ensures EchoesDo(Seen(rrs)) <==> exists rr | rr in rrs :: rr.rtype == TYPE_OPT && rr.ttl / EDNS_DNSSEC_OK % 2 == 1
  {
    SeenMembers(rrs);
    forall i | 0 <= i < |rrs| ensures rrs[i].Seen() in Seen(rrs) {
      assert Seen(rrs)[i] in Seen(rrs);
    }
  }

  lemma {:induction false} SeenConcat(a: seq<ResourceRecord>, b: seq<ResourceRecord>)
    ensures Seen(a + b) == Seen(a) + Seen(b)
  {
    if a == [] {
      assert a + b == b;
    } else {
      assert (a + b)[1..] == a[1..] + b;
      SeenConcat(a[1..], b);
    }
  }

  lemma {:induction false} SeenMembers(rrs: seq<ResourceRecord>)
    ensures forall i | 0 <= i < |rrs| :: Seen(rrs)[i] == rrs[i].Seen()
  {
    if rrs == [] {
    } else {
      SeenMembers(rrs[1..]);
    }
  }

  /** A response that settles the question: it parses, and its resolver echoed the DO bit. */
  predicate Settles(response: Option<Bytes>) {
    response.Some? && AnswerOf(response.value).Success? && AnswerOf(response.value).value.resolverAware
  }

  /**
   Ask the resolvers in order; `responses[i]` is what the i-th sent back, None
   when asking it failed. The first response that settles the question decides.
   */
  method CheckDnssec(isIpLiteral: bool, responses: seq<Option<Bytes>>) returns (passed: Option<bool>)
    ensures passed.None? <==> isIpLiteral || forall i | 0 <= i < |responses| :: !Settles(responses[i])
    ensures passed.Some? ==> exists i | 0 <= i < |responses| ::
              && Settles(responses[i]) && (forall j | 0 <= j < i :: !Settles(responses[j]))
              && var answer := AnswerOf(responses[i].value).value;
              && passed.value == (answer.validated || answer.signed)
  {
    if isIpLiteral {
      return None;
    }
    for i := 0 to |responses|
      invariant forall j | 0 <= j < i :: !Settles(responses[j])
    {
      if responses[i].None? {
        continue;
      }
      var answer := ParseDnssecResponse(responses[i].value);
      if answer.Failure? {
        continue;
      }
      if !answer.value.resolverAware {
        continue;
      }
      assert Settles(responses[i]);
      return Some(answer.value.validated || answer.value.signed);
    }
    return None;
  }

  /** A resolver that never echoes DO leaves the question open whatever else its answer says. */
  lemma UnawareResolverSettlesNothing(m: Message)
    requires Readable(m)
    requires forall rr | rr in m.additional :: rr.rtype != TYPE_OPT || rr.ttl / EDNS_DNSSEC_OK % 2 == 0
    ensures !Settles(Some(Print(m)))
  {
    hide Print, AnswerOf;
    PrintedVerdict(m);
  }
}
