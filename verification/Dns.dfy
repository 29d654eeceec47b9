/**
 The reader half of the DNS wire format: cursor-moving functions over an
 arbitrary byte string, and the loops of dns.py proved against them.
 Masks on a byte are written as arithmetic: `x & 0xC0 == 0xC0` is `x >= 0xC0`,
 `x & 0x02` is the second lowest binary digit, and so on.
 */
module Dns {
  import opened Wrappers

  type Byte = b: int | 0 <= b < 256
  type Bytes = seq<Byte>

  const IN_CLASS := 1
  const TYPE_A := 1
  const TYPE_OPT := 41
  const TYPE_RRSIG := 46
  const TYPE_CAA := 257
  const EDNS_PAYLOAD_SIZE := 1232
  const EDNS_DNSSEC_OK := 0x8000

  datatype Header = Header(flagsHigh: Byte, flagsLow: Byte,
                           qdcount: nat, ancount: nat, nscount: nat, arcount: nat)
  {
    predicate IsResponse() { flagsHigh >= 0x80 }

    predicate Truncated() { flagsHigh / 2 % 2 == 1 }

    predicate AuthenticData() { flagsLow / 32 % 2 == 1 }

    function Rcode(): nat { flagsLow % 16 }
  }

  datatype Record = Record(rtype: nat, ttl: nat, rdata: Bytes) {
    predicate DnssecOk() { rtype == TYPE_OPT && ttl / EDNS_DNSSEC_OK % 2 == 1 }
  }

  function U16(data: Bytes, at: nat): nat
    requires at + 2 <= |data|
  {
    var high: nat, low: nat := data[at], data[at + 1];
    high * 0x100 + low
  }

  function U32(data: Bytes, at: nat): nat
    requires at + 4 <= |data|
  {
    U16(data, at) * 0x1_0000 + U16(data, at + 2)
  }

  // ----- names

  /** Where the name starting at `offset` ends, whatever the bytes are. */
  function NameEnd(data: Bytes, offset: nat): (r: Result<nat>)
    ensures r.Success? ==> offset < |data| && offset < r.value <= |data| + 1
    decreases |data| - offset
  {
    if offset >= |data| then Failure
    else if data[offset] == 0 then Success(offset + 1)
    else if data[offset] >= 0xC0 then Success(offset + 2)
    else NameEnd(data, offset + 1 + data[offset])
  }

  method SkipName(data: Bytes, offset: nat) returns (end: Result<nat>)
    ensures end == NameEnd(data, offset)
    ensures end.Success? ==> offset < end.value <= |data| + 1
  {
    var cursor := offset;
    while true
      invariant offset <= cursor
      invariant NameEnd(data, cursor) == NameEnd(data, offset)
      decreases |data| - cursor
    {
      if cursor >= |data| {
        return Failure;
      }
      var length := data[cursor];
      if length == 0 {
        return Success(cursor + 1);
      }
      if length >= 0xC0 {
        return Success(cursor + 2);
      }
      cursor := cursor + 1 + length;
    }
  }

  // ----- header and questions

  function HeaderOf(data: Bytes): (r: Result<Header>)
    ensures r.Success? ==> |data| >= 12 && !r.value.Truncated() && r.value.Rcode() == 0
  {
    if |data| < 12 then Failure
    else
      var header := Header(data[2], data[3], U16(data, 4), U16(data, 6), U16(data, 8), U16(data, 10));
      if header.Truncated() || header.Rcode() != 0 then Failure else Success(header)
  }

  /** The cursor after `count` questions; it may already lie past the last byte. */
  function QuestionsEnd(data: Bytes, offset: nat, count: nat): (r: Result<nat>)
    ensures r.Success? ==> offset + 5 * count <= r.value && (count > 0 ==> r.value <= |data| + 5)
    decreases count
  {
    if count == 0 then Success(offset)
    else
      var name :- NameEnd(data, offset);
      QuestionsEnd(data, name + 4, count - 1)
  }

  method SkipQuestions(data: Bytes, header: Header) returns (end: Result<nat>)
    ensures end == QuestionsEnd(data, 12, header.qdcount)
  {
    var cursor := 12;
    for i := 0 to header.qdcount
      invariant QuestionsEnd(data, cursor, header.qdcount - i) == QuestionsEnd(data, 12, header.qdcount)
    {
      var name :- SkipName(data, cursor);
      cursor := name + 4;
    }
    return Success(cursor);
  }

  // ----- resource records

  function RecordAt(data: Bytes, offset: nat): (r: Result<(Record, nat)>)
    ensures r.Success? ==> offset + 11 <= r.value.1 <= |data|
  {
    var name :- NameEnd(data, offset);
    if name + 10 > |data| then Failure
    else
      var rdlength := U16(data, name + 8);
      var start := name + 10;
      if start + rdlength > |data| then Failure
      else Success((Record(U16(data, name), U32(data, name + 4), data[start..start + rdlength]),
                    start + rdlength))
  }

  function RecordsAt(data: Bytes, offset: nat, count: nat): (r: Result<(seq<Record>, nat)>)
    ensures r.Success? ==> |r.value.0| == count
    decreases count
  {
    if count == 0 then Success(([], offset))
    else
      var (record, next) :- RecordAt(data, offset);
      var (rest, end) :- RecordsAt(data, next, count - 1);
      Success(([record] + rest, end))
  }

  /** `first`, then `count` further records read from where it stopped. */
  function ThenRecords(data: Bytes, first: Result<(seq<Record>, nat)>, count: nat): Result<(seq<Record>, nat)> {
    var (records, next) :- first;
    var (rest, end) :- RecordsAt(data, next, count);
    Success((records + rest, end))
  }

  /** Reading m + n records is reading m, and then n from the returned offset. */
  lemma {:induction false} RecordsSplit(data: Bytes, offset: nat, m: nat, n: nat)
    ensures RecordsAt(data, offset, m + n) == ThenRecords(data, RecordsAt(data, offset, m), n)
    decreases m
  {
    hide RecordAt;
    if m == 0 {
      var rest := RecordsAt(data, offset, n);
      assert rest.Success? ==> [] + rest.value.0 == rest.value.0;
    } else {
      var record := RecordAt(data, offset);
      if record.Success? {
        var (head, next) := record.value;
        RecordsSplit(data, next, m - 1, n);
        var front := RecordsAt(data, next, m - 1);
        if front.Success? {
          var back := RecordsAt(data, front.value.1, n);
          if back.Success? {
            assert [head] + (front.value.0 + back.value.0) == ([head] + front.value.0) + back.value.0;
          }
        }
      }
    }
  }

  /** What the record at the cursor decides about a run of records read so far. */
  lemma NextRecordDecides(data: Bytes, offset: nat, read: nat, records: seq<Record>, cursor: nat, count: nat)
    requires read < count
    requires RecordsAt(data, offset, read) == Success((records, cursor))
    ensures match RecordAt(data, cursor)
            case Failure => RecordsAt(data, offset, count) == Failure
            case Success((record, next)) => RecordsAt(data, offset, read + 1) == Success((records + [record], next))
  {
    hide RecordAt;
    RecordsSplit(data, offset, read, count - read);
    RecordsSplit(data, offset, read, 1);
    var record := RecordAt(data, cursor);
    if record.Success? {
      assert RecordsAt(data, record.value.1, 0) == Success(([], record.value.1));
      assert [record.value.0] + [] == [record.value.0];
      assert RecordsAt(data, cursor, 1) == Success(([record.value.0], record.value.1));
    }
  }

  method ReadRecords(data: Bytes, offset: nat, count: nat) returns (r: Result<(seq<Record>, nat)>)
    ensures r == RecordsAt(data, offset, count)
  {
    hide NameEnd, U16, U32;
    var records: seq<Record> := [];
    var cursor := offset;
    for i := 0 to count
      invariant RecordsAt(data, offset, i) == Success((records, cursor))
    {
      NextRecordDecides(data, offset, i, records, cursor, count);
      var name :- SkipName(data, cursor);
      if name + 10 > |data| {
        return Failure;
      }
      var rtype := U16(data, name);
      var ttl := U32(data, name + 4);
      var rdlength := U16(data, name + 8);
      var start := name + 10;
      // A slice that runs past the end is short rather than an error.
      var rdata := data[start..if start + rdlength <= |data| then start + rdlength else |data|];
      if |rdata| != rdlength {
        return Failure;
      }
      records := records + [Record(rtype, ttl, rdata)];
      cursor := start + rdlength;
    }
    return Success((records, cursor));
  }

  /**
   Every record costs eleven bytes, so the sixteen-bit counts of a header can
   never make the reader produce more than one record per eleven bytes.
   */
  lemma {:induction false} RecordsAreBounded(data: Bytes, offset: nat, count: nat)
    requires RecordsAt(data, offset, count).Success?
    ensures var end := RecordsAt(data, offset, count).value.1;
            offset + 11 * count <= end && (count > 0 ==> end <= |data| && 11 * count <= |data| - offset)
    decreases count
  {
    if count > 0 {
      RecordsAreBounded(data, RecordAt(data, offset).value.1, count - 1);
    }
  }
}
