/**
  Answers the proxy writes itself: the question repeated, up to eight address records that point
  back at it, and an OPT record when the query had one; or, for what it cannot serve, a bare header.

  Main result: a hand-built answer is a walkable response with the query's identifier and question,
  carries exactly the first eight usable addresses with the given TTL, and has at most 506 bytes.
 */
module DnsAnswer {
  import opened Basics
  import opened Bytes
  import opened DnsMessage
  import opened DnsQuery
  import opened Collections

  /** An address text as the system's parser reads it: its octets, or nothing if it is not one. */
  type Address = Option<seq<Byte>>

  function AddressLength(kind: nat): (length: nat)
    ensures length <= 16
  {
    if kind == TYPE_A then 4 else if kind == TYPE_AAAA then 16 else 0
  }

  /** The parser yields octets of the right number for the family it was asked for. */
  predicate ParsedFor(kind: nat, addresses: seq<Address>) {
    forall i :: 0 <= i < |addresses| && addresses[i].Some? ==> |addresses[i].value| == AddressLength(kind)
  }

  /** The first `room` usable addresses from index `i` on. */
  function Usable(addresses: seq<Address>, i: nat, room: nat): (out: seq<seq<Byte>>)
    requires i <= |addresses|
    ensures |out| <= room
    decreases |addresses| - i
  {
    if i == |addresses| || room == 0 then []
    else if addresses[i].Some? then [addresses[i].value] + Usable(addresses, i + 1, room - 1)
    else Usable(addresses, i + 1, room)
  }

  predicate AllOfLength(addresses: seq<seq<Byte>>, length: nat) {
    forall address :: address in addresses ==> |address| == length
  }

  lemma {:induction false} UsableLength(kind: nat, addresses: seq<Address>, i: nat, room: nat)
    requires i <= |addresses| && ParsedFor(kind, addresses)
    ensures AllOfLength(Usable(addresses, i, room), AddressLength(kind))
    decreases |addresses| - i
  {
    if i < |addresses| && room > 0 {
      UsableLength(kind, addresses, i + 1, if addresses[i].Some? then room - 1 else room);
    }
  }

  function EffectiveRcode(failed: bool, rcode: nat): nat {
    if failed && rcode == 0 then RCODE_SERV_FAIL else rcode
  }

  /** The addresses an answer to `q` carries. */
  function Carried(q: Query, addresses: seq<Address>, failed: bool, rcode: nat): (out: seq<seq<Byte>>)
    ensures |out| <= MAX_ANSWERS
  {
    if EffectiveRcode(failed, rcode) == 0 && (q.kind == TYPE_A || q.kind == TYPE_AAAA)
    then Usable(addresses, 0, MAX_ANSWERS) else []
  }

  // ---- the bytes ----

  /** A response header: recursion available, no authority records. */
  function Header(id: nat, first: Byte, second: Byte, questions: nat, answers: nat, additionals: nat): (h: seq<Byte>)
    requires id < 0x1_0000 && questions < 0x1_0000 && answers < 0x1_0000 && additionals < 0x1_0000
    ensures |h| == HEADER
  {
    Put16(id) + [first, second] + Put16(questions) + Put16(answers) + Put16(0) + Put16(additionals)
  }

  lemma {:induction false} HeaderFieldsOf(
    id: nat, first: Byte, second: Byte, questions: nat, answers: nat, additionals: nat)
    requires id < 0x1_0000 && questions < 0x1_0000 && answers < 0x1_0000 && additionals < 0x1_0000
    ensures var h := Header(id, first, second, questions, answers, additionals);
      && Read16(h, 0) == id && h[2] == first && h[3] == second
      && Read16(h, 4) == questions && Read16(h, 6) == answers && Read16(h, 8) == 0 && Read16(h, 10) == additionals
  {
  }

  /** One address record, named by a pointer to the question's name. */
  function AddressRecord(kind: nat, ttl: nat, address: seq<Byte>): (r: seq<Byte>)
    requires kind < 0x1_0000 && ttl < 0x1_0000_0000 && |address| < 0x1_0000
    ensures |r| == 12 + |address|
  {
    [0xC0, 0x0C] + Put16(kind) + Put16(CLASS_INTERNET) + Put32(ttl) + Put16(|address|) + address
  }

  function AddressRecords(kind: nat, ttl: nat, addresses: seq<seq<Byte>>, k: nat): (r: seq<Byte>)
    requires kind < 0x1_0000 && ttl < 0x1_0000_0000 && k <= |addresses|
    requires AllOfLength(addresses, AddressLength(kind))
    ensures |r| == (|addresses| - k) * (12 + AddressLength(kind))
    decreases |addresses| - k
  {
    if k == |addresses| then []
    else AddressRecord(kind, ttl, addresses[k]) + AddressRecords(kind, ttl, addresses, k + 1)
  }

  const OPT_RECORD: seq<Byte> :=
    [0, 0, TYPE_OPT, ADVERTISED_PAYLOAD / 256, ADVERTISED_PAYLOAD % 256, 0, 0, 0, 0, 0, 0]

  function OptRecord(q: Query): seq<Byte> {
    if q.ednsPayload != 0 then OPT_RECORD else []
  }

  /** What a query's answer may be built from. */
  predicate Fits(q: Query, addresses: seq<Address>, ttl: nat) {
    q.id < 0x1_0000 && q.kind < 0x1_0000 && ttl < 0x1_0000_0000 && ParsedFor(q.kind, addresses)
  }

  function AnswerHeader(q: Query, answers: nat, rcode: nat): (h: seq<Byte>)
    requires q.id < 0x1_0000 && answers < 0x1_0000
    ensures |h| == HEADER
  {
    Header(q.id, if q.recursionDesired then 0x81 else 0x80, 0x80 + rcode % 16, 1, answers,
           if q.ednsPayload != 0 then 1 else 0)
  }

  function Answer(q: Query, addresses: seq<Address>, ttl: nat, failed: bool, rcode: nat): (d: seq<Byte>)
    requires Fits(q, addresses, ttl)
  {
    UsableLength(q.kind, addresses, 0, MAX_ANSWERS);
    var carried := Carried(q, addresses, failed, rcode);
    AnswerHeader(q, |carried|, EffectiveRcode(failed, rcode)) + q.question
    + (AddressRecords(q.kind, ttl, carried, 0) + OptRecord(q))
  }

  /** The same with the buffers and loops of the program. */
  method BuildResponse(q: Query, addresses: seq<Address>, ttl: nat, failed: bool, rcode: nat) returns (out: seq<Byte>)
    requires Fits(q, addresses, ttl)
    ensures out == Answer(q, addresses, ttl, failed, rcode)
  {
    var effective := if failed && rcode == 0 then RCODE_SERV_FAIL else rcode;
    var encoded: seq<seq<Byte>> := [];
    if effective == 0 && (q.kind == TYPE_A || q.kind == TYPE_AAAA) {
      encoded := CollectUsable(addresses);
    }
    UsableLength(q.kind, addresses, 0, MAX_ANSWERS);
    out := AnswerHeader(q, |encoded|, effective) + q.question;
    var records := AppendRecords(q.kind, ttl, encoded);
    out := out + (records + (if q.ednsPayload != 0 then OPT_RECORD else []));
  }

  method CollectUsable(addresses: seq<Address>) returns (encoded: seq<seq<Byte>>)
    ensures encoded == Usable(addresses, 0, MAX_ANSWERS)
  {
    encoded := [];
    ghost var all := Usable(addresses, 0, MAX_ANSWERS);
    for i := 0 to |addresses|
      invariant |encoded| < MAX_ANSWERS
      invariant all == encoded + Usable(addresses, i, MAX_ANSWERS - |encoded|)
    {
      if addresses[i].Some? {
        AppendAssoc(encoded, [addresses[i].value], Usable(addresses, i + 1, MAX_ANSWERS - |encoded| - 1));
        encoded := encoded + [addresses[i].value];
        if |encoded| >= MAX_ANSWERS { return; }
      }
    }
  }

  method AppendRecords(kind: nat, ttl: nat, addresses: seq<seq<Byte>>) returns (out: seq<Byte>)
    requires kind < 0x1_0000 && ttl < 0x1_0000_0000
    requires AllOfLength(addresses, AddressLength(kind))
    ensures out == AddressRecords(kind, ttl, addresses, 0)
  {
    out := [];
    ghost var all := AddressRecords(kind, ttl, addresses, 0);
    for k := 0 to |addresses|
      invariant all == out + AddressRecords(kind, ttl, addresses, k)
    {
      AppendAssoc(out, AddressRecord(kind, ttl, addresses[k]), AddressRecords(kind, ttl, addresses, k + 1));
      out := out + AddressRecord(kind, ttl, addresses[k]);
    }
  }

  // ---- the walk of a hand-built answer ----

  /** The record at `ref` is an address record with this TTL and this address. */
  predicate CarriesAddress(d: seq<Byte>, ref: RecordRef, kind: nat, ttl: nat, address: seq<Byte>) {
    && ref.kind == kind && ref.section == 0
    && ref.ttlOffset + 6 + |address| <= |d|
    && Read32(d, ref.ttlOffset) == ttl
    && d[ref.ttlOffset + 6..ref.ttlOffset + 6 + |address|] == address
  }

  lemma {:induction false} AddressRecordFields(kind: nat, ttl: nat, address: seq<Byte>)
    requires kind < 0x1_0000 && ttl < 0x1_0000_0000 && |address| < 0x1_0000
    ensures var r := AddressRecord(kind, ttl, address);
      && r[0] == 0xC0 && Read16(r, 2) == kind && Read32(r, 6) == ttl && Read16(r, 10) == |address|
      && r[12..] == address
  {
    Read32OfPut32(ttl);
    var r := AddressRecord(kind, ttl, address);
    assert r[6..10] == Put32(ttl);
    assert r[6] == Put32(ttl)[0] && r[7] == Put32(ttl)[1] && r[8] == Put32(ttl)[2] && r[9] == Put32(ttl)[3];
  }

  /** What a part of a message says, read in the whole. */
  lemma {:induction false} ReadInside(d: seq<Byte>, offset: nat, part: seq<Byte>, rest: seq<Byte>, at: nat)
    requires offset <= |d| && d[offset..] == part + rest && at + 2 <= |part|
    ensures offset + at + 2 <= |d| && d[offset + at] == part[at] && Read16(d, offset + at) == Read16(part, at)
  {
    assert |d| == offset + |part| + |rest|;
    assert d[offset..][at] == d[offset + at] && d[offset..][at + 1] == d[offset + at + 1];
  }

  lemma {:induction false} SkipPart(d: seq<Byte>, offset: nat, part: seq<Byte>, rest: seq<Byte>)
    requires offset <= |d| && d[offset..] == part + rest
    ensures offset + |part| <= |d| && d[offset + |part|..] == rest && d[offset..offset + |part|] == part
  {
    assert |d| == offset + |part| + |rest|;
    DropDrop(d, offset, |part|);
    assert d[offset..offset + |part|] == d[offset..][..|part|];
  }

  /** Where a message holds an address record, the walk reads it as one. */
  lemma {:induction false} OneAddressWalks(
    d: seq<Byte>, offset: nat, kind: nat, ttl: nat, address: seq<Byte>, rest: seq<Byte>)
    requires kind < 0x1_0000 && ttl < 0x1_0000_0000 && |address| < 0x1_0000
    requires offset <= |d| && d[offset..] == AddressRecord(kind, ttl, address) + rest
    ensures SkipName(d, offset) == offset + 2
    ensures RecordEnd(d, offset + 2) == offset + 12 + |address| <= |d|
    ensures CarriesAddress(d, RecordRef(Read16(d, offset + 2), 0, offset + 6), kind, ttl, address)
    ensures d[offset + 12 + |address|..] == rest
  {
    var r := AddressRecord(kind, ttl, address);
    AddressRecordFields(kind, ttl, address);
    ReadInside(d, offset, r, rest, 0);
    ReadInside(d, offset, r, rest, 2);
    ReadInside(d, offset, r, rest, 6);
    ReadInside(d, offset, r, rest, 8);
    ReadInside(d, offset, r, rest, 10);
    SkipPart(d, offset, r, rest);
    assert d[offset + 12..offset + 12 + |address|] == d[offset..offset + |r|][12..];
  }

  lemma {:induction false} OptWalks(d: seq<Byte>, offset: nat)
    requires offset <= |d| && d[offset..] == OPT_RECORD
    ensures |d| == offset + 11 && SkipName(d, offset) == offset + 1 && RecordEnd(d, offset + 1) == offset + 11
    ensures Read16(d, offset + 1) == TYPE_OPT
  {
    var o := d[offset..];
    assert |o| == 11;
    assert d[offset] == o[0] && d[offset + 1] == o[1] && d[offset + 2] == o[2];
    assert d[offset + 9] == o[9] && d[offset + 10] == o[10];
  }

  /** What the walk finds in the records of an answer. */
  ghost predicate Found(
    d: seq<Byte>, refs: seq<RecordRef>, k: nat, kind: nat, ttl: nat, addresses: seq<seq<Byte>>, opt: bool)
    requires k <= |addresses|
  {
    && |refs| == |addresses| - k + (if opt then 1 else 0)
    && (forall j :: k <= j < |addresses| ==> CarriesAddress(d, refs[j - k], kind, ttl, addresses[j]))
    && (opt ==> refs[|addresses| - k].kind == TYPE_OPT && refs[|addresses| - k].section == 2)
  }

  lemma {:induction false} AddressesWalk(
    d: seq<Byte>, offset: nat, kind: nat, ttl: nat, addresses: seq<seq<Byte>>, k: nat, opt: bool, counts: Counts)
    requires kind < 0x1_0000 && ttl < 0x1_0000_0000 && k <= |addresses|
    requires AllOfLength(addresses, AddressLength(kind))
    requires counts.answers == |addresses| && counts.authorities == 0 && counts.additionals == (if opt then 1 else 0)
    requires offset <= |d|
    requires d[offset..] == AddressRecords(kind, ttl, addresses, k) + (if opt then OPT_RECORD else [])
    ensures Records(d, counts, k, offset).Some?
    ensures Found(d, Records(d, counts, k, offset).value, k, kind, ttl, addresses, opt)
    decreases |addresses| - k
  {
    if k < |addresses| {
      var next := NextAddress(d, offset, kind, ttl, addresses, k, if opt then OPT_RECORD else []);
      AddressesWalk(d, next, kind, ttl, addresses, k + 1, opt, counts);
      OneMoreAddress(d, offset, next, kind, ttl, addresses, k, opt, counts);
    } else {
      NoMoreAddresses(d, offset, kind, ttl, addresses, opt, counts);
    }
  }

  lemma {:induction false} OneMoreAddress(
    d: seq<Byte>, offset: nat, next: nat, kind: nat, ttl: nat, addresses: seq<seq<Byte>>, k: nat, opt: bool,
    counts: Counts)
    requires k < |addresses| == counts.answers && offset < next <= |d|
    requires SkipName(d, offset) == offset + 2 && RecordEnd(d, offset + 2) == next
    requires CarriesAddress(d, RecordRef(Read16(d, offset + 2), 0, offset + 6), kind, ttl, addresses[k])
    requires Records(d, counts, k + 1, next).Some?
    requires Found(d, Records(d, counts, k + 1, next).value, k + 1, kind, ttl, addresses, opt)
    ensures Records(d, counts, k, offset).Some?
    ensures Found(d, Records(d, counts, k, offset).value, k, kind, ttl, addresses, opt)
  {
    RecordsStep(d, counts, k, offset, next);
    FoundStep(d, RecordRef(Read16(d, offset + 2), 0, offset + 6),
              Records(d, counts, k + 1, next).value, k, kind, ttl, addresses, opt);
  }

  lemma {:induction false} NoMoreAddresses(
    d: seq<Byte>, offset: nat, kind: nat, ttl: nat, addresses: seq<seq<Byte>>, opt: bool, counts: Counts)
    requires counts.answers == |addresses| && counts.authorities == 0 && counts.additionals == (if opt then 1 else 0)
    requires offset <= |d| && d[offset..] == [] + (if opt then OPT_RECORD else [])
    ensures Records(d, counts, |addresses|, offset).Some?
    ensures Found(d, Records(d, counts, |addresses|, offset).value, |addresses|, kind, ttl, addresses, opt)
  {
    if opt {
      assert d[offset..] == OPT_RECORD;
      LastRecord(d, offset, counts, |addresses|);
    }
  }

  lemma {:induction false} RecordsStep(d: seq<Byte>, counts: Counts, k: nat, offset: nat, next: nat)
    requires k < counts.answers && offset < next <= |d|
    requires SkipName(d, offset) == offset + 2 && RecordEnd(d, offset + 2) == next
    requires Records(d, counts, k + 1, next).Some?
    ensures Records(d, counts, k, offset) ==
      Some([RecordRef(Read16(d, offset + 2), 0, offset + 6)] + Records(d, counts, k + 1, next).value)
  {
  }

  lemma {:induction false} NextAddress(
    d: seq<Byte>, offset: nat, kind: nat, ttl: nat, addresses: seq<seq<Byte>>, k: nat, tail: seq<Byte>)
    returns (next: nat)
    requires kind < 0x1_0000 && ttl < 0x1_0000_0000 && k < |addresses|
    requires AllOfLength(addresses, AddressLength(kind))
    requires offset <= |d| && d[offset..] == AddressRecords(kind, ttl, addresses, k) + tail
    ensures offset < next <= |d| && d[next..] == AddressRecords(kind, ttl, addresses, k + 1) + tail
    ensures SkipName(d, offset) == offset + 2 && RecordEnd(d, offset + 2) == next
    ensures CarriesAddress(d, RecordRef(Read16(d, offset + 2), 0, offset + 6), kind, ttl, addresses[k])
  {
    var first, rest := AddressRecord(kind, ttl, addresses[k]), AddressRecords(kind, ttl, addresses, k + 1);
    AppendAssoc(first, rest, tail);
    OneAddressWalks(d, offset, kind, ttl, addresses[k], rest + tail);
    next := offset + 12 + |addresses[k]|;
  }

  lemma {:induction false} LastRecord(d: seq<Byte>, offset: nat, counts: Counts, k: nat)
    requires offset <= |d| && d[offset..] == OPT_RECORD
    requires k == counts.answers && counts.authorities == 0 && counts.additionals == 1
    ensures Records(d, counts, k, offset) == Some([RecordRef(TYPE_OPT, 2, offset + 5)])
  {
    OptWalks(d, offset);
    assert Records(d, counts, k + 1, offset + 11) == Some([]);
    assert counts.SectionOf(k) == 2;
    assert [RecordRef(TYPE_OPT, 2, offset + 5)] + [] == [RecordRef(TYPE_OPT, 2, offset + 5)];
  }

  lemma {:induction false} FoundStep(
    d: seq<Byte>, ref: RecordRef, refs: seq<RecordRef>, k: nat, kind: nat, ttl: nat, addresses: seq<seq<Byte>>,
    opt: bool)
    requires k < |addresses| && CarriesAddress(d, ref, kind, ttl, addresses[k])
    requires Found(d, refs, k + 1, kind, ttl, addresses, opt)
    ensures Found(d, [ref] + refs, k, kind, ttl, addresses, opt)
  {
    forall j | k <= j < |addresses| ensures CarriesAddress(d, ([ref] + refs)[j - k], kind, ttl, addresses[j]) {
      if j > k { assert ([ref] + refs)[j - k] == refs[j - (k + 1)]; }
    }
  }

  /** The bytes of an answer in front of its records. */
  lemma {:induction false} AnswerFront(q: Query, addresses: seq<Address>, ttl: nat, failed: bool, rcode: nat)
    requires Fits(q, addresses, ttl) && q.question != []
    ensures var d, n := Answer(q, addresses, ttl, failed, rcode), |Carried(q, addresses, failed, rcode)|;
      && |d| >= HEADER + |q.question| && Read16(d, 0) == q.id && IsResponse(d)
      && d[3] == 0x80 + EffectiveRcode(failed, rcode) % 16 && d[2] == (if q.recursionDesired then 0x81 else 0x80)
      && Read16(d, 4) == 1 && Read16(d, 6) == n && Read16(d, 8) == 0
      && Read16(d, 10) == (if q.ednsPayload != 0 then 1 else 0)
      && d[HEADER..HEADER + |q.question|] == q.question
  {
    var n := |Carried(q, addresses, failed, rcode)|;
    var h := AnswerHeader(q, n, EffectiveRcode(failed, rcode));
    HeaderFieldsOf(q.id, if q.recursionDesired then 0x81 else 0x80, 0x80 + EffectiveRcode(failed, rcode) % 16, 1, n,
                   if q.ednsPayload != 0 then 1 else 0);
    var d := Answer(q, addresses, ttl, failed, rcode);
    assert d[..HEADER] == h;
    assert forall i :: 0 <= i < HEADER ==> d[i] == h[i];
  }

  lemma {:induction false} AnswerBack(q: Query, addresses: seq<Address>, ttl: nat, failed: bool, rcode: nat)
    requires Fits(q, addresses, ttl)
    ensures var d, carried := Answer(q, addresses, ttl, failed, rcode), Carried(q, addresses, failed, rcode);
      && AllOfLength(carried, AddressLength(q.kind))
      && |d| == HEADER + |q.question| + |carried| * (12 + AddressLength(q.kind)) + |OptRecord(q)|
      && d[HEADER + |q.question|..] == AddressRecords(q.kind, ttl, carried, 0) + OptRecord(q)
  {
    UsableLength(q.kind, addresses, 0, MAX_ANSWERS);
  }

  /** A response laid out like an answer to `message` walks, and the walk finds its records. */
  lemma {:induction false} LaidOutAnswerWalks(
    message: seq<Byte>, d: seq<Byte>, question: seq<Byte>, kind: nat, ttl: nat, carried: seq<seq<Byte>>, opt: bool)
    requires NameEnd(message, HEADER, 0) == HEADER + |question| - 4 && 7 <= |question| <= 259
    requires HEADER + |question| <= |message| && question == message[HEADER..HEADER + |question|]
    requires EchoesQuestion(d, question) && kind < 0x1_0000 && ttl < 0x1_0000_0000
    requires CountsOf(d).answers == |carried| <= MAX_ANSWERS && CountsOf(d).authorities == 0
    requires CountsOf(d).additionals == (if opt then 1 else 0)
    requires AllOfLength(carried, AddressLength(kind))
    requires d[HEADER + |question|..] == AddressRecords(kind, ttl, carried, 0) + (if opt then OPT_RECORD else [])
    requires |d| == HEADER + |question| + |carried| * (12 + AddressLength(kind)) + (if opt then 11 else 0)
    ensures Walk(d).Good? && |d| <= 506
    ensures Found(d, Walk(d).records, 0, kind, ttl, carried, opt)
  {
    EchoedNameIsSkipped(message, d, question);
    OneQuestion(d, HEADER + |question| - 4);
    var counts := CountsOf(d);
    AddressesWalk(d, HEADER + |question|, kind, ttl, carried, 0, opt, counts);
    SizeBounds(|question|, |carried|, AddressLength(kind));
    assert counts.Total() == |carried| + (if opt then 1 else 0);
    WalkFrom(d, counts, HEADER + |question|);
  }

  lemma {:induction false} WalkFrom(d: seq<Byte>, counts: Counts, questionEnd: nat)
    requires |d| >= HEADER && counts == CountsOf(d) && Read16(d, 4) == 1 && 5 + counts.Total() * 11 <= |d|
    requires SkipQuestions(d, 1, HEADER) == questionEnd
    requires Records(d, counts, 0, questionEnd).Some?
    ensures Walk(d) == Good(questionEnd, Records(d, counts, 0, questionEnd).value)
  {
  }

  /** What the proxy's own answers are, whatever they are built from. */
  lemma {:induction false} BuiltAnswerIsSound(
    message: seq<Byte>, addresses: seq<Address>, ttl: nat, failed: bool, rcode: nat)
    requires Parse(message).ok && Fits(Parse(message).query, addresses, ttl)
    ensures var q := Parse(message).query;
      var d := Answer(q, addresses, ttl, failed, rcode);
      && Walk(d).Good? && HEADER < |d| <= 506
      && IsResponse(d) && Read16(d, 0) == q.id && EchoesQuestion(d, q.question)
      && Found(d, Walk(d).records, 0, q.kind, ttl, Carried(q, addresses, failed, rcode), q.ednsPayload != 0)
  {
    var q := Parse(message).query;
    var d := Answer(q, addresses, ttl, failed, rcode);
    var carried := Carried(q, addresses, failed, rcode);
    AcceptedQuestion(message);
    AnswerFront(q, addresses, ttl, failed, rcode);
    AnswerBack(q, addresses, ttl, failed, rcode);
    LaidOutAnswerWalks(message, d, q.question, q.kind, ttl, carried, q.ednsPayload != 0);
  }

  lemma {:induction false} SizeBounds(question: nat, n: nat, length: nat)
    requires 7 <= question <= 259 && n <= MAX_ANSWERS && length <= 16
    ensures 5 + n * 11 <= HEADER + question + n * (12 + length) <= 495
  {
    assert n * (12 + length) <= 8 * 28;
    assert n * 11 <= n * (12 + length);
  }

  // ---- errors ----

  function ErrorFlags(q: Query): (first: Byte)
    requires q.opcode < 16
  {
    0x80 + q.opcode * 8 + (if q.recursionDesired then 1 else 0)
  }

  /** A bare header: the query's identifier and operation, and the response code. */
  function ErrorReply(q: Query, rcode: nat): (d: seq<Byte>)
    requires q.id < 0x1_0000 && q.opcode < 16
    ensures |d| == HEADER
  {
    Header(q.id, ErrorFlags(q), 0x80 + rcode % 16, 0, 0, 0)
  }

  lemma {:induction false} ErrorReplyIsSound(q: Query, rcode: nat)
    requires q.id < 0x1_0000 && q.opcode < 16
    ensures var d := ErrorReply(q, rcode);
      && Walk(d) == Good(HEADER, []) && IsResponse(d) && Read16(d, 0) == q.id
      && d[2] as int / 8 % 16 == q.opcode && d[3] as int % 16 == rcode % 16
  {
    var d := ErrorReply(q, rcode);
    HeaderFieldsOf(q.id, ErrorFlags(q), 0x80 + rcode % 16, 0, 0, 0);
    OpcodeBits(q);
    RcodeBits(rcode);
    NoRecords(d);
    EmptyMessageWalks(d);
  }

  lemma {:induction false} OpcodeBits(q: Query)
    requires q.opcode < 16
    ensures ErrorFlags(q) as int / 8 % 16 == q.opcode && ErrorFlags(q) >= 0x80
  {
  }

  lemma {:induction false} RcodeBits(rcode: nat)
    ensures (0x80 + rcode % 16) % 16 == rcode % 16
  {
  }

  lemma {:induction false} NoRecords(d: seq<Byte>)
    requires |d| >= HEADER && Read16(d, 6) == 0 && Read16(d, 8) == 0 && Read16(d, 10) == 0
    ensures CountsOf(d).Total() == 0
  {
  }

  lemma {:induction false} EmptyMessageWalks(d: seq<Byte>)
    requires |d| >= HEADER && Read16(d, 4) == 0 && CountsOf(d).Total() == 0
    ensures Walk(d) == Good(HEADER, [])
  {
    NoQuestions(d);
    WalkWithoutRecords(d, HEADER);
  }

  lemma {:induction false} NoQuestions(d: seq<Byte>)
    requires |d| >= HEADER && Read16(d, 4) == 0
    ensures SkipQuestions(d, Read16(d, 4), HEADER) == HEADER
  {
  }
}
