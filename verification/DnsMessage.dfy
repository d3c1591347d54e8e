/**
  DNS messages on the wire (section 4.1 of RFC 1035): the bounds-checked walk over a whole message,
  the in-place ageing of its TTLs, and the cut that makes it fit a datagram.

  Main results: ageing changes nothing but the TTL fields of records other than OPT, leaves the walk
  of the message as it was, and is additive; a cut message is always walkable, holds no record and
  says that it was truncated.
 */
module DnsMessage {
  import opened Basics
  import opened Bytes

  const HEADER := 12
  const TYPE_OPT := 41

  // ---- the walk ----

  /** The offset behind the (possibly compressed) name at `offset`; -1 if it does not fit. */
  function SkipName(d: seq<Byte>, offset: nat): (next: int)
    ensures next == -1 || offset < next <= |d|
    decreases |d| - offset
  {
    if offset >= |d| then -1
    else if d[offset] == 0 then offset + 1
    else if d[offset] >= 0xC0 then (if offset + 2 > |d| then -1 else offset + 2)
    else if d[offset] >= 0x40 then -1
    else
      var next := SkipName(d, offset + 1 + d[offset] as int);
      next
  }

  /** The offset behind `n` questions; -1 if they do not fit. */
  function SkipQuestions(d: seq<Byte>, n: nat, offset: nat): (next: int)
    requires offset <= |d|
    ensures next == -1 || offset + 5 * n <= next <= |d|
    decreases |d| - offset
  {
    if n == 0 then offset
    else
      var name := SkipName(d, offset);
      if name < 0 || name + 4 > |d| then -1 else SkipQuestions(d, n - 1, name + 4)
  }

  /** A record as the walk remembers it: its type, its section and where its TTL field is. */
  datatype RecordRef = RecordRef(kind: nat, section: nat, ttlOffset: nat)

  datatype Counts = Counts(answers: nat, authorities: nat, additionals: nat)
  {
    function Total(): nat { answers + authorities + additionals }
    function SectionOf(i: nat): nat { if i < answers then 0 else if i < answers + authorities then 1 else 2 }
  }

  /** The fixed part of a record behind its name fits, and so does its data. */
  function RecordEnd(d: seq<Byte>, name: int): (end: int)
    requires name == -1 || 0 <= name <= |d|
    ensures end == -1 || name + 10 <= end <= |d|
  {
    if name < 0 || name + 10 > |d| || name + 10 + Read16(d, name + 8) > |d| then -1
    else name + 10 + Read16(d, name + 8)
  }

  /** Records `i` and following of a message, from `offset` on. */
  function Records(d: seq<Byte>, counts: Counts, i: nat, offset: nat): (refs: Option<seq<RecordRef>>)
    requires i <= counts.Total() && offset <= |d|
    decreases |d| - offset
  {
    if i == counts.Total() then Some([])
    else
      var name := SkipName(d, offset);
      var end := RecordEnd(d, name);
      if end < 0 then None
      else
        var rest := Records(d, counts, i + 1, end);
        if rest.None? then None
        else Some([RecordRef(Read16(d, name), counts.SectionOf(i), name + 4)] + rest.value)
  }

  datatype Walked = Bad | Good(questionEnd: nat, records: seq<RecordRef>)

  function CountsOf(d: seq<Byte>): Counts
    requires |d| >= HEADER
  {
    Counts(Read16(d, 6), Read16(d, 8), Read16(d, 10))
  }

  /** The walk, given the counts of the header. */
  function WalkCounted(d: seq<Byte>, questions: nat, counts: Counts): (w: Walked)
    requires |d| >= HEADER
  {
    if questions * 5 + counts.Total() * 11 > |d| then Bad
    else
      var questionEnd := SkipQuestions(d, questions, HEADER);
      if questionEnd < 0 then Bad
      else
        var refs := Records(d, counts, 0, questionEnd);
        if refs.None? then Bad else Good(questionEnd, refs.value)
  }

  function Walk(d: seq<Byte>): (w: Walked)
  {
    if |d| < HEADER then Bad else WalkCounted(d, Read16(d, 4), CountsOf(d))
  }

  /** The name scan as the program loops it. */
  method ScanName(d: seq<Byte>, start: nat) returns (next: int)
    ensures next == SkipName(d, start)
  {
    var offset := start;
    while true
      invariant SkipName(d, start) == SkipName(d, offset)
      decreases |d| - offset
    {
      if offset >= |d| { return -1; }
      var first := d[offset];
      if first == 0 { return offset + 1; }
      if first >= 0xC0 {
        if offset + 2 > |d| { return -1; }
        return offset + 2;
      }
      if first >= 0x40 { return -1; }
      offset := offset + 1 + first as int;
    }
  }

  method ScanQuestions(d: seq<Byte>, questions: nat) returns (questionEnd: int)
    requires |d| >= HEADER
    ensures questionEnd == SkipQuestions(d, questions, HEADER)
  {
    var offset: nat := HEADER;
    for index := 0 to questions
      invariant offset <= |d|
      invariant SkipQuestions(d, questions, HEADER) == SkipQuestions(d, questions - index, offset)
    {
      var name := ScanName(d, offset);
      if name < 0 || name + 4 > |d| { return -1; }
      offset := name + 4;
    }
    return offset;
  }

  /** What the whole list is, given the records found so far and the list of the remaining ones. */
  function Joined(found: seq<RecordRef>, rest: Option<seq<RecordRef>>): Option<seq<RecordRef>> {
    if rest.None? then None else Some(found + rest.value)
  }

  lemma {:induction false} JoinedStep(found: seq<RecordRef>, ref: RecordRef, rest: Option<seq<RecordRef>>)
    ensures Joined(found, if rest.None? then None else Some([ref] + rest.value)) == Joined(found + [ref], rest)
  {
    if rest.Some? { assert found + ([ref] + rest.value) == (found + [ref]) + rest.value; }
  }

  method ScanRecords(d: seq<Byte>, counts: Counts, questionEnd: nat) returns (refs: Option<seq<RecordRef>>)
    requires questionEnd <= |d|
    ensures refs == Records(d, counts, 0, questionEnd)
  {
    var records: seq<RecordRef> := [];
    var offset: nat := questionEnd;
    ghost var all := Records(d, counts, 0, questionEnd);
    assert all.Some? ==> [] + all.value == all.value;
    for i := 0 to counts.Total()
      invariant offset <= |d|
      invariant all == Joined(records, Records(d, counts, i, offset))
    {
      var name := ScanName(d, offset);
      if name < 0 || name + 10 > |d| { return None; }
      var ref := RecordRef(Read16(d, name), counts.SectionOf(i), name + 4);
      var end := name + 10 + Read16(d, name + 8);
      if end > |d| { return None; }
      JoinedStep(records, ref, Records(d, counts, i + 1, end));
      offset := end;
      records := records + [ref];
    }
    assert records + [] == records;
    return Some(records);
  }

  method WalkMessage(d: seq<Byte>) returns (w: Walked)
    ensures w == Walk(d)
  {
    if |d| < HEADER { return Bad; }
    var questions := Read16(d, 4);
    var counts := CountsOf(d);
    if questions * 5 + counts.Total() * 11 > |d| { return Bad; }
    var questionEnd := ScanQuestions(d, questions);
    if questionEnd < 0 { return Bad; }
    var refs := ScanRecords(d, counts, questionEnd);
    return if refs.None? then Bad else Good(questionEnd, refs.value);
  }

  // ---- what the walk depends on ----

  predicate Agree(d: seq<Byte>, e: seq<Byte>, from: nat, end: nat) {
    end <= |d| && end <= |e| && forall x :: from <= x < end ==> d[x] == e[x]
  }

  /** A name that was skipped is skipped the same way wherever its bytes are the same. */
  lemma {:induction false} SkipNameLocal(d: seq<Byte>, e: seq<Byte>, offset: nat)
    requires SkipName(d, offset) >= 0 && Agree(d, e, offset, SkipName(d, offset))
    ensures SkipName(e, offset) == SkipName(d, offset)
    decreases |d| - offset
  {
    if 0 < d[offset] < 0x40 { SkipNameLocal(d, e, offset + 1 + d[offset] as int); }
  }

  lemma {:induction false} SkipNameFromEqualTails(d: seq<Byte>, e: seq<Byte>, offset: nat)
    requires |d| == |e| && offset <= |d| && Agree(d, e, offset, |d|)
    ensures SkipName(e, offset) == SkipName(d, offset)
    decreases |d| - offset
  {
    if offset < |d| && 0 < d[offset] < 0x40 && offset + 1 + d[offset] as int <= |d| {
      SkipNameFromEqualTails(d, e, offset + 1 + d[offset] as int);
    }
  }

  lemma {:induction false} SkipQuestionsLocal(d: seq<Byte>, e: seq<Byte>, n: nat, offset: nat)
    requires offset <= |d| && SkipQuestions(d, n, offset) >= 0
    requires Agree(d, e, offset, SkipQuestions(d, n, offset))
    ensures offset <= |e| && SkipQuestions(e, n, offset) == SkipQuestions(d, n, offset)
    decreases n
  {
    if n > 0 {
      SkipNameLocal(d, e, offset);
      SkipQuestionsLocal(d, e, n - 1, SkipName(d, offset) + 4);
    }
  }

  lemma {:induction false} RecordsFromEqualTails(d: seq<Byte>, e: seq<Byte>, counts: Counts, i: nat, offset: nat)
    requires |d| == |e| && offset <= |d| && Agree(d, e, offset, |d|) && i <= counts.Total()
    ensures Records(e, counts, i, offset) == Records(d, counts, i, offset)
    decreases counts.Total() - i
  {
    if i < counts.Total() {
      SkipNameFromEqualTails(d, e, offset);
      var name := SkipName(d, offset);
      var end := RecordEnd(d, name);
      assert RecordEnd(e, name) == end;
      if end >= 0 { RecordsFromEqualTails(d, e, counts, i + 1, end); }
    }
  }

  // ---- where the TTL fields are ----

  /** The TTL fields lie in order, apart from each other, behind `from` and before the end. */
  ghost predicate Spaced(refs: seq<RecordRef>, from: nat, end: nat) {
    && (forall k :: 0 <= k < |refs| ==> from <= refs[k].ttlOffset && refs[k].ttlOffset + 6 <= end)
    && (forall j, k :: 0 <= j < k < |refs| ==> refs[j].ttlOffset + 6 <= refs[k].ttlOffset)
  }

  lemma {:induction false} RecordsAreSpaced(d: seq<Byte>, counts: Counts, i: nat, offset: nat)
    requires i <= counts.Total() && offset <= |d| && Records(d, counts, i, offset).Some?
    ensures Spaced(Records(d, counts, i, offset).value, offset, |d|)
    ensures |Records(d, counts, i, offset).value| == counts.Total() - i
    decreases counts.Total() - i
  {
    if i < counts.Total() {
      var name := SkipName(d, offset);
      RecordsAreSpaced(d, counts, i + 1, RecordEnd(d, name));
    }
  }

  // ---- writing one TTL ----

  function Write32(d: seq<Byte>, at: nat, v: nat): (e: seq<Byte>)
    requires at + 4 <= |d| && v < 0x1_0000_0000
    ensures |e| == |d|
  {
    var b := Put32(v);
    d[at := b[0]][at + 1 := b[1]][at + 2 := b[2]][at + 3 := b[3]]
  }

  lemma {:induction false} Write32Reads(d: seq<Byte>, at: nat, v: nat)
    requires at + 4 <= |d| && v < 0x1_0000_0000
    ensures Read32(Write32(d, at, v), at) == v
    ensures forall x :: 0 <= x < |d| && !(at <= x < at + 4) ==> Write32(d, at, v)[x] == d[x]
  {
    Read32OfPut32(v);
  }

  /** The two messages differ at most in the four bytes at `at`. */
  predicate SameBut(d: seq<Byte>, e: seq<Byte>, at: nat) {
    |e| == |d| && forall x :: 0 <= x < |d| && !(at <= x < at + 4) ==> e[x] == d[x]
  }

  lemma {:induction false} SameFirstRecord(d: seq<Byte>, e: seq<Byte>, offset: nat, at: nat)
    requires offset <= |d| && RecordEnd(d, SkipName(d, offset)) >= 0 && SameBut(d, e, at)
    requires at == SkipName(d, offset) + 4 || at >= RecordEnd(d, SkipName(d, offset))
    ensures SkipName(e, offset) == SkipName(d, offset)
    ensures RecordEnd(e, SkipName(d, offset)) == RecordEnd(d, SkipName(d, offset))
    ensures Read16(e, SkipName(d, offset)) == Read16(d, SkipName(d, offset))
  {
    SkipNameLocal(d, e, offset);
  }

  /** Changing the TTL of one of the walked records leaves every other part of the walk alone. */
  lemma {:induction false} RecordsAfterWrite(d: seq<Byte>, e: seq<Byte>, counts: Counts, i: nat, offset: nat, k: nat)
    requires i <= counts.Total() && offset <= |d| && Records(d, counts, i, offset).Some?
    requires k < |Records(d, counts, i, offset).value|
    requires SameBut(d, e, Records(d, counts, i, offset).value[k].ttlOffset)
    ensures Records(e, counts, i, offset) == Records(d, counts, i, offset)
    decreases counts.Total() - i
  {
    var end := RecordEnd(d, SkipName(d, offset));
    var refs := Records(d, counts, i, offset).value;
    var rest := Records(d, counts, i + 1, end).value;
    RecordsAreSpaced(d, counts, i + 1, end);
    assert k > 0 ==> refs[k] == rest[k - 1];
    SameFirstRecord(d, e, offset, refs[k].ttlOffset);
    if k == 0 {
      RecordsFromEqualTails(d, e, counts, i + 1, end);
    } else {
      RecordsAfterWrite(d, e, counts, i + 1, end, k - 1);
    }
  }

  lemma {:induction false} QuestionsAfterWrite(d: seq<Byte>, e: seq<Byte>, at: nat)
    requires |d| >= HEADER && SkipQuestions(d, Read16(d, 4), HEADER) >= 0
    requires SameBut(d, e, at) && SkipQuestions(d, Read16(d, 4), HEADER) <= at
    ensures Read16(e, 4) == Read16(d, 4) && CountsOf(e) == CountsOf(d)
    ensures SkipQuestions(e, Read16(d, 4), HEADER) == SkipQuestions(d, Read16(d, 4), HEADER)
  {
    SkipQuestionsLocal(d, e, Read16(d, 4), HEADER);
  }

  lemma {:induction false} WalkAfterWrite(d: seq<Byte>, e: seq<Byte>, k: nat)
    requires Walk(d).Good? && k < |Walk(d).records|
    requires SameBut(d, e, Walk(d).records[k].ttlOffset)
    ensures Walk(e) == Walk(d)
  {
    var w := Walk(d);
    RecordsAreSpaced(d, CountsOf(d), 0, w.questionEnd);
    QuestionsAfterWrite(d, e, w.records[k].ttlOffset);
    RecordsAfterWrite(d, e, CountsOf(d), 0, w.questionEnd, k);
  }

  // ---- ageing ----

  /** A TTL after `age` more seconds: never below 1 unless it was 0. */
  function AgedTtl(ttl: nat, age: nat): (aged: nat) {
    if ttl > age then ttl - age else if ttl > 0 then 1 else 0
  }

  function AgedRecord(d: seq<Byte>, ref: RecordRef, age: nat): (e: seq<Byte>)
    requires ref.ttlOffset + 4 <= |d|
    ensures |e| == |d|
  {
    if ref.kind == TYPE_OPT then d else Write32(d, ref.ttlOffset, AgedTtl(Read32(d, ref.ttlOffset), age))
  }

  function AgedRecords(d: seq<Byte>, refs: seq<RecordRef>, k: nat, age: nat): (e: seq<Byte>)
    requires k <= |refs| && forall j :: 0 <= j < |refs| ==> refs[j].ttlOffset + 4 <= |d|
    ensures |e| == |d|
    decreases |refs| - k
  {
    if k == |refs| then d else AgedRecords(AgedRecord(d, refs[k], age), refs, k + 1, age)
  }

  /** The message with every TTL but those of OPT records aged; a malformed message as it was. */
  function Aged(d: seq<Byte>, age: nat): (e: seq<Byte>)
    ensures |e| == |d|
  {
    match Walk(d)
    case Bad => d
    case Good(questionEnd, refs) =>
      RecordsAreSpaced(d, CountsOf(d), 0, questionEnd);
      AgedRecords(d, refs, 0, age)
  }

  method AgeRecord(message: array<Byte>, ref: RecordRef, age: nat)
    requires ref.ttlOffset + 4 <= message.Length
    modifies message
    ensures message[..] == AgedRecord(old(message[..]), ref, age)
  {
    if ref.kind == TYPE_OPT {
      return;
    }
    var at := ref.ttlOffset;
    var b := Put32(AgedTtl(Read32(message[..], at), age));
    message[at] := b[0];
    message[at + 1] := b[1];
    message[at + 2] := b[2];
    message[at + 3] := b[3];
  }

  method AgeTtls(message: array<Byte>, age: nat)
    modifies message
    ensures message[..] == Aged(old(message[..]), age)
  {
    ghost var d := message[..];
    var w := WalkMessage(message[..]);
    if w == Bad {
      return;
    }
    RecordsAreSpaced(d, CountsOf(d), 0, w.questionEnd);
    AgeRecords(message, w.records, age);
  }

  method AgeRecords(message: array<Byte>, refs: seq<RecordRef>, age: nat)
    requires forall j :: 0 <= j < |refs| ==> refs[j].ttlOffset + 4 <= message.Length
    modifies message
    ensures message[..] == AgedRecords(old(message[..]), refs, 0, age)
  {
    ghost var target := AgedRecords(message[..], refs, 0, age);
    for k := 0 to |refs|
      invariant AgedRecords(message[..], refs, k, age) == target
    {
      AgeRecord(message, refs[k], age);
    }
  }

  lemma {:induction false} WalkOfAgedRecords(d: seq<Byte>, original: Walked, k: nat, age: nat)
    requires original.Good? && Walk(d) == original && k <= |original.records|
    requires forall j :: 0 <= j < |original.records| ==> original.records[j].ttlOffset + 4 <= |d|
    ensures Walk(AgedRecords(d, original.records, k, age)) == original
    decreases |original.records| - k
  {
    if k < |original.records| {
      var ref := original.records[k];
      if ref.kind != TYPE_OPT {
        Write32Reads(d, ref.ttlOffset, AgedTtl(Read32(d, ref.ttlOffset), age));
        WalkAfterWrite(d, AgedRecord(d, ref, age), k);
      }
      WalkOfAgedRecords(AgedRecord(d, ref, age), original, k + 1, age);
    }
  }

  /** Ageing leaves the walk of the message identical. */
  lemma {:induction false} AgeingKeepsWalk(d: seq<Byte>, age: nat)
    ensures Walk(Aged(d, age)) == Walk(d)
  {
    if Walk(d).Good? {
      RecordsAreSpaced(d, CountsOf(d), 0, Walk(d).questionEnd);
      WalkOfAgedRecords(d, Walk(d), 0, age);
    }
  }

  /** What ageing does, field by field: each listed TTL aged, every other byte untouched. */
  ghost predicate AgedBy(d: seq<Byte>, e: seq<Byte>, refs: seq<RecordRef>, from: nat, age: nat)
    requires forall k :: 0 <= k < |refs| ==> refs[k].ttlOffset + 4 <= |d|
  {
    && |e| == |d|
    && (forall k :: from <= k < |refs| ==>
          TtlAfter(Read32(d, refs[k].ttlOffset), Read32(e, refs[k].ttlOffset), refs[k].kind == TYPE_OPT, age))
    && (forall x :: 0 <= x < |d| && !InTtl(refs, from, x) ==> e[x] == d[x])
  }

  /** The TTL of an OPT record stays; a zero stays zero; another loses `age` seconds, but keeps at least one. */
  predicate TtlAfter(before: nat, after: nat, opt: bool, age: nat) {
    if opt || before == 0 then after == before
    else after >= 1 && (before > age ==> after + age == before) && (before <= age ==> after == 1)
  }

  /** Byte `x` belongs to the TTL field of one of the records from `from` on. */
  ghost predicate InTtl(refs: seq<RecordRef>, from: nat, x: nat) {
    exists k :: from <= k < |refs| && refs[k].ttlOffset <= x < refs[k].ttlOffset + 4
  }

  lemma {:induction false} Read32Same(d: seq<Byte>, e: seq<Byte>, at: nat)
    requires at + 4 <= |d| == |e| && forall x :: at <= x < at + 4 ==> d[x] == e[x]
    ensures Read32(d, at) == Read32(e, at)
  {
  }

  /** What one record's ageing does. */
  lemma {:induction false} OneRecordAged(d: seq<Byte>, ref: RecordRef, age: nat)
    requires ref.ttlOffset + 4 <= |d|
    ensures var e := AgedRecord(d, ref, age);
      && SameBut(d, e, ref.ttlOffset)
      && TtlAfter(Read32(d, ref.ttlOffset), Read32(e, ref.ttlOffset), ref.kind == TYPE_OPT, age)
  {
    if ref.kind != TYPE_OPT { Write32Reads(d, ref.ttlOffset, AgedTtl(Read32(d, ref.ttlOffset), age)); }
  }

  /** The TTL of a record behind the one at `from` is what the ageing of the rest makes of it. */
  lemma {:induction false} LaterTtl(
    d: seq<Byte>, e: seq<Byte>, f: seq<Byte>, refs: seq<RecordRef>, from: nat, k: nat, age: nat)
    requires from < k < |refs| && Spaced(refs, 0, |d|) && SameBut(d, e, refs[from].ttlOffset)
    requires AgedBy(e, f, refs, from + 1, age)
    ensures TtlAfter(Read32(d, refs[k].ttlOffset), Read32(f, refs[k].ttlOffset), refs[k].kind == TYPE_OPT, age)
  {
    Read32Same(d, e, refs[k].ttlOffset);
  }

  /** The TTL of the record at `from` is not touched by the ageing of the rest. */
  lemma {:induction false} EarlierTtl(e: seq<Byte>, f: seq<Byte>, refs: seq<RecordRef>, from: nat, age: nat)
    requires from < |refs| && Spaced(refs, 0, |e|) && AgedBy(e, f, refs, from + 1, age)
    ensures Read32(f, refs[from].ttlOffset) == Read32(e, refs[from].ttlOffset)
  {
    var at := refs[from].ttlOffset;
    forall x | at <= x < at + 4 ensures f[x] == e[x] { assert !InTtl(refs, from + 1, x); }
    Read32Same(e, f, at);
  }

  /** Ageing one record and then the ones behind it. */
  lemma {:induction false} AgedByStep(
    d: seq<Byte>, e: seq<Byte>, f: seq<Byte>, refs: seq<RecordRef>, from: nat, age: nat)
    requires from < |refs| && Spaced(refs, 0, |d|) && SameBut(d, e, refs[from].ttlOffset)
    requires TtlAfter(
      Read32(d, refs[from].ttlOffset), Read32(e, refs[from].ttlOffset), refs[from].kind == TYPE_OPT, age)
    requires AgedBy(e, f, refs, from + 1, age)
    ensures AgedBy(d, f, refs, from, age)
  {
    EarlierTtl(e, f, refs, from, age);
    forall k | from <= k < |refs|
      ensures TtlAfter(Read32(d, refs[k].ttlOffset), Read32(f, refs[k].ttlOffset), refs[k].kind == TYPE_OPT, age)
    {
      if k > from { LaterTtl(d, e, f, refs, from, k, age); }
    }
    forall x | 0 <= x < |d| && !InTtl(refs, from, x) ensures f[x] == d[x] {
      assert !InTtl(refs, from + 1, x);
    }
  }

  lemma {:induction false} AgedRecordsAreAged(d: seq<Byte>, refs: seq<RecordRef>, from: nat, age: nat)
    requires from <= |refs| && Spaced(refs, 0, |d|)
    ensures AgedBy(d, AgedRecords(d, refs, from, age), refs, from, age)
    decreases |refs| - from
  {
    if from < |refs| {
      var e := AgedRecord(d, refs[from], age);
      OneRecordAged(d, refs[from], age);
      AgedRecordsAreAged(e, refs, from + 1, age);
      AgedByStep(d, e, AgedRecords(e, refs, from + 1, age), refs, from, age);
    }
  }

  /** Ageing changes only the TTL bytes, and each of them as the rule says. */
  lemma {:induction false} AgeingChangesOnlyTtls(d: seq<Byte>, age: nat)
    requires Walk(d).Good?
    ensures Spaced(Walk(d).records, Walk(d).questionEnd, |d|)
    ensures AgedBy(d, Aged(d, age), Walk(d).records, 0, age)
  {
    RecordsAreSpaced(d, CountsOf(d), 0, Walk(d).questionEnd);
    AgedRecordsAreAged(d, Walk(d).records, 0, age);
  }

  lemma {:induction false} Read32Injective(d: seq<Byte>, e: seq<Byte>, at: nat, x: nat)
    requires at + 4 <= |d| == |e| && Read32(d, at) == Read32(e, at) && at <= x < at + 4
    ensures d[x] == e[x]
  {
    assert Read16(d, at) == Read16(e, at) && Read16(d, at + 2) == Read16(e, at + 2);
  }

  lemma {:induction false} AgedByIsUnique(d: seq<Byte>, e: seq<Byte>, f: seq<Byte>, refs: seq<RecordRef>, age: nat)
    requires forall k :: 0 <= k < |refs| ==> refs[k].ttlOffset + 4 <= |d|
    requires AgedBy(d, e, refs, 0, age) && AgedBy(d, f, refs, 0, age)
    ensures e == f
  {
    forall x | 0 <= x < |d| ensures e[x] == f[x] {
      if InTtl(refs, 0, x) {
        var k :| 0 <= k < |refs| && refs[k].ttlOffset <= x < refs[k].ttlOffset + 4;
        Read32Injective(e, f, refs[k].ttlOffset, x);
      }
    }
  }

  lemma {:induction false} TtlAfterAdds(x: nat, y: nat, z: nat, opt: bool, a: nat, b: nat)
    requires TtlAfter(x, y, opt, a) && TtlAfter(y, z, opt, b)
    ensures TtlAfter(x, z, opt, a + b)
  {
  }

  lemma {:induction false} AgedTwice(
    d: seq<Byte>, e: seq<Byte>, f: seq<Byte>, refs: seq<RecordRef>, a: nat, b: nat)
    requires forall k :: 0 <= k < |refs| ==> refs[k].ttlOffset + 4 <= |d|
    requires AgedBy(d, e, refs, 0, a) && AgedBy(e, f, refs, 0, b)
    ensures AgedBy(d, f, refs, 0, a + b)
  {
    forall k | 0 <= k < |refs|
      ensures TtlAfter(Read32(d, refs[k].ttlOffset), Read32(f, refs[k].ttlOffset), refs[k].kind == TYPE_OPT, a + b)
    {
      var at := refs[k].ttlOffset;
      TtlAfterAdds(Read32(d, at), Read32(e, at), Read32(f, at), refs[k].kind == TYPE_OPT, a, b);
    }
  }

  /** Ageing by `a` and then by `b` is ageing by `a + b`. */
  lemma {:induction false} AgeingIsAdditive(d: seq<Byte>, a: nat, b: nat)
    ensures Aged(Aged(d, a), b) == Aged(d, a + b)
  {
    if Walk(d).Good? {
      var refs, e := Walk(d).records, Aged(d, a);
      AgeingKeepsWalk(d, a);
      AgeingChangesOnlyTtls(d, a);
      AgeingChangesOnlyTtls(e, b);
      AgeingChangesOnlyTtls(d, a + b);
      AgedTwice(d, e, Aged(e, b), refs, a, b);
      AgedByIsUnique(d, Aged(e, b), Aged(d, a + b), refs, a + b);
    }
  }

  // ---- truncation ----

  /** The octet with bit 0x02 set. */
  function WithTruncationBit(b: Byte): (c: Byte)
  {
    if b % 4 >= 2 then b else b + 2
  }

  lemma {:induction false} TruncationBitOnly(b: Byte)
    ensures var c := WithTruncationBit(b);
      c / 2 % 2 == 1 && c / 4 == b / 4 && c % 2 == b % 2 && c / 128 == b / 128
  {
  }

  /** The first `keep` bytes with TC set and no records; without its questions when the message was malformed. */
  function CutHeader(d: seq<Byte>, keep: nat, dropQuestions: bool): (e: seq<Byte>)
    requires HEADER <= keep <= |d|
    ensures |e| == keep
  {
    var f := d[..keep][2 := WithTruncationBit(d[2])];
    var g := if dropQuestions then f[4 := 0][5 := 0] else f;
    g[6 := 0][7 := 0][8 := 0][9 := 0][10 := 0][11 := 0]
  }

  predicate TooLong(d: seq<Byte>, limit: nat) {
    |d| > limit && |d| >= HEADER
  }

  function Truncated(d: seq<Byte>, limit: nat): (e: seq<Byte>) {
    if !TooLong(d, limit) then d
    else
      match Walk(d)
      case Bad => CutHeader(d, HEADER, true)
      case Good(questionEnd, _) => CutHeader(d, questionEnd, false)
  }

  method TruncateForUdp(message: seq<Byte>, limit: nat) returns (out: seq<Byte>, truncated: bool)
    ensures out == Truncated(message, limit) && truncated == TooLong(message, limit)
  {
    out := message;
    if |message| <= limit || |message| < HEADER {
      return out, false;
    }
    var w := WalkMessage(message);
    out := message[..if w == Bad then HEADER else w.questionEnd];
    out := out[2 := WithTruncationBit(out[2])];
    if w == Bad {
      out := out[4 := 0][5 := 0];
    }
    out := out[6 := 0][7 := 0];
    out := out[8 := 0][9 := 0];
    out := out[10 := 0][11 := 0];
    truncated := true;
  }

  /** A cut message is walkable, empty of records, marked, and otherwise has the header it had. */
  lemma {:induction false} TruncationIsWalkable(d: seq<Byte>, limit: nat)
    requires TooLong(d, limit)
    ensures var e := Truncated(d, limit);
      && Walk(e) == Good(if Walk(d).Good? then Walk(d).questionEnd else HEADER, [])
      && e[2] / 2 % 2 == 1 && e[0] == d[0] && e[1] == d[1] && e[2] / 128 == d[2] / 128 && e[3] == d[3]
  {
    var w := Walk(d);
    var keep := if w.Good? then w.questionEnd else HEADER;
    TruncationBitOnly(d[2]);
    CutHeaderBytes(d, keep, w == Bad);
    CutHeaderCounts(d, keep, w == Bad);
    CutQuestions(d, CutHeader(d, keep, w == Bad), keep, w == Bad);
    WalkWithoutRecords(CutHeader(d, keep, w == Bad), keep);
  }

  /** What the cut leaves of the header, but for the record counts. */
  predicate Cut(d: seq<Byte>, e: seq<Byte>, keep: nat, dropQuestions: bool)
    requires HEADER <= keep <= |d|
  {
    && |e| == keep
    && Read16(e, 4) == (if dropQuestions then 0 else Read16(d, 4))
    && e[0] == d[0] && e[1] == d[1] && e[3] == d[3] && e[2] == WithTruncationBit(d[2])
    && Agree(d, e, HEADER, keep)
  }

  lemma {:induction false} CutHeaderBytes(d: seq<Byte>, keep: nat, dropQuestions: bool)
    requires HEADER <= keep <= |d|
    ensures Cut(d, CutHeader(d, keep, dropQuestions), keep, dropQuestions)
  {
  }

  lemma {:induction false} CutHeaderCounts(d: seq<Byte>, keep: nat, dropQuestions: bool)
    requires HEADER <= keep <= |d|
    ensures CountsOf(CutHeader(d, keep, dropQuestions)).Total() == 0
  {
  }

  lemma {:induction false} CutQuestions(d: seq<Byte>, e: seq<Byte>, keep: nat, dropQuestions: bool)
    requires HEADER <= keep <= |d| && Cut(d, e, keep, dropQuestions)
    requires if dropQuestions then keep == HEADER else SkipQuestions(d, Read16(d, 4), HEADER) == keep
    ensures SkipQuestions(e, Read16(e, 4), HEADER) == keep
  {
    if !dropQuestions { SkipQuestionsLocal(d, e, Read16(d, 4), HEADER); }
  }

  lemma {:induction false} WalkWithoutRecords(e: seq<Byte>, questionEnd: nat)
    requires |e| >= HEADER && SkipQuestions(e, Read16(e, 4), HEADER) == questionEnd && CountsOf(e).Total() == 0
    ensures Walk(e) == Good(questionEnd, [])
  {
  }
}
