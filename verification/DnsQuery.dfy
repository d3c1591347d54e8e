/**
  Queries. A query is accepted only as one uncompressed IN question whose name is made of plain labels.

  Main results: the name and the type of an accepted query determine its question up to ASCII case, and
  the test "repeats the question" pins down where a response's question section ends.
 */
module DnsQuery {
  import opened Bytes
  import opened DnsMessage

  const TYPE_A := 1
  const TYPE_AAAA := 28
  const CLASS_INTERNET := 1
  const RCODE_FORM_ERR := 1
  const RCODE_SERV_FAIL := 2
  const RCODE_NOT_IMP := 4
  const MAX_NAME_LENGTH := 253
  const MAX_ANSWERS := 8
  const ADVERTISED_PAYLOAD := 1232

  datatype Query = Query(
    id: nat, kind: nat, recursionDesired: bool, opcode: nat, ednsPayload: nat, dnssecOk: bool,
    error: nat, name: string, question: seq<Byte>)

  predicate IsNameChar(b: Byte) {
    'a' as int <= b <= 'z' as int || '0' as int <= b <= '9' as int || b == '-' as int || b == '_' as int
  }

  // ---- the name of a question ----

  /** The label as text: lower-cased octets. */
  function LabelText(d: seq<Byte>, from: nat, length: nat): (s: string)
    requires from + length <= |d|
    ensures |s| == length
  {
    if length == 0 then "" else LabelText(d, from, length - 1) + [Lower(d[from + length - 1]) as char]
  }

  lemma {:induction false} LabelTextAt(d: seq<Byte>, from: nat, length: nat, i: nat)
    requires from + length <= |d| && i < length
    ensures LabelText(d, from, length)[i] == Lower(d[from + i]) as char
  {
    if i < length - 1 { LabelTextAt(d, from, length - 1, i); }
  }

  predicate LabelAllowed(d: seq<Byte>, from: nat, length: nat)
    requires from + length <= |d|
  {
    forall x :: from <= x < from + length ==> IsNameChar(Lower(d[x]))
  }

  /** What follows a label: nothing, or a dot and the other labels. */
  function Tail(rest: string): string {
    if |rest| == 0 then "" else "." + rest
  }

  /** The label at `offset` may extend a name of which `size` characters have been read. */
  predicate LabelFits(d: seq<Byte>, offset: nat, size: nat)
    requires offset < |d|
  {
    var length := d[offset] as int;
    && length < 64 && offset + 1 + length <= |d|
    && Grown(size, length) <= MAX_NAME_LENGTH
    && LabelAllowed(d, offset + 1, length)
  }

  /** The offset behind the name at `offset`, when `size` characters of it have been read before; -1 if refused. */
  function NameEnd(d: seq<Byte>, offset: nat, size: nat): (end: int)
    ensures end == -1 || offset < end <= |d|
    decreases |d| - offset
  {
    if offset >= |d| then -1
    else if d[offset] == 0 then offset + 1
    else if !LabelFits(d, offset, size) then -1
    else NameEnd(d, offset + 1 + d[offset] as int, Grown(size, d[offset] as int))
  }

  datatype Labels = End | Label(head: string, tail: Labels)

  /** The labels of an accepted name. */
  function NameLabels(d: seq<Byte>, offset: nat, size: nat): (labels: Labels)
    requires NameEnd(d, offset, size) >= 0
    decreases |d| - offset
  {
    if d[offset] == 0 then End
    else
      Label(LabelText(d, offset + 1, d[offset] as int),
            NameLabels(d, offset + 1 + d[offset] as int, Grown(size, d[offset] as int)))
  }

  /** The name as text: its labels with dots between them. */
  function Render(labels: Labels): (name: string) {
    match labels
    case End => ""
    case Label(head, tail) => Spelled(head, Render(tail))
  }

  /** The accepted name at `offset` as text. */
  function TextAt(d: seq<Byte>, offset: nat): (name: string)
    requires NameEnd(d, offset, 0) >= 0
  {
    Render(NameLabels(d, offset, 0))
  }

  /** A label and what follows it. */
  function Spelled(head: string, rest: string): (name: string)
    ensures |name| == |head| + |Tail(rest)|
  {
    if |head| == 0 then Tail(rest) else [head[0]] + Spelled(head[1..], rest)
  }

  lemma {:induction false} SpelledIsAppended(head: string, rest: string)
    ensures Spelled(head, rest) == head + Tail(rest)
  {
    if |head| > 0 {
      SpelledIsAppended(head[1..], rest);
      assert head == [head[0]] + head[1..];
    }
  }

  /** The size of a name with one more label, behind a dot unless it is the first. */
  function Grown(size: nat, length: nat): nat {
    (if size == 0 then 0 else size + 1) + length
  }

  /** The inner loop of the program: one label's characters, lower-cased and checked. */
  method ScanLabel(d: seq<Byte>, from: nat, length: nat) returns (allowed: bool, text: string)
    requires from + length <= |d|
    ensures allowed == LabelAllowed(d, from, length)
    ensures allowed ==> text == LabelText(d, from, length)
  {
    text := "";
    for index := 0 to length
      invariant text == LabelText(d, from, index)
      invariant forall x :: from <= x < from + index ==> IsNameChar(Lower(d[x]))
    {
      var c := Lower(d[from + index]);
      if !IsNameChar(c) { return false, text; }
      text := text + [c as char];
    }
    return true, text;
  }

  /** The whole name, given what has been read of it and what is still ahead. */
  function Continued(name: string, rest: string): string {
    if |name| == 0 then rest else name + Tail(rest)
  }

  ghost predicate Whole(text: string, name: string, ahead: Labels) {
    text == Continued(name, Render(ahead))
  }

  lemma {:induction false} WholeStep(text: string, name: string, head: string, tail: Labels)
    requires |head| > 0 && Whole(text, name, Label(head, tail))
    ensures Whole(text, (if |name| == 0 then name else name + ".") + head, tail)
  {
    var rest := Tail(Render(tail));
    SpelledIsAppended(head, Render(tail));
    assert |name| > 0 ==> name + ("." + (head + rest)) == (name + "." + head) + rest;
    assert |name| == 0 ==> name + head == head;
  }

  /** What the outer loop keeps: the end of the whole name, and its text if there is one. */
  ghost predicate Reading(d: seq<Byte>, start: nat, offset: nat, name: string) {
    && NameEnd(d, start, 0) == NameEnd(d, offset, |name|)
    && (NameEnd(d, start, 0) >= 0 ==> Whole(TextAt(d, start), name, NameLabels(d, offset, |name|)))
  }

  lemma {:induction false} ReadingStep(d: seq<Byte>, start: nat, offset: nat, name: string, text: string)
    requires Reading(d, start, offset, name) && offset < |d| && d[offset] != 0 && LabelFits(d, offset, |name|)
    requires text == LabelText(d, offset + 1, d[offset] as int)
    ensures Reading(d, start, offset + 1 + d[offset] as int, (if |name| == 0 then name else name + ".") + text)
  {
    var n := d[offset] as int;
    if NameEnd(d, start, 0) >= 0 {
      WholeStep(TextAt(d, start), name, text, NameLabels(d, offset + 1 + n, Grown(|name|, n)));
    }
  }

  /** The outer loop of the program. */
  method ScanLabels(d: seq<Byte>, start: nat) returns (end: int, name: string)
    ensures end == NameEnd(d, start, 0)
    ensures end >= 0 ==> name == TextAt(d, start)
  {
    var offset: nat := start;
    name := "";
    while true
      invariant Reading(d, start, offset, name)
      decreases |d| - offset
    {
      if offset >= |d| { return -1, name; }
      var length := d[offset] as int;
      if length == 0 {
        assert name + "" == name;
        return offset + 1, name;
      }
      if length >= 64 || offset + 1 + length > |d| { return -1, name; }
      var dotted := if |name| == 0 then name else name + ".";
      if |dotted| + length > MAX_NAME_LENGTH { return -1, name; }
      var allowed, text := ScanLabel(d, offset + 1, length);
      if !allowed { return -1, name; }
      ReadingStep(d, start, offset, name, text);
      offset, name := offset + 1 + length, dotted + text;
    }
  }

  // ---- EDNS ----

  /** The OPT record in the additional section from record `n` back, if only root-named records precede it. */
  function FindEdns(d: seq<Byte>, offset: nat, n: nat, q: Query): Query
    decreases |d| - offset
  {
    if n == 0 || offset + 11 > |d| || d[offset] != 0 then q
    else
      var length := Read16(d, offset + 9);
      if offset + 11 + length > |d| then q
      else if Read16(d, offset + 1) == TYPE_OPT then
        q.(ednsPayload := Read16(d, offset + 3), dnssecOk := d[offset + 7] >= 0x80)
      else FindEdns(d, offset + 11 + length, n - 1, q)
  }

  function WithEdns(d: seq<Byte>, offset: nat, q: Query): Query
    requires |d| >= HEADER
  {
    if Read16(d, 6) != 0 || Read16(d, 8) != 0 then q else FindEdns(d, offset, Read16(d, 10), q)
  }

  method ParseEdns(d: seq<Byte>, start: nat, q: Query) returns (out: Query)
    requires |d| >= HEADER
    ensures out == WithEdns(d, start, q)
  {
    out := q;
    if Read16(d, 6) != 0 || Read16(d, 8) != 0 { return; }
    var offset: nat, count := start, Read16(d, 10);
    while count > 0
      invariant FindEdns(d, start, Read16(d, 10), q) == FindEdns(d, offset, count, q)
    {
      if offset + 11 > |d| || d[offset] != 0 { return; }
      var length := Read16(d, offset + 9);
      if offset + 11 + length > |d| { return; }
      if Read16(d, offset + 1) == TYPE_OPT {
        return q.(ednsPayload := Read16(d, offset + 3), dnssecOk := d[offset + 7] >= 0x80);
      }
      offset := offset + 11 + length;
      count := count - 1;
    }
  }

  // ---- the query ----

  const NO_QUERY := Query(0, 0, false, 0, 0, false, 0, "", [])

  datatype ParsedQuery = ParsedQuery(ok: bool, query: Query)

  predicate IsResponse(d: seq<Byte>)
    requires |d| >= HEADER
  {
    d[2] >= 0x80
  }

  /** The header fields a reply repeats even when the rest is refused. */
  function HeaderFields(d: seq<Byte>): Query
    requires |d| >= HEADER
  {
    NO_QUERY.(id := Read16(d, 0), opcode := d[2] as int / 8 % 16, recursionDesired := d[2] % 2 == 1)
  }

  /** The query whose name has been read. */
  function QuestionFields(d: seq<Byte>, end: nat, name: string): Query
    requires HEADER < end && end + 4 <= |d|
  {
    HeaderFields(d).(kind := Read16(d, end), name := name, question := d[HEADER..end + 4])
  }

  function Parse(d: seq<Byte>): (r: ParsedQuery)
  {
    if |d| < HEADER || IsResponse(d) then ParsedQuery(false, NO_QUERY)
    else
      var head := HeaderFields(d);
      var malformed := ParsedQuery(false, head.(error := RCODE_FORM_ERR));
      if head.opcode != 0 then ParsedQuery(false, head.(error := RCODE_NOT_IMP))
      else if Read16(d, 4) != 1 then malformed
      else
        var end := NameEnd(d, HEADER, 0);
        if end < 0 || end == HEADER + 1 || end + 4 > |d| then malformed
        else if Read16(d, end + 2) != CLASS_INTERNET then ParsedQuery(false, head.(error := RCODE_NOT_IMP))
        else ParsedQuery(true, WithEdns(d, end + 4, QuestionFields(d, end, TextAt(d, HEADER))))
  }

  method ParseQuery(d: seq<Byte>) returns (ok: bool, q: Query)
    ensures ParsedQuery(ok, q) == Parse(d)
  {
    q := NO_QUERY;
    if |d| < HEADER { return false, q; }
    if d[2] >= 0x80 { return false, q; }
    q := q.(id := Read16(d, 0), opcode := d[2] as int / 8 % 16, recursionDesired := d[2] % 2 == 1);
    if q.opcode != 0 { return false, q.(error := RCODE_NOT_IMP); }
    if Read16(d, 4) != 1 { return false, q.(error := RCODE_FORM_ERR); }
    var end, name := ScanLabels(d, HEADER);
    if end >= 0 { EmptyText(d, HEADER); }
    if end < 0 || |name| == 0 || end + 4 > |d| { return false, q.(error := RCODE_FORM_ERR); }
    if Read16(d, end + 2) != CLASS_INTERNET { return false, q.(error := RCODE_NOT_IMP); }
    q := q.(kind := Read16(d, end), name := name, question := d[HEADER..end + 4]);
    q := ParseEdns(d, end + 4, q);
    ok := true;
  }

  // ---- facts about an accepted query ----

  /** Equal but for what EDNS says. */
  predicate SameQuestion(p: Query, q: Query) {
    && p.id == q.id && p.kind == q.kind && p.recursionDesired == q.recursionDesired && p.opcode == q.opcode
    && p.error == q.error && p.name == q.name && p.question == q.question
  }

  lemma {:induction false} EdnsKeepsQuestion(d: seq<Byte>, offset: nat, n: nat, q: Query)
    ensures SameQuestion(FindEdns(d, offset, n, q), q)
    decreases n
  {
    if n > 0 && offset + 11 <= |d| && offset + 11 + Read16(d, offset + 9) <= |d| {
      EdnsKeepsQuestion(d, offset + 11 + Read16(d, offset + 9), n - 1, q);
    }
  }

  /** A parsed name is skipped by the walk. */
  lemma {:induction false} NameIsSkipped(d: seq<Byte>, offset: nat, size: nat)
    requires NameEnd(d, offset, size) >= 0
    ensures SkipName(d, offset) == NameEnd(d, offset, size)
    decreases |d| - offset
  {
    var length := d[offset] as int;
    if length != 0 { NameIsSkipped(d, offset + 1 + length, Grown(size, length)); }
  }

  /** Labels are not empty and hold no dot. */
  predicate Plain(labels: Labels) {
    labels.Label? ==> |labels.head| > 0 && '.' !in labels.head && Plain(labels.tail)
  }

  /** The bytes a name takes on the wire. */
  function WireSize(labels: Labels): nat {
    match labels
    case End => 1
    case Label(head, tail) => 1 + |head| + WireSize(tail)
  }

  lemma {:induction false} LabelsFillName(d: seq<Byte>, offset: nat, size: nat)
    requires NameEnd(d, offset, size) >= 0
    ensures Plain(NameLabels(d, offset, size))
    ensures WireSize(NameLabels(d, offset, size)) == NameEnd(d, offset, size) - offset
    decreases |d| - offset
  {
    var length := d[offset] as int;
    if length != 0 {
      LabelHasNoDot(d, offset + 1, length);
      LabelsFillName(d, offset + 1 + length, Grown(size, length));
    }
  }

  /** A name takes two bytes more than its text. */
  lemma {:induction false} RenderSize(labels: Labels)
    requires Plain(labels)
    ensures |Render(labels)| == 0 <==> labels == End
    ensures WireSize(labels) == |Render(labels)| + (if labels == End then 1 else 2)
  {
    if labels.Label? { RenderSize(labels.tail); }
  }

  lemma {:induction false} NameIsShort(d: seq<Byte>, offset: nat, size: nat)
    requires NameEnd(d, offset, size) >= 0 && size <= MAX_NAME_LENGTH
    ensures NameEnd(d, offset, size) - offset <= MAX_NAME_LENGTH - size + (if size == 0 then 2 else 1)
    decreases |d| - offset
  {
    var length := d[offset] as int;
    if length != 0 { NameIsShort(d, offset + 1 + length, Grown(size, length)); }
  }

  lemma {:induction false} EmptyText(d: seq<Byte>, offset: nat)
    requires NameEnd(d, offset, 0) >= 0
    ensures |TextAt(d, offset)| == 0 <==> NameEnd(d, offset, 0) == offset + 1
  {
    LabelsFillName(d, offset, 0);
    RenderSize(NameLabels(d, offset, 0));
  }

  /** What every accepted query looks like: its header fields, and its question behind the header. */
  lemma {:induction false} AcceptedQuery(d: seq<Byte>)
    requires Parse(d).ok
    ensures var q := Parse(d).query;
      && |d| >= HEADER && !IsResponse(d) && q.id == Read16(d, 0) && q.opcode == 0 && q.error == 0
      && q.recursionDesired == (d[2] % 2 == 1)
    ensures var q, end := Parse(d).query, NameEnd(d, HEADER, 0);
      && HEADER + 1 < end && end + 4 <= |d| && |q.question| == end + 4 - HEADER
      && q.question == d[HEADER..end + 4]
      && q.kind == Read16(d, end) && Read16(d, end + 2) == CLASS_INTERNET
  {
    var end := NameEnd(d, HEADER, 0);
    EdnsKeepsQuestion(d, end + 4, Read16(d, 10), QuestionFields(d, end, TextAt(d, HEADER)));
  }

  lemma {:induction false} AcceptedName(d: seq<Byte>)
    requires Parse(d).ok
    ensures NameEnd(d, HEADER, 0) >= 0 && Parse(d).query.name == TextAt(d, HEADER)
  {
    var end := NameEnd(d, HEADER, 0);
    EdnsKeepsQuestion(d, end + 4, Read16(d, 10), QuestionFields(d, end, TextAt(d, HEADER)));
  }

  /** The question takes six bytes more than its name's text: the walk skips it as a whole. */
  lemma {:induction false} AcceptedQuestion(d: seq<Byte>)
    requires Parse(d).ok
    ensures var q := Parse(d).query;
      && 7 <= |q.question| == |q.name| + 6 <= 259 && HEADER + |q.question| <= |d|
      && q.question == d[HEADER..HEADER + |q.question|]
      && SkipName(d, HEADER) == HEADER + |q.question| - 4 == NameEnd(d, HEADER, 0)
  {
    AcceptedQuery(d);
    AcceptedName(d);
    NameIsSkipped(d, HEADER, 0);
    NameIsShort(d, HEADER, 0);
    LabelsFillName(d, HEADER, 0);
    RenderSize(NameLabels(d, HEADER, 0));
  }

  /** Where a label ends the text ends too, or a dot stands. */
  lemma {:induction false} AfterLabel(a: string, r: string)
    ensures var whole := a + Tail(r); |whole| == |a| || (|whole| > |a| && whole[|a|] == '.')
  {
  }

  lemma {:induction false} LabelNotShorter(a: string, r: string, b: string, t: string)
    requires '.' !in b && a + Tail(r) == b + Tail(t)
    ensures |a| >= |b|
  {
    AfterLabel(a, r);
    var whole := b + Tail(t);
    assert forall i :: 0 <= i < |b| ==> whole[i] == b[i];
  }

  /** Dot-free labels and what follows them are determined by the text of both. */
  lemma {:induction false} FirstLabelUnique(a: string, r: string, b: string, t: string)
    requires '.' !in a && '.' !in b && a + Tail(r) == b + Tail(t)
    ensures a == b && r == t
  {
    LabelNotShorter(a, r, b, t);
    LabelNotShorter(b, t, a, r);
    var whole := a + Tail(r);
    assert a == whole[..|a|] && b == whole[..|b|];
    assert Tail(r) == whole[|a|..] && Tail(t) == whole[|b|..];
    assert |r| > 0 ==> r == Tail(r)[1..];
    assert |t| > 0 ==> t == Tail(t)[1..];
  }

  lemma {:induction false} LabelHasNoDot(d: seq<Byte>, from: nat, length: nat)
    requires from + length <= |d| && LabelAllowed(d, from, length)
    ensures '.' !in LabelText(d, from, length)
  {
    forall i | 0 <= i < length ensures LabelText(d, from, length)[i] != '.' {
      LabelTextAt(d, from, length, i);
      assert IsNameChar(Lower(d[from + i]));
    }
  }

  lemma {:induction false} SameTextSameLabel(d: seq<Byte>, e: seq<Byte>, o: nat, n: nat)
    requires o + n <= |d| && o + n <= |e| && LabelText(d, o, n) == LabelText(e, o, n)
    ensures forall x :: o <= x < o + n ==> Lower(d[x]) == Lower(e[x])
  {
    forall x | o <= x < o + n ensures Lower(d[x]) == Lower(e[x]) {
      LabelTextAt(d, o, n, x - o);
      LabelTextAt(e, o, n, x - o);
    }
  }

  /** A name's text determines its labels. */
  lemma {:induction false} RenderInjective(l: Labels, m: Labels)
    requires Plain(l) && Plain(m) && Render(l) == Render(m)
    ensures l == m
  {
    RenderSize(l);
    RenderSize(m);
    if l.Label? {
      SpelledIsAppended(l.head, Render(l.tail));
      SpelledIsAppended(m.head, Render(m.tail));
      FirstLabelUnique(l.head, Render(l.tail), m.head, Render(m.tail));
      RenderInjective(l.tail, m.tail);
    }
  }

  /** Two parses that find the same labels have read the same bytes, up to ASCII case. */
  lemma {:induction false} SameNameSameBytes(d: seq<Byte>, e: seq<Byte>, o: nat, k: nat, m: nat)
    requires NameEnd(d, o, k) >= 0 && NameEnd(e, o, m) >= 0 && NameLabels(d, o, k) == NameLabels(e, o, m)
    ensures NameEnd(d, o, k) == NameEnd(e, o, m)
    ensures forall x :: o <= x < NameEnd(d, o, k) ==> Lower(d[x]) == Lower(e[x])
    decreases |d| - o
  {
    if d[o] != 0 {
      var n := d[o] as int;
      assert n == |NameLabels(d, o, k).head| == |NameLabels(e, o, m).head| == e[o] as int;
      SameTextSameLabel(d, e, o + 1, n);
      SameNameSameBytes(d, e, o + 1 + n, Grown(k, n), Grown(m, n));
    }
  }

  /** Two byte strings equal up to ASCII case. */
  predicate SameFolded(a: seq<Byte>, b: seq<Byte>) {
    |a| == |b| && forall i :: 0 <= i < |a| ==> Lower(a[i]) == Lower(b[i])
  }

  /** Accepted queries with one name and one type ask the same question, up to ASCII case. */
  lemma {:induction false} NameAndTypeDetermineQuestion(d: seq<Byte>, e: seq<Byte>)
    requires Parse(d).ok && Parse(e).ok
    requires Parse(d).query.name == Parse(e).query.name && Parse(d).query.kind == Parse(e).query.kind
    ensures SameFolded(Parse(d).query.question, Parse(e).query.question)
  {
    AcceptedQuery(d);
    AcceptedQuery(e);
    AcceptedName(d);
    AcceptedName(e);
    SameTextSameBytes(d, e, HEADER);
    QuestionsFolded(d, e, NameEnd(d, HEADER, 0), Parse(d).query.question, Parse(e).query.question);
  }

  lemma {:induction false} QuestionsFolded(d: seq<Byte>, e: seq<Byte>, end: nat, p: seq<Byte>, q: seq<Byte>)
    requires HEADER <= end && end + 4 <= |d| && end + 4 <= |e| && p == d[HEADER..end + 4] && q == e[HEADER..end + 4]
    requires forall x :: HEADER <= x < end ==> Lower(d[x]) == Lower(e[x])
    requires Read16(d, end) == Read16(e, end) && Read16(d, end + 2) == Read16(e, end + 2)
    ensures SameFolded(p, q)
  {
    SameQuestionBytes(d, e, end);
  }

  lemma {:induction false} SameTextSameBytes(d: seq<Byte>, e: seq<Byte>, o: nat)
    requires NameEnd(d, o, 0) >= 0 && NameEnd(e, o, 0) >= 0
    requires TextAt(d, o) == TextAt(e, o)
    ensures NameEnd(d, o, 0) == NameEnd(e, o, 0)
    ensures forall x :: o <= x < NameEnd(d, o, 0) ==> Lower(d[x]) == Lower(e[x])
  {
    LabelsFillName(d, o, 0);
    LabelsFillName(e, o, 0);
    RenderInjective(NameLabels(d, o, 0), NameLabels(e, o, 0));
    SameNameSameBytes(d, e, o, 0, 0);
  }

  lemma {:induction false} SameQuestionBytes(d: seq<Byte>, e: seq<Byte>, end: nat)
    requires HEADER <= end && end + 4 <= |d| && end + 4 <= |e|
    requires forall x :: HEADER <= x < end ==> Lower(d[x]) == Lower(e[x])
    requires Read16(d, end) == Read16(e, end) && Read16(d, end + 2) == Read16(e, end + 2)
    ensures SameFolded(d[HEADER..end + 4], e[HEADER..end + 4])
  {
    SameTail(d, e, end);
    FoldedSlices(d, e, HEADER, end + 4);
  }

  lemma {:induction false} SameTail(d: seq<Byte>, e: seq<Byte>, at: nat)
    requires at + 4 <= |d| && at + 4 <= |e|
    requires Read16(d, at) == Read16(e, at) && Read16(d, at + 2) == Read16(e, at + 2)
    ensures forall x :: at <= x < at + 4 ==> d[x] == e[x]
  {
    Read16Injective(d, e, at);
    Read16Injective(d, e, at + 2);
  }

  lemma {:induction false} FoldedSlices(d: seq<Byte>, e: seq<Byte>, from: nat, end: nat)
    requires from <= end <= |d| && end <= |e|
    requires forall x :: from <= x < end ==> Lower(d[x]) == Lower(e[x])
    ensures SameFolded(d[from..end], e[from..end])
  {
  }

  lemma {:induction false} Read16Injective(d: seq<Byte>, e: seq<Byte>, at: nat)
    requires at + 2 <= |d| && at + 2 <= |e| && Read16(d, at) == Read16(e, at)
    ensures d[at] == e[at] && d[at + 1] == e[at + 1]
  {
  }

  // ---- repeating the question ----

  /** The message carries one question, and its bytes are the query's up to ASCII case. */
  predicate EchoesQuestion(d: seq<Byte>, question: seq<Byte>) {
    && |d| >= HEADER + |question| && Read16(d, 4) == 1 && question != []
    && SameFolded(d[HEADER..HEADER + |question|], question)
  }

  method CheckEcho(d: seq<Byte>, question: seq<Byte>) returns (echoes: bool)
    ensures echoes == EchoesQuestion(d, question)
  {
    if |d| < HEADER + |question| || Read16(d, 4) != 1 || question == [] { return false; }
    for index := 0 to |question|
      invariant forall i :: 0 <= i < index ==> Lower(d[HEADER..HEADER + |question|][i]) == Lower(question[i])
    {
      if Lower(d[HEADER + index]) != Lower(question[index]) {
        assert Lower(d[HEADER..HEADER + |question|][index]) != Lower(question[index]);
        return false;
      }
    }
    return true;
  }

  /** A label length survives folding: only letters fold, and a length is below every letter. */
  lemma {:induction false} FoldKeepsLengths(a: Byte, b: Byte)
    requires Lower(a) == Lower(b) && a < 64
    ensures a == b
  {
  }

  lemma {:induction false} FoldedNameIsSkipped(d: seq<Byte>, e: seq<Byte>, offset: nat, size: nat)
    requires 0 <= NameEnd(d, offset, size) <= |e|
    requires forall x :: offset <= x < NameEnd(d, offset, size) ==> Lower(d[x]) == Lower(e[x])
    ensures SkipName(e, offset) == NameEnd(d, offset, size)
    decreases |d| - offset
  {
    FoldKeepsLengths(d[offset], e[offset]);
    var length := d[offset] as int;
    if length != 0 { FoldedNameIsSkipped(d, e, offset + 1 + length, Grown(size, length)); }
  }

  /** A walkable message that repeats an accepted question ends its question section exactly behind it. */
  lemma {:induction false} EchoPinsQuestionEnd(d: seq<Byte>, e: seq<Byte>)
    requires Parse(d).ok && Walk(e).Good? && EchoesQuestion(e, Parse(d).query.question)
    ensures Walk(e).questionEnd == HEADER + |Parse(d).query.question| <= 271
  {
    AcceptedQuestion(d);
    EchoedNameIsSkipped(d, e, Parse(d).query.question);
    OneQuestion(e, HEADER + |Parse(d).query.question| - 4);
  }

  lemma {:induction false} EchoedNameIsSkipped(d: seq<Byte>, e: seq<Byte>, question: seq<Byte>)
    requires 0 <= NameEnd(d, HEADER, 0) <= HEADER + |question| <= |d| && question == d[HEADER..HEADER + |question|]
    requires EchoesQuestion(e, question)
    ensures SkipName(e, HEADER) == NameEnd(d, HEADER, 0)
  {
    SlicesFolded(e, d, HEADER, HEADER + |question|);
    FoldedNameIsSkipped(d, e, HEADER, 0);
  }

  lemma {:induction false} SlicesFolded(d: seq<Byte>, e: seq<Byte>, from: nat, end: nat)
    requires from <= end <= |d| && end <= |e| && SameFolded(d[from..end], e[from..end])
    ensures forall x :: from <= x < end ==> Lower(d[x]) == Lower(e[x])
  {
    forall x | from <= x < end ensures Lower(d[x]) == Lower(e[x]) {
      assert d[from..end][x - from] == d[x] && e[from..end][x - from] == e[x];
    }
  }

  lemma {:induction false} OneQuestion(e: seq<Byte>, nameEnd: nat)
    requires HEADER < nameEnd && nameEnd + 4 <= |e| && SkipName(e, HEADER) == nameEnd
    ensures SkipQuestions(e, 1, HEADER) == nameEnd + 4
  {
    assert SkipQuestions(e, 0, nameEnd + 4) == nameEnd + 4;
  }
}
