/**
  What makes a datagram an accepted query, told by where its labels and records start.

  Main results, for every datagram: it is accepted if and only if it is a standard query with one IN question
  whose name is a chain of labels of letters, digits, hyphens and underscores that is not too long; its name
  is then those bytes in lower case with a dot for each inner length; a refused query is not implemented or
  malformed exactly as its first fault says; and the payload size and the DO bit are those of the first OPT
  record that complete root-named records lead to, or none.
 */
module QueryGrammar {
  import opened Bytes
  import opened DnsMessage
  import opened DnsQuery

  // ---- names ----

  /** A letter, a digit, a hyphen or an underscore. */
  predicate Allowed(b: Byte) {
    97 <= b <= 122 || 65 <= b <= 90 || 48 <= b <= 57 || b == 45 || b == 95
  }

  /** A label starts at `p` and the next one at `next`. */
  predicate LabelFrom(d: seq<Byte>, p: nat, next: nat) {
    p < next <= |d| && next == p + 1 + d[p] as int && 1 <= d[p] <= 63 && forall x :: p < x < next ==> Allowed(d[x])
  }

  /** The name at `offset`: where its labels start, and last where its zero byte is. */
  ghost predicate Chain(d: seq<Byte>, offset: nat, starts: seq<nat>) {
    && |starts| > 0 && starts[0] == offset
    && (forall i :: 0 <= i < |starts| - 1 ==> LabelFrom(d, starts[i], starts[i + 1]))
    && starts[|starts| - 1] < |d| && d[starts[|starts| - 1]] == 0
  }

  /** Its text, of which `size` characters have been read before, stays within 253 characters. */
  predicate ShortEnough(starts: seq<nat>, size: nat)
    requires |starts| > 0
  {
    var last := starts[|starts| - 1];
    |starts| == 1 || if size == 0 then last <= starts[0] + 254 else size + last <= starts[0] + 253
  }

  lemma {:induction false} AllowedIsNameChar(d: seq<Byte>, p: nat)
    requires p < |d| && p + 1 + d[p] as int <= |d|
    ensures LabelAllowed(d, p + 1, d[p] as int) <==> forall x :: p < x < p + 1 + d[p] as int ==> Allowed(d[x])
  {
    if LabelAllowed(d, p + 1, d[p] as int) {
      forall x | p < x < p + 1 + d[p] as int ensures Allowed(d[x]) { assert IsNameChar(Lower(d[x])); }
    }
  }

  /** What the parser reads as a name is a chain. */
  lemma {:induction false} NameIsChain(d: seq<Byte>, offset: nat, size: nat) returns (starts: seq<nat>)
    requires NameEnd(d, offset, size) >= 0
    ensures Chain(d, offset, starts) && ShortEnough(starts, size)
    ensures NameEnd(d, offset, size) == starts[|starts| - 1] + 1
    decreases |d| - offset
  {
    var length := d[offset] as int;
    if length == 0 {
      starts := [offset];
    } else {
      AllowedIsNameChar(d, offset);
      var rest := NameIsChain(d, offset + 1 + length, Grown(size, length));
      starts := [offset] + rest;
      ChainGrows(d, offset, rest);
    }
  }

  lemma {:induction false} ChainGrows(d: seq<Byte>, offset: nat, rest: seq<nat>)
    requires |rest| > 0 && Chain(d, rest[0], rest) && LabelFrom(d, offset, rest[0])
    ensures Chain(d, offset, [offset] + rest)
  {
    var starts := [offset] + rest;
    forall i | 0 <= i < |starts| - 1 ensures LabelFrom(d, starts[i], starts[i + 1]) {
      if i > 0 { assert LabelFrom(d, rest[i - 1], rest[i]); }
    }
  }

  lemma {:induction false} ChainAscends(d: seq<Byte>, starts: seq<nat>, i: nat)
    requires |starts| > 0 && i < |starts| && Chain(d, starts[0], starts)
    ensures starts[i] + (if i < |starts| - 1 then 2 else 0) <= starts[|starts| - 1] < |d|
    decreases |starts| - i
  {
    if i < |starts| - 1 {
      assert LabelFrom(d, starts[i], starts[i + 1]);
      ChainAscends(d, starts, i + 1);
    }
  }

  lemma {:induction false} ChainTail(d: seq<Byte>, starts: seq<nat>)
    requires |starts| > 1 && Chain(d, starts[0], starts)
    ensures Chain(d, starts[1], starts[1..])
  {
    forall i | 0 <= i < |starts[1..]| - 1 ensures LabelFrom(d, starts[1..][i], starts[1..][i + 1]) {
      assert LabelFrom(d, starts[i + 1], starts[i + 2]);
    }
  }

  /** A chain that is short enough is read as a name. */
  lemma {:induction false} ChainIsName(d: seq<Byte>, offset: nat, starts: seq<nat>, size: nat)
    requires Chain(d, offset, starts) && ShortEnough(starts, size)
    ensures NameEnd(d, offset, size) == starts[|starts| - 1] + 1
    decreases |starts|
  {
    if |starts| > 1 {
      assert LabelFrom(d, starts[0], starts[1]);
      AllowedIsNameChar(d, offset);
      ChainTail(d, starts);
      ChainAscends(d, starts, 1);
      ChainIsName(d, starts[1], starts[1..], Grown(size, d[offset] as int));
    }
  }

  /** There is only one chain at a place. */
  lemma {:induction false} ChainIsUnique(d: seq<Byte>, offset: nat, a: seq<nat>, b: seq<nat>)
    requires Chain(d, offset, a) && Chain(d, offset, b)
    ensures a == b
    decreases |a|
  {
    if |a| > 1 { assert LabelFrom(d, a[0], a[1]); }
    if |b| > 1 { assert LabelFrom(d, b[0], b[1]); }
    if |a| > 1 && |b| > 1 {
      ChainTail(d, a);
      ChainTail(d, b);
      ChainIsUnique(d, a[1], a[1..], b[1..]);
      assert a == [a[0]] + a[1..] && b == [b[0]] + b[1..];
    }
  }

  // ---- the text of a name ----

  /** The text of a chain: its bytes in lower case, with a dot where an inner label starts. */
  ghost predicate Spells(d: seq<Byte>, starts: seq<nat>, name: string)
    requires |starts| > 0
  {
    if |starts| == 1 then name == ""
    else
      && starts[0] + 1 + |name| == starts[|starts| - 1] <= |d|
      && forall j :: 0 <= j < |name| ==> Stands(d, starts, starts[0] + 1 + j, name[j])
  }

  /** The character for the byte at `x`. */
  predicate Stands(d: seq<Byte>, starts: seq<nat>, x: nat, c: char)
    requires x < |d|
  {
    c == if x in starts then '.' else Lower(d[x]) as char
  }

  lemma {:induction false} StartsAreSpread(d: seq<Byte>, starts: seq<nat>, x: nat)
    requires |starts| > 1 && Chain(d, starts[0], starts) && starts[0] < x < starts[1]
    ensures x !in starts && starts[1] in starts
  {
    forall i | 0 <= i < |starts| ensures starts[i] != x {
      if i > 1 { StartAscends(d, starts, 1, i); }
    }
  }

  lemma {:induction false} StartAscends(d: seq<Byte>, starts: seq<nat>, i: nat, j: nat)
    requires |starts| > 0 && i < j < |starts| && Chain(d, starts[0], starts)
    ensures starts[i] < starts[j]
    decreases j - i
  {
    assert LabelFrom(d, starts[i], starts[i + 1]);
    if i + 1 < j { StartAscends(d, starts, i + 1, j); }
  }

  lemma {:induction false} InTail(starts: seq<nat>, x: nat)
    requires |starts| > 0 && x != starts[0]
    ensures x in starts <==> x in starts[1..]
  {
    assert starts == [starts[0]] + starts[1..];
  }

  lemma {:induction false} LabelsSpell(d: seq<Byte>, starts: seq<nat>, size: nat)
    requires |starts| > 0 && Chain(d, starts[0], starts) && NameEnd(d, starts[0], size) >= 0
    ensures Spells(d, starts, Render(NameLabels(d, starts[0], size)))
    decreases |starts|
  {
    if |starts| > 1 {
      var offset := starts[0];
      assert LabelFrom(d, starts[0], starts[1]);
      var length := d[offset] as int;
      ChainTail(d, starts);
      LabelsSpell(d, starts[1..], Grown(size, length));
      var head, rest := LabelText(d, offset + 1, length), Render(NameLabels(d, starts[1], Grown(size, length)));
      SpelledIsAppended(head, rest);
      OneLabelSpells(d, starts, head, rest);
    }
  }

  lemma {:induction false} HeadStands(d: seq<Byte>, starts: seq<nat>, head: string, j: nat)
    requires |starts| > 1 && Chain(d, starts[0], starts) && LabelFrom(d, starts[0], starts[1])
    requires head == LabelText(d, starts[0] + 1, d[starts[0]] as int) && j < |head|
    ensures Stands(d, starts, starts[0] + 1 + j, head[j])
  {
    StartsAreSpread(d, starts, starts[0] + 1 + j);
    LabelTextAt(d, starts[0] + 1, |head|, j);
  }

  lemma {:induction false} RestStands(d: seq<Byte>, starts: seq<nat>, rest: string, j: nat)
    requires |starts| > 1 && starts[0] < starts[1] && Spells(d, starts[1..], rest) && j < |rest|
    ensures starts[1] + 1 + j < |d| && Stands(d, starts, starts[1] + 1 + j, rest[j])
  {
    assert Stands(d, starts[1..], starts[1] + 1 + j, rest[j]);
    InTail(starts, starts[1] + 1 + j);
  }

  /** An inner start has a dot, and only an inner start has. */
  lemma {:induction false} OneLabelSpells(d: seq<Byte>, starts: seq<nat>, head: string, rest: string)
    requires |starts| > 1 && Chain(d, starts[0], starts) && Spells(d, starts[1..], rest)
    requires LabelFrom(d, starts[0], starts[1]) && head == LabelText(d, starts[0] + 1, d[starts[0]] as int)
    ensures Spells(d, starts, head + Tail(rest))
  {
    var name := head + Tail(rest);
    ChainAscends(d, starts, 0);
    RestLength(d, starts, rest);
    forall j | 0 <= j < |name| ensures Stands(d, starts, starts[0] + 1 + j, name[j]) {
      OneStands(d, starts, head, rest, name, j);
    }
  }

  lemma {:induction false} OneStands(d: seq<Byte>, starts: seq<nat>, head: string, rest: string, name: string, j: nat)
    requires |starts| > 1 && Chain(d, starts[0], starts) && Spells(d, starts[1..], rest)
    requires LabelFrom(d, starts[0], starts[1]) && head == LabelText(d, starts[0] + 1, d[starts[0]] as int)
    requires name == head + Tail(rest) && j < |name| && starts[0] + 1 + j < |d|
    ensures Stands(d, starts, starts[0] + 1 + j, name[j])
  {
    if j < |head| {
      HeadStands(d, starts, head, j);
    } else if j == |head| {
      assert starts[1] in starts;
    } else {
      RestStands(d, starts, rest, j - |head| - 1);
    }
  }

  lemma {:induction false} RestLength(d: seq<Byte>, starts: seq<nat>, rest: string)
    requires |starts| > 1 && Chain(d, starts[0], starts) && Spells(d, starts[1..], rest)
    ensures starts[1] + |Tail(rest)| == starts[|starts| - 1]
  {
    if |starts| > 2 { ChainAscends(d, starts, 1); }
  }

  // ---- the query ----

  /** A query, not a response. */
  predicate Asks(d: seq<Byte>) {
    |d| >= 12 && d[2] < 128
  }

  predicate StandardQuery(d: seq<Byte>)
    requires |d| >= 12
  {
    d[2] as int / 8 % 16 == 0
  }

  /** Behind the header stands a name that is not the root's, and room for its type and class. */
  ghost predicate QuestionAt(d: seq<Byte>, starts: seq<nat>) {
    Chain(d, 12, starts) && |starts| > 1 && ShortEnough(starts, 0) && starts[|starts| - 1] + 5 <= |d|
  }

  /** The name of the one question. */
  ghost predicate AsksFor(d: seq<Byte>, starts: seq<nat>) {
    Asks(d) && StandardQuery(d) && Read16(d, 4) == 1 && QuestionAt(d, starts)
  }

  ghost predicate SomeQuestion(d: seq<Byte>) {
    exists starts :: QuestionAt(d, starts)
  }

  lemma {:induction false} QuestionExactly(d: seq<Byte>)
    requires |d| >= 12
    ensures SomeQuestion(d) <==>
      var end := NameEnd(d, HEADER, 0); end >= 0 && end != HEADER + 1 && end + 4 <= |d|
  {
    if NameEnd(d, HEADER, 0) >= 0 {
      var starts := NameIsChain(d, HEADER, 0);
      if |starts| > 1 {
        ChainAscends(d, starts, 0);
        if NameEnd(d, HEADER, 0) + 4 <= |d| { assert QuestionAt(d, starts); }
      }
      if other :| QuestionAt(d, other) { ChainIsUnique(d, HEADER, starts, other); }
    }
    if starts :| QuestionAt(d, starts) {
      ChainIsName(d, HEADER, starts, 0);
      ChainAscends(d, starts, 0);
    }
  }

  /** The end of the name the question asks for is where the parser finds it. */
  lemma {:induction false} QuestionEnd(d: seq<Byte>, starts: seq<nat>)
    requires QuestionAt(d, starts)
    ensures NameEnd(d, HEADER, 0) == starts[|starts| - 1] + 1 && starts[|starts| - 1] >= 14
  {
    ChainIsName(d, HEADER, starts, 0);
    ChainAscends(d, starts, 0);
  }

  lemma {:induction false} AcceptedAsks(d: seq<Byte>) returns (starts: seq<nat>)
    requires Parse(d).ok
    ensures AsksFor(d, starts) && Read16(d, starts[|starts| - 1] + 3) == 1
  {
    QuestionExactly(d);
    starts :| QuestionAt(d, starts);
    QuestionEnd(d, starts);
  }

  lemma {:induction false} AskedIsAccepted(d: seq<Byte>, starts: seq<nat>)
    requires AsksFor(d, starts) && Read16(d, starts[|starts| - 1] + 3) == 1
    ensures Parse(d).ok
  {
    QuestionEnd(d, starts);
  }

  /** Accepted if and only if it is a standard query with one IN question. */
  lemma {:induction false} AcceptedExactly(d: seq<Byte>)
    ensures Parse(d).ok <==> exists starts :: AsksFor(d, starts) && Read16(d, starts[|starts| - 1] + 3) == 1
  {
    if Parse(d).ok {
      var starts := AcceptedAsks(d);
    }
    if starts :| AsksFor(d, starts) && Read16(d, starts[|starts| - 1] + 3) == 1 {
      AskedIsAccepted(d, starts);
    }
  }

  /** The fields of an accepted query, in its bytes. */
  lemma {:induction false} AcceptedFields(d: seq<Byte>, starts: seq<nat>)
    requires AsksFor(d, starts) && Read16(d, starts[|starts| - 1] + 3) == 1
    ensures Parse(d).ok
    ensures var q, last := Parse(d).query, starts[|starts| - 1];
      && q.id == d[0] as int * 256 + d[1] as int && q.recursionDesired == (d[2] % 2 == 1)
      && q.kind == Read16(d, last + 1) && last > 12 && q.question == d[12..last + 5] && Spells(d, starts, q.name)
  {
    AskedIsAccepted(d, starts);
    QuestionEnd(d, starts);
    AcceptedQuery(d);
    AcceptedName(d);
    LabelsSpell(d, starts, 0);
  }

  /** A refused query is not implemented if its operation or its class is another; else it is malformed. */
  lemma {:induction false} RefusedExactly(d: seq<Byte>)
    requires !Parse(d).ok
    ensures !Asks(d) ==> Parse(d).query.error == 0
    ensures Asks(d) ==>
      var q := Parse(d).query;
      && q.id == d[0] as int * 256 + d[1] as int && q.recursionDesired == (d[2] % 2 == 1)
      && q.opcode == d[2] as int / 8 % 16
      && q.error == if !StandardQuery(d) || (Read16(d, 4) == 1 && SomeQuestion(d)) then 4 else 1
  {
    if Asks(d) { QuestionExactly(d); }
  }

  // ---- EDNS ----

  /** A complete record under the root name stands at `p` and ends at `next`; `opt` tells whether it is OPT. */
  predicate RootRecord(d: seq<Byte>, p: nat, next: nat, opt: bool) {
    p + 11 <= next <= |d| && d[p] == 0 && next == p + 11 + Read16(d, p + 9) && (Read16(d, p + 1) == 41 <==> opt)
  }

  /** At most `n` complete root-named records from `offset` on, of which only the last is of type OPT. */
  ghost predicate LeadsToOpt(d: seq<Byte>, offset: nat, n: nat, starts: seq<nat>) {
    && 2 <= |starts| <= n + 1 && starts[0] == offset
    && (forall i :: 0 <= i < |starts| - 1 ==> RootRecord(d, starts[i], starts[i + 1], i == |starts| - 2))
  }

  /** The scan finds what such records lead to. */
  lemma {:induction false} ScanFindsOpt(d: seq<Byte>, offset: nat, n: nat, q: Query, starts: seq<nat>)
    requires LeadsToOpt(d, offset, n, starts)
    ensures var opt := starts[|starts| - 2];
      && opt + 11 <= |d|
      && FindEdns(d, offset, n, q) == q.(ednsPayload := Read16(d, opt + 3), dnssecOk := d[opt + 7] >= 0x80)
    decreases |starts|
  {
    assert RootRecord(d, starts[0], starts[1], |starts| == 2);
    if |starts| > 2 {
      var rest := starts[1..];
      forall i | 0 <= i < |rest| - 1 ensures RootRecord(d, rest[i], rest[i + 1], i == |rest| - 2) {
        assert RootRecord(d, starts[i + 1], starts[i + 2], i + 1 == |starts| - 2);
      }
      ScanFindsOpt(d, starts[1], n - 1, q, rest);
    }
  }

  /** Where the scan finds anything, such records lead to it. */
  lemma {:induction false} ScanWasLed(d: seq<Byte>, offset: nat, n: nat, q: Query) returns (starts: seq<nat>)
    requires FindEdns(d, offset, n, q) != q
    ensures LeadsToOpt(d, offset, n, starts)
    decreases n
  {
    var next := offset + 11 + Read16(d, offset + 9);
    if Read16(d, offset + 1) == TYPE_OPT {
      starts := [offset, next];
    } else {
      var rest := ScanWasLed(d, next, n - 1, q);
      starts := [offset] + rest;
      forall i | 0 <= i < |starts| - 1 ensures RootRecord(d, starts[i], starts[i + 1], i == |starts| - 2) {
        if i > 0 { assert RootRecord(d, rest[i - 1], rest[i], i - 1 == |rest| - 2); }
      }
    }
  }

  /** The records behind the question, in a query that claims no answers and no authority. */
  ghost predicate OptAt(d: seq<Byte>, starts: seq<nat>)
    requires Parse(d).ok && |d| >= 12
  {
    Read16(d, 6) == 0 && Read16(d, 8) == 0
    && LeadsToOpt(d, 12 + |Parse(d).query.question|, Read16(d, 10), starts)
  }

  /** The query before its EDNS record is looked for. */
  function Plainly(d: seq<Byte>): Query
    requires Parse(d).ok && |d| >= HEADER && NameEnd(d, HEADER, 0) > HEADER && NameEnd(d, HEADER, 0) + 4 <= |d|
  {
    QuestionFields(d, NameEnd(d, HEADER, 0), TextAt(d, HEADER))
  }

  lemma {:induction false} ParsedWithEdns(d: seq<Byte>)
    requires Parse(d).ok
    ensures |d| >= HEADER && NameEnd(d, HEADER, 0) > HEADER && NameEnd(d, HEADER, 0) + 4 <= |d|
    ensures Parse(d).query == WithEdns(d, 12 + |Parse(d).query.question|, Plainly(d))
    ensures Plainly(d).ednsPayload == 0 && !Plainly(d).dnssecOk
  {
    AcceptedQuery(d);
  }

  /** Payload size and DO bit of an accepted query are those of the OPT record its records lead to. */
  lemma {:induction false} EdnsIsOpt(d: seq<Byte>, starts: seq<nat>)
    requires Parse(d).ok && |d| >= 12 && OptAt(d, starts)
    ensures var q, opt := Parse(d).query, starts[|starts| - 2];
      opt + 11 <= |d| && q.ednsPayload == Read16(d, opt + 3) && q.dnssecOk == (d[opt + 7] >= 128)
  {
    ParsedWithEdns(d);
    ScanFindsOpt(d, 12 + |Parse(d).query.question|, Read16(d, 10), Plainly(d), starts);
  }

  /** And there are none if the records lead to no OPT record. */
  lemma {:induction false} NoOptNoEdns(d: seq<Byte>)
    requires Parse(d).ok && |d| >= 12 && forall starts :: !OptAt(d, starts)
    ensures Parse(d).query.ednsPayload == 0 && !Parse(d).query.dnssecOk
  {
    ParsedWithEdns(d);
    var offset := 12 + |Parse(d).query.question|;
    if Read16(d, 6) == 0 && Read16(d, 8) == 0 && FindEdns(d, offset, Read16(d, 10), Plainly(d)) != Plainly(d) {
      var starts := ScanWasLed(d, offset, Read16(d, 10), Plainly(d));
      assert OptAt(d, starts);
    }
  }
}
