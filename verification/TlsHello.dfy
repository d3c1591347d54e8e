/**
  Reading a TLS ClientHello out of the bytes a client has sent so far, and classifying a server's
  first flight. Both answer "need more" until they can decide.

  The main results: a decision never depends on how TCP cut the stream into pieces; a hello that
  needs more is shorter than one maximal record; a decision describes the record it was made from;
  and a built cover hello parses back to its own hostname.
 */
module TlsHello {
  import opened Bytes

  const RECORD_HANDSHAKE: Byte := 0x16
  const RECORD_CHANGE_CIPHER_SPEC: Byte := 0x14
  const RECORD_ALERT: Byte := 0x15
  const HANDSHAKE_CLIENT_HELLO: Byte := 1
  const HANDSHAKE_SERVER_HELLO: Byte := 2
  const RECORD_HEADER := 5
  const MAX_RECORD_PAYLOAD := 16384
  const EXT_SERVER_NAME := 0x0000
  const EXT_ENCRYPTED_CLIENT_HELLO := 0xFE0D

  datatype ParseStatus = Ok | NeedMore | NotTls | Malformed

  datatype ClientHello = ClientHello(
    recordPayloadLength: nat, recordTotalLength: nat, sniOffset: nat, sniLength: nat,
    serverName: seq<Byte>, hasEch: bool, spansRecords: bool)
  {
    predicate HasSni() { sniLength > 0 }
  }

  const NO_HELLO := ClientHello(0, 0, 0, 0, [], false, false)

  datatype Parsed = Parsed(status: ParseStatus, hello: ClientHello)

  // ---- server_name ----

  /** The hello with its hostname at `at`. */
  function Named(hello: ClientHello, d: seq<Byte>, at: nat, length: nat): ClientHello
    requires at + length <= |d|
  {
    hello.(sniOffset := at, sniLength := length, serverName := d[at..at + length])
  }

  /** The name list from `pos` on: the first host_name entry, if the list is well formed up to it. */
  function FirstHostName(d: seq<Byte>, pos: nat, end: nat, hello: ClientHello): ClientHello
    requires pos <= end <= |d|
    decreases end - pos
  {
    if end - pos < 3 then hello
    else
      var length := Read16(d, pos + 1);
      if length > end - pos - 3 then hello
      else if d[pos] == 0 then Named(hello, d, pos + 3, length)
      else FirstHostName(d, pos + 3 + length, end, hello)
  }

  function ServerName(d: seq<Byte>, start: nat, end: nat, hello: ClientHello): ClientHello
    requires start <= end <= |d|
  {
    if end - start < 2 then hello
    else
      var listLength := Read16(d, start);
      if listLength > end - start - 2 then hello
      else FirstHostName(d, start + 2, start + 2 + listLength, hello)
  }

  method ReadServerName(d: seq<Byte>, start: nat, end: nat, hello: ClientHello) returns (out: ClientHello)
    requires start <= end <= |d|
    ensures out == ServerName(d, start, end, hello)
  {
    if end - start < 2 {
      return hello;
    }
    var listLength := Read16(d, start);
    if listLength > end - start - 2 {
      return hello;
    }
    var pos, listEnd := start + 2, start + 2 + listLength;
    while pos < listEnd
      invariant pos <= listEnd <= |d|
      invariant FirstHostName(d, pos, listEnd, hello) == ServerName(d, start, end, hello)
    {
      if listEnd - pos < 3 {
        return hello;
      }
      var nameType := d[pos];
      var nameLength := Read16(d, pos + 1);
      pos := pos + 3;
      if nameLength > listEnd - pos {
        return hello;
      }
      if nameType == 0 {
        return Named(hello, d, pos, nameLength);
      }
      pos := pos + nameLength;
    }
    return hello;
  }

  // ---- extensions ----

  /** One extension's effect on what is known about the hello. */
  function WithExtension(d: seq<Byte>, kind: nat, start: nat, end: nat, hello: ClientHello): ClientHello
    requires start <= end <= |d|
  {
    if kind == EXT_ENCRYPTED_CLIENT_HELLO then hello.(hasEch := true)
    else if kind == EXT_SERVER_NAME && !hello.HasSni() then ServerName(d, start, end, hello)
    else hello
  }

  function ExtensionBlock(d: seq<Byte>, pos: nat, end: nat, hello: ClientHello): Parsed
    requires pos <= end <= |d|
    decreases end - pos
  {
    if pos == end then Parsed(Ok, hello)
    else if end - pos < 4 then Parsed(Malformed, hello)
    else
      var kind, length := Read16(d, pos), Read16(d, pos + 2);
      if length > end - pos - 4 then Parsed(Malformed, hello)
      else ExtensionBlock(d, pos + 4 + length, end, WithExtension(d, kind, pos + 4, pos + 4 + length, hello))
  }

  function Extensions(d: seq<Byte>, pos: nat, bodyEnd: nat, hello: ClientHello): Parsed
    requires pos <= bodyEnd <= |d|
  {
    if bodyEnd - pos < 2 then Parsed(Malformed, hello)
    else
      var length := Read16(d, pos);
      if length > bodyEnd - pos - 2 then Parsed(Malformed, hello)
      else ExtensionBlock(d, pos + 2, pos + 2 + length, hello)
  }

  method ParseExtensions(d: seq<Byte>, start: nat, bodyEnd: nat, hello: ClientHello) returns (r: Parsed)
    requires start <= bodyEnd <= |d|
    ensures r == Extensions(d, start, bodyEnd, hello)
  {
    if bodyEnd - start < 2 {
      return Parsed(Malformed, hello);
    }
    var length := Read16(d, start);
    if length > bodyEnd - start - 2 {
      return Parsed(Malformed, hello);
    }
    var pos, end, out := start + 2, start + 2 + length, hello;
    while pos < end
      invariant pos <= end <= |d|
      invariant ExtensionBlock(d, pos, end, out) == Extensions(d, start, bodyEnd, hello)
    {
      if end - pos < 4 {
        return Parsed(Malformed, out);
      }
      var kind, extLength := Read16(d, pos), Read16(d, pos + 2);
      pos := pos + 4;
      if extLength > end - pos {
        return Parsed(Malformed, out);
      }
      if kind == EXT_ENCRYPTED_CLIENT_HELLO {
        out := out.(hasEch := true);
      } else if kind == EXT_SERVER_NAME && !out.HasSni() {
        out := ReadServerName(d, pos, pos + extLength, out);
      }
      pos := pos + extLength;
    }
    return Parsed(Ok, out);
  }

  // ---- the hello ----

  /** The end of a length-prefixed vector at `pos`, or -1 if it does not fit before `end`. */
  function SkipVector8(d: seq<Byte>, pos: int, end: nat): (next: int)
    requires pos <= end <= |d|
    ensures next == -1 || 0 <= pos < next <= end
  {
    if pos < 0 || end - pos < 1 || d[pos] as int > end - pos - 1 then -1 else pos + 1 + d[pos] as int
  }

  function SkipVector16(d: seq<Byte>, pos: int, end: nat): (next: int)
    requires pos <= end <= |d|
    ensures next == -1 || 0 <= pos < next <= end
  {
    if pos < 0 || end - pos < 2 || Read16(d, pos) > end - pos - 2 then -1 else pos + 2 + Read16(d, pos)
  }

  /** The offset behind version, random, session id, cipher suites and compression methods; -1 if they do not fit. */
  function FixedPartEnd(d: seq<Byte>, bodyStart: nat, bodyEnd: nat): (next: int)
    requires bodyStart <= bodyEnd <= |d|
    ensures next == -1 || bodyStart <= next <= bodyEnd
  {
    var sessionId := if bodyEnd - bodyStart < 34 then -1 else bodyStart + 34;
    var suites := SkipVector8(d, sessionId, bodyEnd);
    var compression := SkipVector16(d, suites, bodyEnd);
    SkipVector8(d, compression, bodyEnd)
  }

  /** A complete record starting a ClientHello: what follows once every byte of it is present. */
  function ParseRecord(d: seq<Byte>, hello: ClientHello): Parsed
    requires |d| >= hello.recordTotalLength == RECORD_HEADER + hello.recordPayloadLength
  {
    if hello.recordPayloadLength < 4 then Parsed(Malformed, hello)
    else if d[5] != HANDSHAKE_CLIENT_HELLO then Parsed(NotTls, hello)
    else
      var bodyEnd := 9 + d[6] as int * 0x1_0000 + Read16(d, 7);
      if bodyEnd > hello.recordTotalLength then Parsed(Ok, hello.(spansRecords := true))
      else
        var pos := FixedPartEnd(d, 9, bodyEnd);
        if pos < 0 then Parsed(Malformed, hello)
        else if pos == bodyEnd then Parsed(Ok, hello)
        else Extensions(d, pos, bodyEnd, hello)
  }

  function Parse(d: seq<Byte>): (r: Parsed)
  {
    if |d| == 0 then Parsed(NeedMore, NO_HELLO)
    else if d[0] != RECORD_HANDSHAKE then Parsed(NotTls, NO_HELLO)
    else if |d| < 2 then Parsed(NeedMore, NO_HELLO)
    else if d[1] != 3 then Parsed(NotTls, NO_HELLO)
    else if |d| < RECORD_HEADER then Parsed(NeedMore, NO_HELLO)
    else
      var payload := Read16(d, 3);
      if payload == 0 || payload > MAX_RECORD_PAYLOAD then Parsed(Malformed, NO_HELLO)
      else
        var hello := NO_HELLO.(recordPayloadLength := payload, recordTotalLength := RECORD_HEADER + payload);
        if |d| < hello.recordTotalLength then Parsed(NeedMore, hello) else ParseRecord(d, hello)
  }

  method ParseClientHello(d: seq<Byte>) returns (status: ParseStatus, out: ClientHello)
    ensures Parsed(status, out) == Parse(d)
  {
    out := NO_HELLO;
    if |d| == 0 { return NeedMore, out; }
    if d[0] != RECORD_HANDSHAKE { return NotTls, out; }
    if |d| < 2 { return NeedMore, out; }
    if d[1] != 3 { return NotTls, out; }
    if |d| < RECORD_HEADER { return NeedMore, out; }
    var payload := Read16(d, 3);
    if payload == 0 || payload > MAX_RECORD_PAYLOAD { return Malformed, out; }
    out := out.(recordPayloadLength := payload, recordTotalLength := RECORD_HEADER + payload);
    if |d| < out.recordTotalLength { return NeedMore, out; }
    if payload < 4 { return Malformed, out; }
    if d[5] != HANDSHAKE_CLIENT_HELLO { return NotTls, out; }
    var bodyEnd := 9 + d[6] as int * 0x1_0000 + Read16(d, 7);
    if bodyEnd > out.recordTotalLength {
      return Ok, out.(spansRecords := true);
    }
    var pos := FixedPartEnd(d, 9, bodyEnd);
    if pos < 0 { return Malformed, out; }
    if pos == bodyEnd { return Ok, out; }
    var r := ParseExtensions(d, pos, bodyEnd, out);
    return r.status, r.hello;
  }

  // ---- a server's first flight ----

  datatype ServerStatus = AwaitMore | ServerHello | Alert | Unexpected

  function Classified(d: seq<Byte>, offset: nat): (s: ServerStatus)
    requires offset <= |d|
    decreases |d| - offset
  {
    if |d| - offset < RECORD_HEADER then AwaitMore
    else if d[offset + 1] != 3 then Unexpected
    else
      var payload := Read16(d, offset + 3);
      if payload == 0 || payload > MAX_RECORD_PAYLOAD then Unexpected
      else if |d| - offset < RECORD_HEADER + payload then AwaitMore
      else if d[offset] == RECORD_ALERT then Alert
      else if d[offset] == RECORD_HANDSHAKE then
        if payload >= 4 && d[offset + 5] == HANDSHAKE_SERVER_HELLO then ServerHello else Unexpected
      else if d[offset] != RECORD_CHANGE_CIPHER_SPEC then Unexpected
      else Classified(d, offset + RECORD_HEADER + payload)
  }

  method ClassifyServerResponse(d: seq<Byte>) returns (status: ServerStatus)
    ensures status == Classified(d, 0)
  {
    var offset := 0;
    while offset < |d|
      invariant offset <= |d| && Classified(d, 0) == Classified(d, offset)
    {
      if |d| - offset < RECORD_HEADER { return AwaitMore; }
      if d[offset + 1] != 3 { return Unexpected; }
      var payload := Read16(d, offset + 3);
      if payload == 0 || payload > MAX_RECORD_PAYLOAD { return Unexpected; }
      if |d| - offset < RECORD_HEADER + payload { return AwaitMore; }
      if d[offset] == RECORD_ALERT { return Alert; }
      if d[offset] == RECORD_HANDSHAKE {
        if payload >= 4 && d[offset + 5] == HANDSHAKE_SERVER_HELLO { return ServerHello; }
        return Unexpected;
      }
      if d[offset] != RECORD_CHANGE_CIPHER_SPEC { return Unexpected; }
      offset := offset + RECORD_HEADER + payload;
    }
    return AwaitMore;
  }

  // ---- decisions do not depend on how the bytes arrived ----

  /** The two buffers hold the same bytes before `end`. */
  predicate AgreeUpTo(d: seq<Byte>, e: seq<Byte>, end: nat) {
    end <= |d| && end <= |e| && forall i :: 0 <= i < end ==> d[i] == e[i]
  }

  lemma {:induction false} HostNameLocal(d: seq<Byte>, e: seq<Byte>, pos: nat, end: nat, hello: ClientHello)
    requires pos <= end && AgreeUpTo(d, e, end)
    ensures FirstHostName(d, pos, end, hello) == FirstHostName(e, pos, end, hello)
    decreases end - pos
  {
    if end - pos >= 3 {
      var length := Read16(d, pos + 1);
      if length <= end - pos - 3 {
        if d[pos] == 0 {
          assert d[pos + 3..pos + 3 + length] == e[pos + 3..pos + 3 + length];
        } else {
          HostNameLocal(d, e, pos + 3 + length, end, hello);
        }
      }
    }
  }

  lemma {:induction false} OneExtensionLocal(
    d: seq<Byte>, e: seq<Byte>, kind: nat, start: nat, end: nat, hello: ClientHello)
    requires start <= end && AgreeUpTo(d, e, end)
    ensures WithExtension(d, kind, start, end, hello) == WithExtension(e, kind, start, end, hello)
  {
    if end - start >= 2 {
      var listEnd := start + 2 + Read16(d, start);
      if listEnd <= end { HostNameLocal(d, e, start + 2, listEnd, hello); }
    }
  }

  lemma {:induction false} ExtensionsLocal(d: seq<Byte>, e: seq<Byte>, pos: nat, end: nat, hello: ClientHello)
    requires pos <= end && AgreeUpTo(d, e, end)
    ensures ExtensionBlock(d, pos, end, hello) == ExtensionBlock(e, pos, end, hello)
    decreases end - pos
  {
    if end - pos >= 4 {
      var kind, length := Read16(d, pos), Read16(d, pos + 2);
      var next := pos + 4 + length;
      if next <= end {
        OneExtensionLocal(d, e, kind, pos + 4, next, hello);
        ExtensionsLocal(d, e, next, end, WithExtension(d, kind, pos + 4, next, hello));
      }
    }
  }

  lemma {:induction false} FixedPartLocal(d: seq<Byte>, e: seq<Byte>, start: nat, end: nat)
    requires start <= end && AgreeUpTo(d, e, end)
    ensures FixedPartEnd(d, start, end) == FixedPartEnd(e, start, end)
  {
    var suites := SkipVector8(d, if end - start < 34 then -1 else start + 34, end);
    assert suites == SkipVector8(e, if end - start < 34 then -1 else start + 34, end);
    assert SkipVector16(d, suites, end) == SkipVector16(e, suites, end);
  }

  lemma {:induction false} RecordLocal(d: seq<Byte>, e: seq<Byte>, hello: ClientHello)
    requires hello.recordTotalLength == RECORD_HEADER + hello.recordPayloadLength
    requires AgreeUpTo(d, e, hello.recordTotalLength)
    ensures ParseRecord(d, hello) == ParseRecord(e, hello)
  {
    if hello.recordPayloadLength >= 4 {
      var bodyEnd := 9 + d[6] as int * 0x1_0000 + Read16(d, 7);
      if bodyEnd <= hello.recordTotalLength {
        var pos := FixedPartEnd(d, 9, bodyEnd);
        FixedPartLocal(d, e, 9, bodyEnd);
        if 0 <= pos && bodyEnd - pos >= 2 {
          var end := pos + 2 + Read16(d, pos);
          if end <= bodyEnd { ExtensionsLocal(d, e, pos + 2, end, hello); }
        }
      }
    }
  }

  /** Once the parser has decided on some bytes, more bytes change nothing. */
  lemma {:induction false} DecisionIsFinal(d: seq<Byte>, e: seq<Byte>)
    requires d <= e && Parse(d).status != NeedMore
    ensures Parse(e) == Parse(d)
  {
    if |d| >= RECORD_HEADER && d[0] == RECORD_HANDSHAKE && d[1] == 3 {
      var payload := Read16(d, 3);
      if 0 < payload <= MAX_RECORD_PAYLOAD {
        RecordLocal(d, e, NO_HELLO.(recordPayloadLength := payload, recordTotalLength := RECORD_HEADER + payload));
      }
    }
  }

  /** However a stream is cut, all decisions made on it agree. */
  lemma {:induction false} ChunkingIsIrrelevant(stream: seq<Byte>, i: nat, j: nat)
    requires i <= j <= |stream|
    requires Parse(stream[..i]).status != NeedMore && Parse(stream[..j]).status != NeedMore
    ensures Parse(stream[..i]) == Parse(stream[..j])
  {
    assert stream[..i] <= stream[..j];
    DecisionIsFinal(stream[..i], stream[..j]);
  }

  /** A hello that is still undecided is shorter than one maximal record. */
  lemma {:induction false} UndecidedIsShort(d: seq<Byte>)
    requires Parse(d).status == NeedMore
    ensures |d| < RECORD_HEADER + MAX_RECORD_PAYLOAD
  {
    if |d| >= RECORD_HEADER {
      var payload := Read16(d, 3);
      var hello := NO_HELLO.(recordPayloadLength := payload, recordTotalLength := RECORD_HEADER + payload);
      if |d| >= hello.recordTotalLength { RecordIsDecided(d, hello); }
    }
  }

  lemma {:induction false} RecordIsDecided(d: seq<Byte>, hello: ClientHello)
    requires |d| >= hello.recordTotalLength == RECORD_HEADER + hello.recordPayloadLength && !hello.HasSni()
    ensures ParseRecord(d, hello).status != NeedMore
  {
    if hello.recordPayloadLength >= 4 {
      var bodyEnd := 9 + d[6] as int * 0x1_0000 + Read16(d, 7);
      if bodyEnd <= hello.recordTotalLength {
        var pos := FixedPartEnd(d, 9, bodyEnd);
        if 0 <= pos && bodyEnd - pos >= 2 {
          var end := pos + 2 + Read16(d, pos);
          if end <= bodyEnd { BlockDescribes(d, pos + 2, end, hello, bodyEnd); }
        }
      }
    }
  }

  lemma {:induction false} ClassificationIsFinal(d: seq<Byte>, e: seq<Byte>, offset: nat)
    requires d <= e && offset <= |d| && Classified(d, offset) != AwaitMore
    ensures Classified(e, offset) == Classified(d, offset)
    decreases |d| - offset
  {
    var payload := Read16(d, offset + 3);
    if d[offset + 1] == 3 && 0 < payload <= MAX_RECORD_PAYLOAD && d[offset] == RECORD_CHANGE_CIPHER_SPEC {
      ClassificationIsFinal(d, e, offset + RECORD_HEADER + payload);
    }
  }

  // ---- a decision describes the record ----

  /** What is recorded about the hostname lies inside `..end` and is what the bytes say. */
  ghost predicate Describes(hello: ClientHello, d: seq<Byte>, end: nat)
    requires end <= |d|
  {
    hello.HasSni() ==>
      && 9 <= hello.sniOffset && hello.sniOffset + hello.sniLength <= end
      && hello.serverName == d[hello.sniOffset..hello.sniOffset + hello.sniLength]
  }

  lemma {:induction false} HostNameDescribes(d: seq<Byte>, pos: nat, end: nat, hello: ClientHello, limit: nat)
    requires 9 <= pos <= end <= limit <= |d| && Describes(hello, d, limit)
    ensures Describes(FirstHostName(d, pos, end, hello), d, limit)
    ensures SameRecord(FirstHostName(d, pos, end, hello), hello)
    decreases end - pos
  {
    if end - pos >= 3 {
      var length := Read16(d, pos + 1);
      if length <= end - pos - 3 && d[pos] != 0 { HostNameDescribes(d, pos + 3 + length, end, hello, limit); }
    }
  }

  /** Extensions change only what is known about the hostname and ECH. */
  predicate SameRecord(a: ClientHello, b: ClientHello) {
    && a.recordPayloadLength == b.recordPayloadLength && a.recordTotalLength == b.recordTotalLength
    && a.spansRecords == b.spansRecords
  }

  lemma {:induction false} OneExtensionDescribes(
    d: seq<Byte>, kind: nat, start: nat, end: nat, hello: ClientHello, limit: nat)
    requires 9 <= start <= end <= limit <= |d| && Describes(hello, d, limit)
    ensures var after := WithExtension(d, kind, start, end, hello);
      Describes(after, d, limit) && SameRecord(after, hello)
  {
    if end - start >= 2 {
      var listEnd := start + 2 + Read16(d, start);
      if listEnd <= end { HostNameDescribes(d, start + 2, listEnd, hello, limit); }
    }
  }

  lemma {:induction false} BlockDescribes(d: seq<Byte>, pos: nat, end: nat, hello: ClientHello, limit: nat)
    requires 9 <= pos <= end <= limit <= |d| && Describes(hello, d, limit)
    ensures var r := ExtensionBlock(d, pos, end, hello);
      (r.status == Ok || r.status == Malformed) && Describes(r.hello, d, limit) && SameRecord(r.hello, hello)
    decreases end - pos
  {
    if end - pos >= 4 {
      var kind, length := Read16(d, pos), Read16(d, pos + 2);
      var next := pos + 4 + length;
      if next <= end {
        OneExtensionDescribes(d, kind, pos + 4, next, hello, limit);
        BlockDescribes(d, next, end, WithExtension(d, kind, pos + 4, next, hello), limit);
      }
    }
  }

  /** A parsed hello describes a complete record that is present, and its hostname is where it says. */
  lemma {:induction false} ParsedHelloDescribesRecord(d: seq<Byte>)
    requires Parse(d).status == Ok
    ensures var hello := Parse(d).hello;
      && 4 <= hello.recordPayloadLength <= MAX_RECORD_PAYLOAD
      && hello.recordPayloadLength == Read16(d, 3)
      && hello.recordTotalLength == RECORD_HEADER + hello.recordPayloadLength <= |d|
      && d[0] == RECORD_HANDSHAKE && d[1] == 3 && d[5] == HANDSHAKE_CLIENT_HELLO
      && Describes(hello, d, hello.recordTotalLength)
  {
    var payload := Read16(d, 3);
    var hello := NO_HELLO.(recordPayloadLength := payload, recordTotalLength := RECORD_HEADER + payload);
    var bodyEnd := 9 + d[6] as int * 0x1_0000 + Read16(d, 7);
    if bodyEnd <= hello.recordTotalLength {
      var pos := FixedPartEnd(d, 9, bodyEnd);
      if pos < bodyEnd {
        var end := pos + 2 + Read16(d, pos);
        BlockDescribes(d, pos + 2, end, hello, hello.recordTotalLength);
      }
    }
  }

  // ---- the cover hello ----

  /** Everything in front of the extensions: version, a fixed random, no session, one suite, no compression. */
  function CoverBody(extensions: seq<Byte>): seq<Byte>
    requires |extensions| < 0x1_0000
  {
    [3, 3] + seq(32, i requires 0 <= i < 32 => i + 1) + [0] + [0, 2, 0x13, 1] + [1, 0]
    + Put16(|extensions|) + extensions
  }

  function CoverExtensions(name: seq<Byte>): seq<Byte>
    requires |name| <= 253
  {
    [0, 0] + Put16(|name| + 5) + Put16(|name| + 3) + [0] + Put16(|name|) + name + [0, 0x2B, 0, 3, 2, 3, 4]
  }

  /** A ClientHello record naming `name`; nothing for an empty or over-long name. */
  function CoverHello(name: seq<Byte>): (record: seq<Byte>)
  {
    if name == [] || |name| > 253 then []
    else
      var body := CoverBody(CoverExtensions(name));
      var handshake := [1, 0] + Put16(|body|) + body;
      [RECORD_HANDSHAKE, 3, 1] + Put16(|handshake|) + handshake
  }

  /** Where the fields of a cover hello for `name` lie. */
  ghost predicate CoverLayout(d: seq<Byte>, name: seq<Byte>) {
    var n := |name|;
    && |d| == 68 + n
    && d[0] == RECORD_HANDSHAKE && d[1] == 3 && Read16(d, 3) == 63 + n
    && d[5] == 1 && d[6] == 0 && Read16(d, 7) == 59 + n
    && d[43] == 0 && Read16(d, 44) == 2 && d[48] == 1
    && Read16(d, 50) == 16 + n
    && Read16(d, 52) == EXT_SERVER_NAME && Read16(d, 54) == 5 + n && Read16(d, 56) == 3 + n
    && d[58] == 0 && Read16(d, 59) == n
    && d[61..61 + n] == name
    && Read16(d, 61 + n) == 0x2B && Read16(d, 63 + n) == 3
  }

  lemma {:induction false} CoverHelloLayout(name: seq<Byte>)
    requires 1 <= |name| <= 253
    ensures CoverLayout(CoverHello(name), name)
  {
    var extensions := CoverExtensions(name);
    CoverExtensionsLayout(name);
    CoverBodyLayout(extensions);
    CoverFrameLayout(CoverHello(name), CoverBody(extensions));
    CoverFields(CoverHello(name), CoverBody(extensions), extensions, name);
  }

  /** The record and handshake headers in front of the body. */
  lemma {:induction false} CoverFrameLayout(d: seq<Byte>, body: seq<Byte>)
    requires |body| < 0xFFF0
    requires d == [RECORD_HANDSHAKE, 3, 1] + Put16(4 + |body|) + ([1, 0] + Put16(|body|) + body)
    ensures |d| == 9 + |body| && d[0] == RECORD_HANDSHAKE && d[1] == 3 && Read16(d, 3) == 4 + |body|
    ensures d[5] == 1 && d[6] == 0 && Read16(d, 7) == |body|
    ensures forall i :: 0 <= i < |body| ==> d[9 + i] == body[i]
  {
  }

  /** The fields of the body and of the extensions, at their places in the record. */
  lemma {:induction false} CoverFields(d: seq<Byte>, body: seq<Byte>, extensions: seq<Byte>, name: seq<Byte>)
    requires 1 <= |name| <= 253 && |body| == 59 + |name| && |d| == 68 + |name| && |extensions| == 16 + |name|
    requires d[0] == RECORD_HANDSHAKE && d[1] == 3 && Read16(d, 3) == 63 + |name|
    requires d[5] == 1 && d[6] == 0 && Read16(d, 7) == 59 + |name|
    requires forall i :: 0 <= i < |body| ==> d[9 + i] == body[i]
    requires forall i :: 0 <= i < |extensions| ==> body[43 + i] == extensions[i]
    requires body[34] == 0 && body[35] == 0 && body[36] == 2 && body[39] == 1
    requires body[41] == |extensions| / 256 && body[42] == |extensions| % 256
    requires var x := extensions;
      && x[0] == 0 && x[1] == 0 && Read16(x, 2) == 5 + |name| && Read16(x, 4) == 3 + |name|
      && x[6] == 0 && Read16(x, 7) == |name| && x[9..9 + |name|] == name
      && x[9 + |name|] == 0 && x[10 + |name|] == 0x2B && x[11 + |name|] == 0 && x[12 + |name|] == 3
    ensures CoverLayout(d, name)
  {
    assert forall i :: 0 <= i < |extensions| ==> d[52 + i] == extensions[i];
    assert d[61..61 + |name|] == extensions[9..9 + |name|];
  }

  lemma {:induction false} CoverBodyLayout(extensions: seq<Byte>)
    requires |extensions| < 0x1_0000
    ensures var body := CoverBody(extensions);
      && |body| == 43 + |extensions|
      && body[34] == 0 && body[35] == 0 && body[36] == 2 && body[39] == 1
      && body[41] == |extensions| / 256 && body[42] == |extensions| % 256
      && forall i :: 0 <= i < |extensions| ==> body[43 + i] == extensions[i]
  {
  }

  lemma {:induction false} CoverExtensionsLayout(name: seq<Byte>)
    requires 1 <= |name| <= 253
    ensures var x := CoverExtensions(name);
      && |x| == 16 + |name|
      && x[0] == 0 && x[1] == 0 && Read16(x, 2) == 5 + |name| && Read16(x, 4) == 3 + |name|
      && x[6] == 0 && Read16(x, 7) == |name| && x[9..9 + |name|] == name
      && x[9 + |name|] == 0 && x[10 + |name|] == 0x2B && x[11 + |name|] == 0 && x[12 + |name|] == 3
  {
  }

  lemma {:induction false} CoverExtensionsParse(d: seq<Byte>, name: seq<Byte>, bare: ClientHello)
    requires 1 <= |name| <= 253 && CoverLayout(d, name) && !bare.HasSni()
    ensures Extensions(d, 50, 68 + |name|, bare) == Parsed(Ok, Named(bare, d, 61, |name|))
  {
    var n := |name|;
    var named := Named(bare, d, 61, n);
    assert ServerName(d, 56, 61 + n, bare) == named;
    assert ExtensionBlock(d, 61 + n, 68 + n, named) == ExtensionBlock(d, 68 + n, 68 + n, named);
    assert ExtensionBlock(d, 52, 68 + n, bare) == ExtensionBlock(d, 61 + n, 68 + n, named);
  }

  /** The cover hello is read back as a hello for exactly its hostname. */
  lemma {:induction false} CoverHelloParsesBack(name: seq<Byte>)
    requires 1 <= |name| <= 253
    ensures Parse(CoverHello(name)) ==
      Parsed(Ok, ClientHello(63 + |name|, 68 + |name|, 61, |name|, name, false, false))
  {
    CoverHelloLayout(name);
    LayoutParses(CoverHello(name), name);
  }

  lemma {:induction false} LayoutParses(d: seq<Byte>, name: seq<Byte>)
    requires 1 <= |name| <= 253 && CoverLayout(d, name)
    ensures Parse(d) == Parsed(Ok, ClientHello(63 + |name|, 68 + |name|, 61, |name|, name, false, false))
  {
    var n := |name|;
    var bare := NO_HELLO.(recordPayloadLength := 63 + n, recordTotalLength := 68 + n);
    assert FixedPartEnd(d, 9, 68 + n) == 50;
    CoverExtensionsParse(d, name, bare);
    assert Parse(d) == ParseRecord(d, bare);
  }
}
