/**
  Re-framing a ClientHello: a profile chooses cuts inside the first TLS record, and the record is
  sent as several records instead.

  For every hello that parses and every splitting profile that applies, the bytes sent decode (by the
  record layer of section 5.1 of RFC 8446) into non-empty records of the original type and version
  whose payloads concatenate to the original payload; and under the profiles that cut inside the
  hostname, no single record holds the whole name.
 */
module RecordSplits {
  import opened Basics
  import opened Bytes
  import opened TlsHello

  const SLOW_PROFILE_MIN_DELAY_MS := 40

  datatype Plan = Plan(recordSplits: seq<nat>, writeChunk: nat, delayMs: nat)
  datatype Profile = Profile(name: string, requiresSni: bool)

  const PROFILES: seq<Profile> := [
    Profile("none", false), Profile("sni-mid", true), Profile("record-1", false), Profile("packet-reverse", false),
    Profile("packet-ipfrag", false), Profile("packet-fake-badseq", false), Profile("packet-autottl", false),
    Profile("packet-seqovl", false), Profile("sni-pre", true), Profile("sni-multi", true),
    Profile("packet-fake-badsum", false), Profile("sni-mid-slow", true)]

  function FindProfile(name: string, from: nat := 0): Option<Profile>
    requires from <= |PROFILES|
    decreases |name|, |PROFILES| - from
  {
    if from == |PROFILES| then None
    else if PROFILES[from].name == name then Some(PROFILES[from])
    else FindProfile(name, from + 1)
  }

  predicate StartsWith(s: string, prefix: string) {
    prefix <= s
  }

  // ---- sanitising the cuts ----

  predicate Ascending(s: seq<nat>) {
    forall i, j :: 0 <= i < j < |s| ==> s[i] < s[j]
  }

  /** Inserts into an ascending list, once. */
  function Inserted(s: seq<nat>, x: nat): (r: seq<nat>)
  {
    if s == [] then [x]
    else if x < s[0] then [x] + s
    else if x == s[0] then s
    else [s[0]] + Inserted(s[1..], x)
  }

  lemma {:induction false} PrependAscends(x: nat, s: seq<nat>)
    requires Ascending(s) && forall y :: y in s ==> x < y
    ensures Ascending([x] + s)
  {
    forall i | 0 <= i < |s| ensures x < s[i] { assert s[i] in s; }
  }

  lemma {:induction false} InsertedIsAscending(s: seq<nat>, x: nat)
    requires Ascending(s)
    ensures Ascending(Inserted(s, x))
    ensures forall y :: y in Inserted(s, x) <==> y == x || y in s
  {
    if s != [] && x > s[0] {
      var rest := s[1..];
      assert s == [s[0]] + rest;
      InsertedIsAscending(rest, x);
      PrependAscends(s[0], Inserted(rest, x));
    }
  }

  /** The cuts strictly inside the payload, in order and without repetition. */
  function Sanitized(splits: seq<nat>, payloadLength: nat): (r: seq<nat>) {
    if splits == [] then []
    else
      var rest := Sanitized(splits[..|splits| - 1], payloadLength);
      var x := splits[|splits| - 1];
      if 1 <= x < payloadLength then Inserted(rest, x) else rest
  }

  lemma {:induction false} SanitizedIsExact(splits: seq<nat>, payloadLength: nat)
    ensures var r := Sanitized(splits, payloadLength);
      && Ascending(r)
      && forall x :: x in r <==> x in splits && 1 <= x < payloadLength
  {
    if splits != [] {
      var front, x := splits[..|splits| - 1], splits[|splits| - 1];
      SanitizedIsExact(front, payloadLength);
      assert splits == front + [x];
      if 1 <= x < payloadLength { InsertedIsAscending(Sanitized(front, payloadLength), x); }
    }
  }

  /** Drops, sorts and removes duplicates; the result is the only ascending list of the cuts in range. */
  method Sanitize(splits: seq<nat>, payloadLength: nat) returns (r: seq<nat>)
    ensures Ascending(r) && (forall x :: x in r <==> x in splits && 1 <= x < payloadLength)
    ensures r == Sanitized(splits, payloadLength)
  {
    r := [];
    for i := 0 to |splits|
      invariant r == Sanitized(splits[..i], payloadLength)
    {
      assert splits[..i + 1][..i] == splits[..i];
      if 1 <= splits[i] < payloadLength {
        r := Inserted(r, splits[i]);
      }
    }
    assert splits[..|splits|] == splits;
    SanitizedIsExact(splits, payloadLength);
  }

  // ---- plans ----


  /** The cuts a record profile asks for, as payload offsets; nothing for other profiles. */
  function ProfileCuts(name: string, sniStart: nat, sniLength: nat): Option<seq<nat>> {
    var middle, end := sniStart + sniLength / 2, sniStart + sniLength;
    if name == "sni-mid" || name == "sni-mid-slow" then Some([middle])
    else if name == "record-1" then Some([1])
    else if name == "sni-pre" then Some([sniStart])
    else if name == "sni-multi" then Some([1, sniStart, middle, end])
    else None
  }

  /** The hostname's payload offset: an unsigned 64-bit subtraction, in range for every parsed hello. */
  function SniStart(hello: ClientHello): nat {
    if !hello.HasSni() then 0
    else if hello.sniOffset >= RECORD_HEADER then hello.sniOffset - RECORD_HEADER
    else hello.sniOffset + 0x1_0000_0000_0000_0000 - RECORD_HEADER
  }

  /** The plan for one profile and hello; None when the profile cannot apply. */
  function BuildPlan(name: string, hello: ClientHello, baseDelayMs: nat): (plan: Option<Plan>)
  {
    var profile := FindProfile(name);
    if profile.None? then None
    else if name == "none" || StartsWith(name, "packet-") then Some(Plan([], 0, 0))
    else if hello.spansRecords || (profile.value.requiresSni && !hello.HasSni()) then None
    else if hello.recordPayloadLength < 2 then None
    else
      var cuts := ProfileCuts(name, SniStart(hello), hello.sniLength);
      if cuts.None? then None
      else
        var splits := Sanitized(cuts.value, hello.recordPayloadLength);
        var slow := name == "sni-mid-slow";
        if splits == [] then None
        else Some(Plan(splits, if slow then 4 else 0,
                       if slow then Max(baseDelayMs * 2 % 0x1_0000_0000, SLOW_PROFILE_MIN_DELAY_MS) else baseDelayMs))
  }

  // ---- sending ----

  /** One record: the first three bytes of the original header, a length, and the payload. */
  function Record(prefix: seq<Byte>, payload: seq<Byte>): seq<Byte>
    requires |payload| < 0x1_0000
  {
    prefix + Put16(|payload|) + payload
  }

  /** The payload from `start` on, re-framed at each of the boundaries from `k` on. */
  function Framed(prefix: seq<Byte>, payload: seq<Byte>, bounds: seq<nat>, k: nat, start: nat): (bytes: seq<Byte>)
    requires |payload| < 0x1_0000 && k <= |bounds| && start <= |payload|
    requires Ascending(bounds) && forall i :: k <= i < |bounds| ==> start <= bounds[i] <= |payload|
    decreases |bounds| - k
  {
    if k == |bounds| then []
    else Record(prefix, payload[start..bounds[k]]) + Framed(prefix, payload, bounds, k + 1, bounds[k])
  }

  lemma {:induction false} BoundsAscend(splits: seq<nat>, n: nat)
    requires Ascending(splits) && forall x :: x in splits ==> 1 <= x < n
    ensures Ascending(splits + [n])
    ensures forall i :: 0 <= i < |splits + [n]| ==> 0 <= (splits + [n])[i] <= n
    ensures n > 0 ==> forall i :: 0 <= i < |splits + [n]| ==> 0 < (splits + [n])[i]
  {
    forall i | 0 <= i < |splits| ensures 1 <= splits[i] < n {
      assert splits[i] in splits;
    }
  }

  /** The payload re-framed at the given cuts. */
  function Split(prefix: seq<Byte>, payload: seq<Byte>, splits: seq<nat>): seq<Byte>
    requires |payload| < 0x1_0000
    requires Ascending(splits) && forall x :: x in splits ==> 1 <= x < |payload|
  {
    BoundsAscend(splits, |payload|);
    Framed(prefix, payload, splits + [|payload|], 0, 0)
  }

  function Flattened(writes: seq<seq<Byte>>): seq<Byte> {
    if writes == [] then [] else Flattened(writes[..|writes| - 1]) + writes[|writes| - 1]
  }

  lemma {:induction false} FlattenedAppend(writes: seq<seq<Byte>>, w: seq<Byte>)
    ensures Flattened(writes + [w]) == Flattened(writes) + w
  {
    assert (writes + [w])[..|writes|] == writes;
  }

  /** One payload in one write, or in pieces of `chunk` bytes. */
  method WritePayload(writes: seq<seq<Byte>>, payload: seq<Byte>, chunk: nat) returns (out: seq<seq<Byte>>)
    ensures Flattened(out) == Flattened(writes) + payload
  {
    if chunk == 0 {
      FlattenedAppend(writes, payload);
      return writes + [payload];
    }
    out := writes;
    var offset := 0;
    while offset < |payload|
      invariant offset <= |payload| && Flattened(out) == Flattened(writes) + payload[..offset]
      decreases |payload| - offset
    {
      var piece := if chunk <= |payload| - offset then chunk else |payload| - offset;
      FlattenedAppend(out, payload[offset..offset + piece]);
      assert payload[..offset] + payload[offset..offset + piece] == payload[..offset + piece];
      out := out + [payload[offset..offset + piece]];
      offset := offset + piece;
    }
    assert payload[..offset] == payload;
  }

  method WriteRecord(writes: seq<seq<Byte>>, prefix: seq<Byte>, payload: seq<Byte>, chunk: nat)
    returns (out: seq<seq<Byte>>)
    requires |payload| < 0x1_0000 && |prefix| == 3
    ensures Flattened(out) == Flattened(writes) + Record(prefix, payload)
  {
    var header := [prefix[0], prefix[1], prefix[2], |payload| / 256, |payload| % 256];
    FlattenedAppend(writes, header);
    out := WritePayload(writes + [header], payload, chunk);
    assert header == prefix + Put16(|payload|);
    assert Flattened(out) == Flattened(writes) + (header + payload);
  }

  /** The sends of one fragmented hello, all of which succeed. */
  method WriteFragmented(buffer: seq<Byte>, payloadLength: nat, plan: Plan) returns (writes: seq<seq<Byte>>)
    requires RECORD_HEADER + payloadLength <= |buffer| && payloadLength < 0x1_0000
    requires Ascending(plan.recordSplits) && forall x :: x in plan.recordSplits ==> 1 <= x < payloadLength
    ensures Flattened(writes) == Split(buffer[..3], buffer[5..5 + payloadLength], plan.recordSplits)
  {
    var payload := buffer[5..5 + payloadLength];
    var bounds := plan.recordSplits + [payloadLength];
    BoundsAscend(plan.recordSplits, payloadLength);
    writes := [];
    var start := 0;
    for k := 0 to |bounds|
      invariant start <= payloadLength && forall i :: k <= i < |bounds| ==> start <= bounds[i] <= payloadLength
      invariant Split(buffer[..3], payload, plan.recordSplits) ==
        Flattened(writes) + Framed(buffer[..3], payload, bounds, k, start)
    {
      var end := bounds[k];
      ghost var before := Flattened(writes);
      writes := WriteRecord(writes, buffer[..3], payload[start..end], plan.writeChunk);
      AppendFramed(before, buffer[..3], payload, bounds, k, start);
      start := end;
    }
  }

  lemma {:induction false} AppendFramed(
    before: seq<Byte>, prefix: seq<Byte>, payload: seq<Byte>, bounds: seq<nat>, k: nat, start: nat)
    requires |payload| < 0x1_0000 && k < |bounds| && start <= |payload|
    requires Ascending(bounds) && forall i :: k <= i < |bounds| ==> start <= bounds[i] <= |payload|
    ensures before + Framed(prefix, payload, bounds, k, start)
         == (before + Record(prefix, payload[start..bounds[k]])) + Framed(prefix, payload, bounds, k + 1, bounds[k])
  {
  }

  // ---- the receiving record layer ----

  datatype TlsRecord = TlsRecord(prefix: seq<Byte>, payload: seq<Byte>)

  /** Decodes a byte stream into records of 1 to 2^14 bytes; None if it is not a whole number of them. */
  function Decoded(bytes: seq<Byte>): (records: Option<seq<TlsRecord>>)
  {
    if bytes == [] then Some([])
    else if |bytes| < RECORD_HEADER then None
    else
      var length := Read16(bytes, 3);
      if length == 0 || length > MAX_RECORD_PAYLOAD || |bytes| < RECORD_HEADER + length then None
      else
        var rest := Decoded(bytes[5 + length..]);
        if rest.None? then None
        else Some([TlsRecord(bytes[..3], bytes[5..5 + length])] + rest.value)
  }

  /** The records a framing is meant to be. */
  function Pieces(
    prefix: seq<Byte>, payload: seq<Byte>, bounds: seq<nat>, k: nat, start: nat): (records: seq<TlsRecord>)
    requires k <= |bounds| && start <= |payload|
    requires Ascending(bounds) && forall i :: k <= i < |bounds| ==> start <= bounds[i] <= |payload|
    decreases |bounds| - k
  {
    if k == |bounds| then []
    else [TlsRecord(prefix, payload[start..bounds[k]])] + Pieces(prefix, payload, bounds, k + 1, bounds[k])
  }

  function Payloads(records: seq<TlsRecord>): seq<Byte> {
    if records == [] then [] else records[0].payload + Payloads(records[1..])
  }

  lemma {:induction false} DecodeOne(prefix: seq<Byte>, payload: seq<Byte>, rest: seq<Byte>)
    requires |prefix| == 3 && 0 < |payload| <= MAX_RECORD_PAYLOAD
    ensures var r := Decoded(rest);
      Decoded(Record(prefix, payload) + rest) == if r.None? then None else Some([TlsRecord(prefix, payload)] + r.value)
  {
    var bytes := Record(prefix, payload) + rest;
    assert bytes[3] == |payload| / 256 && bytes[4] == |payload| % 256;
    assert bytes[..3] == prefix;
    assert bytes[5..5 + |payload|] == payload;
    assert bytes[5 + |payload|..] == rest;
  }

  /** Sending and receiving are inverse: the framing decodes into exactly the intended pieces. */
  lemma {:induction false} FramedDecodes(prefix: seq<Byte>, payload: seq<Byte>, bounds: seq<nat>, k: nat, start: nat)
    requires |prefix| == 3 && |payload| <= MAX_RECORD_PAYLOAD && k <= |bounds| && start <= |payload|
    requires Ascending(bounds) && forall i :: k <= i < |bounds| ==> start < bounds[i] <= |payload|
    ensures Decoded(Framed(prefix, payload, bounds, k, start)) == Some(Pieces(prefix, payload, bounds, k, start))
    decreases |bounds| - k
  {
    if k < |bounds| {
      FramedDecodes(prefix, payload, bounds, k + 1, bounds[k]);
      DecodeOne(prefix, payload[start..bounds[k]], Framed(prefix, payload, bounds, k + 1, bounds[k]));
    }
  }

  lemma {:induction false} PiecesConcatenate(
    prefix: seq<Byte>, payload: seq<Byte>, bounds: seq<nat>, k: nat, start: nat)
    requires k < |bounds| && bounds[|bounds| - 1] == |payload|
    requires Ascending(bounds) && forall i :: k <= i < |bounds| ==> start < bounds[i] <= |payload|
    ensures Payloads(Pieces(prefix, payload, bounds, k, start)) == payload[start..]
    decreases |bounds| - k
  {
    var rest := Pieces(prefix, payload, bounds, k + 1, bounds[k]);
    var first := TlsRecord(prefix, payload[start..bounds[k]]);
    assert ([first] + rest)[1..] == rest;
    if k + 1 < |bounds| {
      PiecesConcatenate(prefix, payload, bounds, k + 1, bounds[k]);
      assert payload[start..bounds[k]] + payload[bounds[k]..] == payload[start..];
    } else {
      assert payload[start..bounds[k]] == payload[start..];
    }
  }

  /** Record `i` carries the payload between two neighbouring boundaries. */
  lemma {:induction false} PieceAt(prefix: seq<Byte>, payload: seq<Byte>, bounds: seq<nat>, k: nat, start: nat, i: nat)
    requires k <= |bounds| && start <= |payload| && i < |bounds| - k
    requires Ascending(bounds) && forall j :: k <= j < |bounds| ==> start < bounds[j] <= |payload|
    ensures var pieces := Pieces(prefix, payload, bounds, k, start);
      var from := if i == 0 then start else bounds[k + i - 1];
      |pieces| == |bounds| - k && pieces[i] == TlsRecord(prefix, payload[from..bounds[k + i]])
    decreases |bounds| - k
  {
    if k + 1 < |bounds| {
      PieceAt(prefix, payload, bounds, k + 1, bounds[k], if i == 0 then 0 else i - 1);
    }
  }

  // ---- the theorems ----

  lemma {:induction false} PlanCutsInside(name: string, hello: ClientHello, delay: nat)
    requires BuildPlan(name, hello, delay).Some?
    ensures var splits := BuildPlan(name, hello, delay).value.recordSplits;
      Ascending(splits) && forall x :: x in splits ==> 1 <= x < hello.recordPayloadLength
  {
    var cuts := ProfileCuts(name, SniStart(hello), hello.sniLength);
    if cuts.Some? { SanitizedIsExact(cuts.value, hello.recordPayloadLength); }
  }

  /** For every hello that parses and every plan that splits it, the record layer gets the same handshake bytes. */
  lemma {:induction false} SplitHelloReassembles(buffer: seq<Byte>, name: string, delay: nat, plan: Plan)
    requires Parse(buffer).status == Ok
    requires BuildPlan(name, Parse(buffer).hello, delay) == Some(plan) && plan.recordSplits != []
    ensures var hello := Parse(buffer).hello;
      && hello.recordTotalLength <= |buffer| && hello.recordTotalLength == RECORD_HEADER + hello.recordPayloadLength
      && hello.recordPayloadLength < 0x1_0000
      && Ascending(plan.recordSplits) && (forall x :: x in plan.recordSplits ==> 1 <= x < hello.recordPayloadLength)
      && var records := Decoded(Split(buffer[..3], buffer[5..hello.recordTotalLength], plan.recordSplits));
      && records.Some? && |records.value| == |plan.recordSplits| + 1
      && Payloads(records.value) == buffer[5..hello.recordTotalLength]
      && forall r :: r in records.value ==> r.prefix == buffer[..3] && r.payload != []
  {
    ParsedHelloDescribesRecord(buffer);
    var hello := Parse(buffer).hello;
    PlanCutsInside(name, hello, delay);
    SplitReassembles(buffer[..3], buffer[5..hello.recordTotalLength], plan.recordSplits);
  }

  lemma {:induction false} SplitReassembles(prefix: seq<Byte>, payload: seq<Byte>, splits: seq<nat>)
    requires |prefix| == 3 && 0 < |payload| <= MAX_RECORD_PAYLOAD
    requires Ascending(splits) && forall x :: x in splits ==> 1 <= x < |payload|
    ensures var records := Decoded(Split(prefix, payload, splits));
      && records.Some? && |records.value| == |splits| + 1
      && Payloads(records.value) == payload
      && forall r :: r in records.value ==> r.prefix == prefix && r.payload != []
  {
    var bounds := splits + [|payload|];
    BoundsAscend(splits, |payload|);
    FramedDecodes(prefix, payload, bounds, 0, 0);
    PiecesConcatenate(prefix, payload, bounds, 0, 0);
    assert payload[0..] == payload;
    PiecesAreFull(prefix, payload, bounds, 0, 0);
  }

  lemma {:induction false} PiecesAreFull(prefix: seq<Byte>, payload: seq<Byte>, bounds: seq<nat>, k: nat, start: nat)
    requires k <= |bounds| && start <= |payload|
    requires Ascending(bounds) && forall j :: k <= j < |bounds| ==> start < bounds[j] <= |payload|
    ensures var pieces := Pieces(prefix, payload, bounds, k, start);
      |pieces| == |bounds| - k && forall r :: r in pieces ==> r.prefix == prefix && r.payload != []
    decreases |bounds| - k
  {
    if k < |bounds| { PiecesAreFull(prefix, payload, bounds, k + 1, bounds[k]); }
  }

  predicate CutsInsideName(name: string) {
    name == "sni-mid" || name == "sni-mid-slow" || name == "sni-multi"
  }

  /** No stretch between neighbouring boundaries covers `lo..hi` if some boundary lies strictly inside it. */
  lemma {:induction false} BoundarySeparates(bounds: seq<nat>, cut: nat, lo: nat, hi: nat, i: nat)
    requires Ascending(bounds) && cut in bounds && lo < cut < hi && i < |bounds|
    ensures !(StretchBegin(bounds, i) <= lo && hi <= bounds[i])
  {
    var c :| 0 <= c < |bounds| && bounds[c] == cut;
    assert i <= c ==> bounds[i] <= cut;
    assert c < i ==> cut <= bounds[i - 1];
  }

  /** A profile that aims inside the hostname always applies to a name of two or more bytes, and cuts it. */
  lemma {:induction false} AimedPlanCutsName(name: string, hello: ClientHello, delay: nat)
    requires CutsInsideName(name) && !hello.spansRecords && hello.sniLength >= 2
    requires hello.sniOffset >= 9 && SniStart(hello) + hello.sniLength <= hello.recordPayloadLength
    ensures BuildPlan(name, hello, delay).Some?
    ensures SniStart(hello) + hello.sniLength / 2 in BuildPlan(name, hello, delay).value.recordSplits
  {
    var begin := SniStart(hello);
    var middle := begin + hello.sniLength / 2;
    var cuts := ProfileCuts(name, begin, hello.sniLength).value;
    assert cuts[if name == "sni-multi" then 2 else 0] == middle;
    assert middle in cuts;
    SanitizedIsExact(cuts, hello.recordPayloadLength);
    SplittingProfileExists(name);
  }

  /** The stretch of the payload that record `i` carries begins here. */
  function StretchBegin(bounds: seq<nat>, i: nat): nat
    requires i < |bounds|
  {
    if i == 0 then 0 else bounds[i - 1]
  }

  /**
    Under the profiles that aim inside the hostname, a name of two or more bytes never lies whole in
    one record: every record's stretch of the payload misses its first or its last byte.
   */
  lemma {:induction false} HostnameIsNeverWhole(buffer: seq<Byte>, name: string, delay: nat, i: nat)
    requires Parse(buffer).status == Ok && CutsInsideName(name)
    requires !Parse(buffer).hello.spansRecords && Parse(buffer).hello.sniLength >= 2
    ensures var hello := Parse(buffer).hello;
      && hello.recordTotalLength <= |buffer| && BuildPlan(name, hello, delay).Some?
      && var splits := BuildPlan(name, hello, delay).value.recordSplits;
         var bounds := splits + [hello.recordPayloadLength];
         i < |bounds| ==>
           && Ascending(splits) && hello.recordTotalLength == 5 + hello.recordPayloadLength < 0x1_0000
           && (forall x :: x in splits ==> 1 <= x < hello.recordPayloadLength)
           && var payload := buffer[5..hello.recordTotalLength];
              var records := Decoded(Split(buffer[..3], payload, splits));
           && records.Some? && i < |records.value|
           && StretchBegin(bounds, i) <= bounds[i] <= |payload|
           && records.value[i].payload == payload[StretchBegin(bounds, i)..bounds[i]]
           && !(StretchBegin(bounds, i) <= hello.sniOffset - 5 && hello.sniOffset - 5 + hello.sniLength <= bounds[i])
  {
    ParsedHelloDescribesRecord(buffer);
    var hello := Parse(buffer).hello;
    AimedPlanCutsName(name, hello, delay);
    PlanCutsInside(name, hello, delay);
    var splits := BuildPlan(name, hello, delay).value.recordSplits;
    var bounds := splits + [hello.recordPayloadLength];
    if i < |bounds| {
      BoundsAscend(splits, hello.recordPayloadLength);
      var begin := SniStart(hello);
      BoundarySeparates(bounds, begin + hello.sniLength / 2, begin, begin + hello.sniLength, i);
      RecordStretch(buffer[..3], buffer[5..hello.recordTotalLength], splits, i);
    }
  }

  lemma {:induction false} RecordStretch(prefix: seq<Byte>, payload: seq<Byte>, splits: seq<nat>, i: nat)
    requires |prefix| == 3 && 0 < |payload| <= MAX_RECORD_PAYLOAD && i <= |splits|
    requires Ascending(splits) && forall x :: x in splits ==> 1 <= x < |payload|
    ensures var records := Decoded(Split(prefix, payload, splits));
      var bounds := splits + [|payload|];
      && records.Some? && |records.value| == |bounds|
      && StretchBegin(bounds, i) <= bounds[i] <= |payload|
      && records.value[i].payload == payload[StretchBegin(bounds, i)..bounds[i]]
  {
    var bounds := splits + [|payload|];
    BoundsAscend(splits, |payload|);
    FramedDecodes(prefix, payload, bounds, 0, 0);
    PieceAt(prefix, payload, bounds, 0, 0, i);
  }

  lemma {:induction false} SplittingProfileExists(name: string)
    requires CutsInsideName(name)
    ensures FindProfile(name).Some? && name != "none" && !StartsWith(name, "packet-")
  {
    var at := if name == "sni-mid" then 1 else if name == "sni-multi" then 9 else 11;
    assert PROFILES[at].name == name;
    assert name[0] == 's';
    FoundAtLatest(name, 0, at);
  }

  lemma {:induction false} FoundAtLatest(name: string, from: nat, at: nat)
    requires from <= at < |PROFILES| && PROFILES[at].name == name
    ensures FindProfile(name, from).Some?
    decreases at - from
  {
    if from < at && PROFILES[from].name != name { FoundAtLatest(name, from + 1, at); }
  }
}
