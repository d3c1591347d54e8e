/**
  What a ClientHello and a server's first flight are, told by where their records, vectors and extensions
  start.

  Main results, for every byte string: the first flight is a ServerHello, an alert or unexpected exactly when
  complete change_cipher_spec records lead to a record that decides so, and undecided exactly when they lead
  to an incomplete one; a complete ClientHello record is well formed exactly when its vectors and a chain of
  extensions fill it; encrypted ClientHello is found exactly when an extension of the chain announces it; and
  the host name is that of the first extension whose list holds one.
 */
module HelloGrammar {
  import opened Bytes
  import opened TlsHello

  // ---- records ----

  /** A record header stands at `p`, of TLS and with a length that a record may have. */
  predicate HeaderAt(d: seq<Byte>, p: nat) {
    p + 5 <= |d| && d[p + 1] == 3 && 1 <= Read16(d, p + 3) <= 16384
  }

  /** A complete record of this type stands at `p` and ends at `next`. */
  predicate RecordAt(d: seq<Byte>, p: nat, kind: Byte, next: nat) {
    HeaderAt(d, p) && d[p] == kind && next == p + 5 + Read16(d, p + 3) <= |d|
  }

  /** From the start, complete change_cipher_spec records lead to the last of these places. */
  ghost predicate LeadsTo(d: seq<Byte>, starts: seq<nat>) {
    && |starts| > 0 && starts[0] == 0 && starts[|starts| - 1] <= |d|
    && forall i :: 0 <= i < |starts| - 1 ==> RecordAt(d, starts[i], 20, starts[i + 1])
  }

  ghost predicate Follows(d: seq<Byte>, starts: seq<nat>, from: nat) {
    && |starts| > 0 && starts[0] == from && starts[|starts| - 1] <= |d|
    && forall i :: 0 <= i < |starts| - 1 ==> RecordAt(d, starts[i], 20, starts[i + 1])
  }

  /** A record that decides for a ServerHello, for an alert, or for something else. */
  predicate HelloDecides(d: seq<Byte>, p: nat) {
    p + 5 <= |d| && RecordAt(d, p, 22, p + 5 + Read16(d, p + 3)) && Read16(d, p + 3) >= 4 && d[p + 5] == 2
  }

  predicate AlertDecides(d: seq<Byte>, p: nat) {
    p + 5 <= |d| && RecordAt(d, p, 21, p + 5 + Read16(d, p + 3))
  }

  predicate OtherDecides(d: seq<Byte>, p: nat) {
    && p + 5 <= |d|
    && (|| !HeaderAt(d, p)
        || (&& p + 5 + Read16(d, p + 3) <= |d| && d[p] != 20 && d[p] != 21
            && !(d[p] == 22 && Read16(d, p + 3) >= 4 && d[p + 5] == 2)))
  }

  /** Too little to decide: no whole header, or a proper header with part of its record. */
  predicate Incomplete(d: seq<Byte>, p: nat) {
    |d| < p + 5 || (HeaderAt(d, p) && |d| < p + 5 + Read16(d, p + 3))
  }

  lemma {:induction false} ClassifiedBehind(d: seq<Byte>, starts: seq<nat>, from: nat)
    requires from <= |d| && Follows(d, starts, from)
    ensures Classified(d, from) == Classified(d, starts[|starts| - 1])
    decreases |starts|
  {
    if |starts| > 1 {
      assert RecordAt(d, starts[0], 20, starts[1]);
      var rest := starts[1..];
      forall i | 0 <= i < |rest| - 1 ensures RecordAt(d, rest[i], 20, rest[i + 1]) {
        assert RecordAt(d, starts[i + 1], 20, starts[i + 2]);
      }
      ClassifiedBehind(d, rest, starts[1]);
    }
  }

  /** The records behind which the decision falls. */
  lemma {:induction false} DecisionIsReached(d: seq<Byte>, from: nat) returns (starts: seq<nat>)
    requires from <= |d|
    ensures Follows(d, starts, from)
    ensures var p := starts[|starts| - 1];
      HelloDecides(d, p) || AlertDecides(d, p) || OtherDecides(d, p) || Incomplete(d, p)
    decreases |d| - from
  {
    if from + 5 <= |d| && RecordAt(d, from, 20, from + 5 + Read16(d, from + 3)) {
      var rest := DecisionIsReached(d, from + 5 + Read16(d, from + 3));
      starts := [from] + rest;
      forall i | 0 <= i < |starts| - 1 ensures RecordAt(d, starts[i], 20, starts[i + 1]) {
        if i > 0 { assert RecordAt(d, rest[i - 1], 20, rest[i]); }
      }
    } else {
      starts := [from];
    }
  }

  lemma {:induction false} DecidedThere(d: seq<Byte>, p: nat)
    requires p <= |d|
    ensures HelloDecides(d, p) ==> Classified(d, p) == ServerHello
    ensures AlertDecides(d, p) ==> Classified(d, p) == Alert
    ensures OtherDecides(d, p) ==> Classified(d, p) == Unexpected
    ensures Incomplete(d, p) ==> Classified(d, p) == AwaitMore
  {
  }

  /** The class of a first flight is that of the record that complete change_cipher_spec records lead to. */
  lemma {:induction false} ClassifiedExactly(d: seq<Byte>)
    ensures Classified(d, 0) == ServerHello <==>
      exists starts :: LeadsTo(d, starts) && HelloDecides(d, starts[|starts| - 1])
    ensures Classified(d, 0) == Alert <==>
      exists starts :: LeadsTo(d, starts) && AlertDecides(d, starts[|starts| - 1])
    ensures Classified(d, 0) == Unexpected <==>
      exists starts :: LeadsTo(d, starts) && OtherDecides(d, starts[|starts| - 1])
    ensures Classified(d, 0) == AwaitMore <==>
      exists starts :: LeadsTo(d, starts) && Incomplete(d, starts[|starts| - 1])
  {
    forall starts | LeadsTo(d, starts) ensures Classified(d, 0) == Classified(d, starts[|starts| - 1]) {
      ClassifiedBehind(d, starts, 0);
    }
    forall p: nat | p <= |d|
      ensures HelloDecides(d, p) ==> Classified(d, p) == ServerHello
      ensures AlertDecides(d, p) ==> Classified(d, p) == Alert
      ensures OtherDecides(d, p) ==> Classified(d, p) == Unexpected
      ensures Incomplete(d, p) ==> Classified(d, p) == AwaitMore
    {
      DecidedThere(d, p);
    }
    var starts := DecisionIsReached(d, 0);
    assert LeadsTo(d, starts);
  }

  // ---- the status of a ClientHello ----

  /** Every byte so far is what a TLS handshake record starts with. */
  predicate MayBeHandshake(d: seq<Byte>) {
    (|d| >= 1 ==> d[0] == 22) && (|d| >= 2 ==> d[1] == 3)
  }

  predicate WholeRecord(d: seq<Byte>) {
    |d| >= 5 && RecordAt(d, 0, 22, 5 + Read16(d, 3))
  }

  /** Where the handshake message ends, by its own length. */
  function MessageEnd(d: seq<Byte>): nat
    requires |d| >= 9
  {
    9 + d[6] as int * 65536 + d[7] as int * 256 + d[8] as int
  }

  /** More is needed exactly while the bytes may become a record that is not yet complete. */
  lemma {:induction false} NeedsMoreExactly(d: seq<Byte>)
    ensures Parse(d).status == NeedMore <==>
      MayBeHandshake(d) && (|d| < 5 || (1 <= Read16(d, 3) <= 16384 && |d| < 5 + Read16(d, 3)))
  {
    if WholeRecord(d) && Read16(d, 3) >= 4 { RecordDecides(d); }
  }

  /** It is another protocol exactly when the record is no handshake, or its message is no ClientHello. */
  lemma {:induction false} NotTlsExactly(d: seq<Byte>)
    ensures Parse(d).status == NotTls <==>
      !MayBeHandshake(d) || (WholeRecord(d) && Read16(d, 3) >= 4 && d[5] != 1)
  {
    if WholeRecord(d) && Read16(d, 3) >= 4 { RecordDecides(d); }
  }

  /** It spans records exactly when its message is longer than the record. */
  lemma {:induction false} SpansExactly(d: seq<Byte>)
    ensures Parse(d).status == Ok && Parse(d).hello.spansRecords <==>
      WholeRecord(d) && Read16(d, 3) >= 4 && d[5] == 1 && MessageEnd(d) > 5 + Read16(d, 3)
  {
    if WholeRecord(d) && Read16(d, 3) >= 4 { RecordDecides(d); }
  }

  predicate Flat(r: Parsed) {
    !r.hello.spansRecords && (r.status == Ok || r.status == Malformed)
  }

  lemma {:induction false} RecordDecides(d: seq<Byte>)
    requires WholeRecord(d) && Read16(d, 3) >= 4
    ensures d[5] != 1 ==> Parse(d).status == NotTls
    ensures d[5] == 1 && MessageEnd(d) > 5 + Read16(d, 3) ==> Parse(d).status == Ok && Parse(d).hello.spansRecords
    ensures d[5] == 1 && MessageEnd(d) <= 5 + Read16(d, 3) ==> Flat(Parse(d))
  {
    var hello := NO_HELLO.(recordPayloadLength := Read16(d, 3), recordTotalLength := 5 + Read16(d, 3));
    if d[5] == 1 && MessageEnd(d) <= 5 + Read16(d, 3) {
      var pos := FixedPartEnd(d, 9, MessageEnd(d));
      if 0 <= pos < MessageEnd(d) && MessageEnd(d) - pos >= 2 && Read16(d, pos) <= MessageEnd(d) - pos - 2 {
        BlockIsFlat(d, pos + 2, pos + 2 + Read16(d, pos), hello);
      }
    }
  }

  lemma {:induction false} BlockIsFlat(d: seq<Byte>, pos: nat, end: nat, hello: ClientHello)
    requires pos <= end <= |d| && !hello.spansRecords
    ensures Flat(ExtensionBlock(d, pos, end, hello))
    decreases end - pos
  {
    if end - pos >= 4 && Read16(d, pos + 2) <= end - pos - 4 {
      var next := pos + 4 + Read16(d, pos + 2);
      ExtensionIsFlat(d, Read16(d, pos), pos + 4, next, hello);
      BlockIsFlat(d, next, end, WithExtension(d, Read16(d, pos), pos + 4, next, hello));
    }
  }

  lemma {:induction false} ExtensionIsFlat(d: seq<Byte>, kind: nat, start: nat, end: nat, hello: ClientHello)
    requires start <= end <= |d| && !hello.spansRecords
    ensures !WithExtension(d, kind, start, end, hello).spansRecords
  {
    if end - start >= 2 && Read16(d, start) <= end - start - 2 {
      NamesAreFlat(d, start + 2, start + 2 + Read16(d, start), hello);
    }
  }

  lemma {:induction false} NamesAreFlat(d: seq<Byte>, pos: nat, end: nat, hello: ClientHello)
    requires pos <= end <= |d| && !hello.spansRecords
    ensures !FirstHostName(d, pos, end, hello).spansRecords
    decreases end - pos
  {
    if end - pos >= 3 && Read16(d, pos + 1) <= end - pos - 3 {
      NamesAreFlat(d, pos + 3 + Read16(d, pos + 1), end, hello);
    }
  }

  // ---- a hello in one record ----

  /** A complete record with a whole ClientHello message. */
  predicate OneHello(d: seq<Byte>) {
    WholeRecord(d) && Read16(d, 3) >= 4 && d[5] == 1 && MessageEnd(d) <= 5 + Read16(d, 3)
  }

  /** Version, random, session id, cipher suites and compression methods fill the message up to `x`. */
  predicate VectorsTo(d: seq<Byte>, suites: nat, compression: nat, x: nat)
    requires OneHello(d)
  {
    && 44 <= suites && suites + 2 <= compression < x <= MessageEnd(d)
    && suites == 44 + d[43] as int
    && compression == suites + 2 + Read16(d, suites)
    && x == compression + 1 + d[compression] as int
  }

  /** An extension stands at `p` and the next one at `next`. */
  predicate ExtensionAt(d: seq<Byte>, p: nat, next: nat) {
    p + 4 <= next <= |d| && next == p + 4 + Read16(d, p + 2)
  }

  /** The extensions behind the vectors: where each starts, and last where the block ends. */
  ghost predicate Extended(d: seq<Byte>, x: nat, starts: seq<nat>)
    requires OneHello(d)
  {
    && x + 2 <= MessageEnd(d) && |starts| > 0 && starts[0] == x + 2
    && starts[|starts| - 1] == x + 2 + Read16(d, x) <= MessageEnd(d)
    && forall i :: 0 <= i < |starts| - 1 ==> ExtensionAt(d, starts[i], starts[i + 1])
  }

  lemma {:induction false} VectorsExactly(d: seq<Byte>, suites: nat, compression: nat, x: nat)
    requires OneHello(d)
    ensures VectorsTo(d, suites, compression, x) ==> FixedPartEnd(d, 9, MessageEnd(d)) == x
  {
  }

  lemma {:induction false} VectorsAreThere(d: seq<Byte>) returns (suites: nat, compression: nat, x: nat)
    requires OneHello(d) && FixedPartEnd(d, 9, MessageEnd(d)) >= 0
    ensures VectorsTo(d, suites, compression, x) && x == FixedPartEnd(d, 9, MessageEnd(d))
  {
    suites := 44 + d[43] as int;
    compression := suites + 2 + Read16(d, suites);
    x := compression + 1 + d[compression] as int;
  }

  ghost predicate ChainFrom(d: seq<Byte>, starts: seq<nat>, pos: nat, end: nat) {
    && |starts| > 0 && starts[0] == pos && starts[|starts| - 1] == end <= |d|
    && forall i :: 0 <= i < |starts| - 1 ==> ExtensionAt(d, starts[i], starts[i + 1])
  }

  lemma {:induction false} ChainTail(d: seq<Byte>, starts: seq<nat>, pos: nat, end: nat)
    requires |starts| > 1 && ChainFrom(d, starts, pos, end)
    ensures ExtensionAt(d, pos, starts[1]) && ChainFrom(d, starts[1..], starts[1], end)
  {
    var rest := starts[1..];
    forall i | 0 <= i < |rest| - 1 ensures ExtensionAt(d, rest[i], rest[i + 1]) {
      assert ExtensionAt(d, starts[i + 1], starts[i + 2]);
    }
  }

  lemma {:induction false} ChainAscends(d: seq<Byte>, starts: seq<nat>, pos: nat, end: nat)
    requires ChainFrom(d, starts, pos, end)
    ensures pos <= end && (|starts| > 1 ==> pos < starts[1] <= end)
    decreases |starts|
  {
    if |starts| > 1 {
      ChainTail(d, starts, pos, end);
      ChainAscends(d, starts[1..], starts[1], end);
    }
  }

  /** A block that is read is a chain. */
  lemma {:induction false} BlockIsChain(d: seq<Byte>, pos: nat, end: nat, hello: ClientHello) returns (starts: seq<nat>)
    requires pos <= end <= |d| && ExtensionBlock(d, pos, end, hello).status == Ok
    ensures ChainFrom(d, starts, pos, end)
    decreases end - pos
  {
    if pos == end {
      starts := [pos];
    } else {
      var next := pos + 4 + Read16(d, pos + 2);
      var rest := BlockIsChain(d, next, end, WithExtension(d, Read16(d, pos), pos + 4, next, hello));
      starts := [pos] + rest;
      forall i | 0 <= i < |starts| - 1 ensures ExtensionAt(d, starts[i], starts[i + 1]) {
        if i > 0 { assert ExtensionAt(d, rest[i - 1], rest[i]); }
      }
    }
  }

  lemma {:induction false} ChainIsBlock(d: seq<Byte>, starts: seq<nat>, pos: nat, end: nat, hello: ClientHello)
    requires ChainFrom(d, starts, pos, end) && pos <= end
    ensures ExtensionBlock(d, pos, end, hello).status == Ok
    decreases |starts|
  {
    ChainAscends(d, starts, pos, end);
    if |starts| > 1 {
      ChainTail(d, starts, pos, end);
      ChainIsBlock(d, starts[1..], starts[1], end, WithExtension(d, Read16(d, pos), pos + 4, starts[1], hello));
    }
  }

  /** The record of the hello, before its extensions are read. */
  function Bare(d: seq<Byte>): ClientHello
    requires |d| >= 5
  {
    NO_HELLO.(recordPayloadLength := Read16(d, 3), recordTotalLength := 5 + Read16(d, 3))
  }

  lemma {:induction false} ParseByParts(d: seq<Byte>)
    requires OneHello(d)
    ensures var x, end := FixedPartEnd(d, 9, MessageEnd(d)), MessageEnd(d);
      Parse(d) ==
        if x < 0 then Parsed(Malformed, Bare(d)) else if x == end then Parsed(Ok, Bare(d))
        else if x + 2 > end || x + 2 + Read16(d, x) > end then Parsed(Malformed, Bare(d))
        else ExtensionBlock(d, x + 2, x + 2 + Read16(d, x), Bare(d))
  {
  }

  /** The vectors fill the message, or a chain of extensions fills the block behind them. */
  ghost predicate WellFormed(d: seq<Byte>)
    requires OneHello(d)
  {
    exists suites: nat, compression: nat, x: nat ::
      VectorsTo(d, suites, compression, x) && (x == MessageEnd(d) || exists starts :: Extended(d, x, starts))
  }

  /** A whole ClientHello is read if and only if it is well formed. */
  lemma {:induction false} ReadExactly(d: seq<Byte>)
    requires OneHello(d)
    ensures Parse(d).status == if WellFormed(d) then Ok else Malformed
  {
    ParseByParts(d);
    RecordDecides(d);
    if Parse(d).status == Ok {
      var suites, compression, x := VectorsAreThere(d);
      if x < MessageEnd(d) {
        var starts := BlockIsChain(d, x + 2, x + 2 + Read16(d, x), Bare(d));
        assert Extended(d, x, starts);
      }
      assert VectorsTo(d, suites, compression, x);
    }
    if WellFormed(d) { WellFormedIsRead(d); }
  }

  lemma {:induction false} WellFormedIsRead(d: seq<Byte>)
    requires OneHello(d) && WellFormed(d)
    ensures Parse(d).status == Ok
  {
    var suites: nat, compression: nat, x: nat :|
      VectorsTo(d, suites, compression, x) && (x == MessageEnd(d) || exists starts :: Extended(d, x, starts));
    VectorsExactly(d, suites, compression, x);
    ParseByParts(d);
    if x < MessageEnd(d) {
      var starts :| Extended(d, x, starts);
      ChainIsBlock(d, starts, x + 2, x + 2 + Read16(d, x), Bare(d));
    }
  }

  // ---- what the extensions say ----

  /** Some extension of the chain announces an encrypted ClientHello. */
  ghost predicate Announces(d: seq<Byte>, starts: seq<nat>) {
    exists i :: 0 <= i < |starts| - 1 && KindIs(d, starts[i], 0xFE0D)
  }

  predicate KindIs(d: seq<Byte>, p: nat, kind: nat) {
    p + 2 <= |d| && Read16(d, p) == kind
  }

  lemma {:induction false} AnnouncesStep(d: seq<Byte>, starts: seq<nat>)
    requires |starts| > 1
    ensures Announces(d, starts) <==> KindIs(d, starts[0], 0xFE0D) || Announces(d, starts[1..])
  {
    var rest := starts[1..];
    if i :| 0 <= i < |starts| - 1 && KindIs(d, starts[i], 0xFE0D) {
      if i > 0 { assert KindIs(d, rest[i - 1], 0xFE0D); }
    }
    if i :| 0 <= i < |rest| - 1 && KindIs(d, rest[i], 0xFE0D) { assert KindIs(d, starts[i + 1], 0xFE0D); }
  }

  lemma {:induction false} NamesKeepEch(d: seq<Byte>, pos: nat, end: nat, hello: ClientHello)
    requires pos <= end <= |d|
    ensures FirstHostName(d, pos, end, hello).hasEch == hello.hasEch
    decreases end - pos
  {
    if end - pos >= 3 && Read16(d, pos + 1) <= end - pos - 3 {
      NamesKeepEch(d, pos + 3 + Read16(d, pos + 1), end, hello);
    }
  }

  lemma {:induction false} BlockFindsEch(d: seq<Byte>, starts: seq<nat>, pos: nat, end: nat, hello: ClientHello)
    requires ChainFrom(d, starts, pos, end) && pos <= end
    ensures ExtensionBlock(d, pos, end, hello).hello.hasEch <==> hello.hasEch || Announces(d, starts)
    decreases |starts|
  {
    ChainAscends(d, starts, pos, end);
    if |starts| > 1 {
      ChainTail(d, starts, pos, end);
      AnnouncesStep(d, starts);
      var next, start := starts[1], pos + 4;
      if next - start >= 2 && Read16(d, start) <= next - start - 2 {
        NamesKeepEch(d, start + 2, start + 2 + Read16(d, start), hello);
      }
      BlockFindsEch(d, starts[1..], next, end, WithExtension(d, Read16(d, pos), start, next, hello));
    }
  }

  /** An entry of a name list that is no host name stands at `p` and the next one at `next`. */
  predicate OtherName(d: seq<Byte>, p: nat, next: nat, end: nat) {
    p + 3 <= next <= end <= |d| && d[p] != 0 && next == p + 3 + Read16(d, p + 1)
  }

  /** From `pos` on, other entries lead to a host name of `length` bytes at `at`, all before `end`. */
  ghost predicate Listed(d: seq<Byte>, pos: nat, end: nat, entries: seq<nat>, at: nat, length: nat) {
    && |entries| > 0 && entries[0] == pos && end <= |d|
    && (forall i :: 0 <= i < |entries| - 1 ==> OtherName(d, entries[i], entries[i + 1], end))
    && entries[|entries| - 1] + 3 == at && at + length <= end && d[at - 3] == 0 && Read16(d, at - 2) == length
  }

  lemma {:induction false} ListedIsFirst(
    d: seq<Byte>, pos: nat, end: nat, entries: seq<nat>, at: nat, length: nat, hello: ClientHello)
    requires pos <= end && Listed(d, pos, end, entries, at, length)
    ensures FirstHostName(d, pos, end, hello) == Named(hello, d, at, length)
    decreases |entries|
  {
    if |entries| > 1 {
      assert OtherName(d, entries[0], entries[1], end);
      var rest := entries[1..];
      forall i | 0 <= i < |rest| - 1 ensures OtherName(d, rest[i], rest[i + 1], end) {
        assert OtherName(d, entries[i + 1], entries[i + 2], end);
      }
      ListedIsFirst(d, entries[1], end, rest, at, length, hello);
    }
  }

  lemma {:induction false} FirstIsListed(d: seq<Byte>, pos: nat, end: nat, hello: ClientHello)
    returns (found: bool, entries: seq<nat>, at: nat, length: nat)
    requires pos <= end <= |d|
    ensures found ==>
      Listed(d, pos, end, entries, at, length) && FirstHostName(d, pos, end, hello) == Named(hello, d, at, length)
    ensures !found ==> FirstHostName(d, pos, end, hello) == hello
    decreases end - pos
  {
    found, entries, at, length := false, [], 0, 0;
    if end - pos >= 3 && Read16(d, pos + 1) <= end - pos - 3 {
      var next := pos + 3 + Read16(d, pos + 1);
      if d[pos] == 0 {
        found, entries, at, length := true, [pos], pos + 3, Read16(d, pos + 1);
      } else {
        var rest;
        found, rest, at, length := FirstIsListed(d, next, end, hello);
        entries := [pos] + rest;
        forall i | 0 <= i < |entries| - 1 && found ensures OtherName(d, entries[i], entries[i + 1], end) {
          if i > 0 { assert OtherName(d, rest[i - 1], rest[i], end); }
        }
      }
    }
  }

  /** The extension from `p` to `next` is a server_name whose list leads to a host name that is not empty. */
  ghost predicate Names(d: seq<Byte>, p: nat, next: nat, at: nat, length: nat) {
    && p + 6 <= next <= |d| && KindIs(d, p, 0) && p + 6 + Read16(d, p + 4) <= next && length > 0
    && ListedIn(d, p + 6, p + 6 + Read16(d, p + 4), at, length)
  }

  ghost predicate ListedIn(d: seq<Byte>, pos: nat, end: nat, at: nat, length: nat) {
    exists entries :: Listed(d, pos, end, entries, at, length)
  }

  /** What one extension does to a hello without a name. */
  lemma {:induction false} ExtensionNames(d: seq<Byte>, p: nat, next: nat, hello: ClientHello)
    requires ExtensionAt(d, p, next) && !hello.HasSni()
    ensures var after := WithExtension(d, Read16(d, p), p + 4, next, hello);
      && (after.HasSni() ==> Names(d, p, next, after.sniOffset, after.sniLength))
      && forall at: nat, length: nat :: Names(d, p, next, at, length) ==> after == Named(hello, d, at, length)
  {
    if Read16(d, p) == 0 && p + 6 <= next && p + 6 + Read16(d, p + 4) <= next {
      var end := p + 6 + Read16(d, p + 4);
      var found, entries, at, length := FirstIsListed(d, p + 6, end, hello);
      forall at: nat, length: nat | Names(d, p, next, at, length)
        ensures FirstHostName(d, p + 6, end, hello) == Named(hello, d, at, length)
      {
        var entries :| Listed(d, p + 6, end, entries, at, length);
        ListedIsFirst(d, p + 6, end, entries, at, length, hello);
      }
    }
  }

  predicate SameName(a: ClientHello, b: ClientHello) {
    a.sniOffset == b.sniOffset && a.sniLength == b.sniLength && a.serverName == b.serverName
  }

  /** A name that was found stays. */
  lemma {:induction false} NameStays(d: seq<Byte>, pos: nat, end: nat, hello: ClientHello)
    requires pos <= end <= |d| && hello.HasSni()
    ensures SameName(ExtensionBlock(d, pos, end, hello).hello, hello)
    decreases end - pos
  {
    if end - pos >= 4 && Read16(d, pos + 2) <= end - pos - 4 {
      var next := pos + 4 + Read16(d, pos + 2);
      NameStays(d, next, end, WithExtension(d, Read16(d, pos), pos + 4, next, hello));
    }
  }

  /** Extension `i` of the chain is the first that names a host, and this is where. */
  ghost predicate FirstNamed(d: seq<Byte>, starts: seq<nat>, i: nat, at: nat, length: nat) {
    && i + 1 < |starts| && Names(d, starts[i], starts[i + 1], at, length)
    && forall j: nat :: j < i ==> Nameless(d, starts, j)
  }

  ghost predicate Nameless(d: seq<Byte>, starts: seq<nat>, j: nat)
    requires j + 1 < |starts|
  {
    var p, next := starts[j], starts[j + 1];
    forall at: nat, length: nat :: !Names(d, p, next, at, length)
  }

  lemma {:induction false} FirstNamedTail(d: seq<Byte>, starts: seq<nat>, i: nat, at: nat, length: nat)
    requires |starts| > 1 && i > 0 && FirstNamed(d, starts, i, at, length)
    ensures FirstNamed(d, starts[1..], i - 1, at, length)
  {
    forall j: nat | j < i - 1 ensures Nameless(d, starts[1..], j) { assert Nameless(d, starts, j + 1); }
  }

  lemma {:induction false} TailFirstNamed(d: seq<Byte>, starts: seq<nat>, i: nat, at: nat, length: nat)
    requires |starts| > 1 && FirstNamed(d, starts[1..], i, at, length) && Nameless(d, starts, 0)
    ensures FirstNamed(d, starts, i + 1, at, length)
  {
    forall j: nat | j < i + 1 ensures Nameless(d, starts, j) {
      if j > 0 { assert Nameless(d, starts[1..], j - 1); }
    }
  }

  /** The name of the block is that of the first extension that names a host. */
  lemma {:induction false} FirstNamedIsFound(
    d: seq<Byte>, starts: seq<nat>, pos: nat, end: nat, hello: ClientHello, i: nat, at: nat, length: nat)
    requires ChainFrom(d, starts, pos, end) && pos <= end && !hello.HasSni() && FirstNamed(d, starts, i, at, length)
    ensures at + length <= |d| && SameName(ExtensionBlock(d, pos, end, hello).hello, Named(hello, d, at, length))
    decreases |starts|
  {
    ChainAscends(d, starts, pos, end);
    ChainTail(d, starts, pos, end);
    var next := starts[1];
    var after := WithExtension(d, Read16(d, pos), pos + 4, next, hello);
    ExtensionNames(d, pos, next, hello);
    if i == 0 {
      NameStays(d, next, end, after);
    } else {
      assert Nameless(d, starts, 0);
      FirstNamedTail(d, starts, i, at, length);
      FirstNamedIsFound(d, starts[1..], next, end, after, i - 1, at, length);
    }
  }

  lemma {:induction false} FoundIsFirstNamed(d: seq<Byte>, starts: seq<nat>, pos: nat, end: nat, hello: ClientHello)
    returns (i: nat)
    requires ChainFrom(d, starts, pos, end) && pos <= end && !hello.HasSni()
    requires ExtensionBlock(d, pos, end, hello).hello.HasSni()
    ensures var found := ExtensionBlock(d, pos, end, hello).hello;
      FirstNamed(d, starts, i, found.sniOffset, found.sniLength)
    decreases |starts|
  {
    ChainAscends(d, starts, pos, end);
    if |starts| == 1 {
      assert false;
    }
    ChainTail(d, starts, pos, end);
    var next := starts[1];
    var after := WithExtension(d, Read16(d, pos), pos + 4, next, hello);
    ExtensionNames(d, pos, next, hello);
    if after.HasSni() {
      NameStays(d, next, end, after);
      i := 0;
    } else {
      assert Nameless(d, starts, 0);
      i := FoundIsFirstNamed(d, starts[1..], next, end, after);
      var found := ExtensionBlock(d, pos, end, hello).hello;
      TailFirstNamed(d, starts, i, found.sniOffset, found.sniLength);
      i := i + 1;
    }
  }

  /** A well-formed hello without extensions says nothing. */
  lemma {:induction false} NoExtensionsNoName(d: seq<Byte>, suites: nat, compression: nat)
    requires OneHello(d) && VectorsTo(d, suites, compression, MessageEnd(d))
    ensures Parse(d) == Parsed(Ok, Bare(d))
  {
    VectorsExactly(d, suites, compression, MessageEnd(d));
    ParseByParts(d);
  }

  /** Encrypted ClientHello and the host name are exactly what the extensions say. */
  lemma {:induction false} SaysExactly(d: seq<Byte>, suites: nat, compression: nat, x: nat, starts: seq<nat>)
    requires OneHello(d) && VectorsTo(d, suites, compression, x) && Extended(d, x, starts)
    ensures Parse(d).status == Ok
    ensures Parse(d).hello.hasEch <==> Announces(d, starts)
    ensures Parse(d).hello.HasSni() <==> exists i: nat, at: nat, length: nat :: FirstNamed(d, starts, i, at, length)
    ensures forall i: nat, at: nat, length: nat :: FirstNamed(d, starts, i, at, length) ==>
      at + length <= |d| && SameName(Parse(d).hello, Named(NO_HELLO, d, at, length))
  {
    VectorsExactly(d, suites, compression, x);
    ParseByParts(d);
    var pos, end, bare := x + 2, x + 2 + Read16(d, x), Bare(d);
    ChainIsBlock(d, starts, pos, end, bare);
    BlockFindsEch(d, starts, pos, end, bare);
    forall i: nat, at: nat, length: nat | FirstNamed(d, starts, i, at, length)
      ensures at + length <= |d| && SameName(Parse(d).hello, Named(NO_HELLO, d, at, length)) && length > 0
    {
      FirstNamedIsFound(d, starts, pos, end, bare, i, at, length);
    }
    if Parse(d).hello.HasSni() {
      var i := FoundIsFirstNamed(d, starts, pos, end, bare);
      assert FirstNamed(d, starts, i, Parse(d).hello.sniOffset, Parse(d).hello.sniLength);
    }
  }
}
