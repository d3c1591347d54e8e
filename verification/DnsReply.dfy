/**
  What the DNS proxy sends back for one datagram: an error for a query it cannot serve, an answer
  built from the resolver's addresses, or an answer relayed from the Worker, cut to fit a datagram.

  Main result: every reply is a walkable response with the request's identifier that fits the
  payload the client can take; an accepted query's reply repeats its question; and a datagram that
  is itself a response is never answered.
 */
module DnsReply {
  import opened Text
  import opened Bytes
  import opened DnsMessage
  import opened DnsQuery
  import opened DnsAnswer
  import opened QueryGrammar
  import opened WireCache

  const CLASSIC_PAYLOAD := 512
  const DEFAULT_TTL := 60

  /** What the address resolver found for a name. */
  datatype Resolved = Resolved(
    v4: seq<Address>, v6: seq<Address>, ttl: nat, allowWireFallback: bool, rcode: nat, transient: bool)
  {
    predicate Valid() {
      ParsedFor(TYPE_A, v4) && ParsedFor(TYPE_AAAA, v6) && ttl < 0x1_0000_0000
    }

    predicate Empty() {
      v4 == [] && v6 == []
    }

    function TtlOr(seconds: nat): nat {
      if ttl == 0 then seconds else ttl
    }
  }

  // ---- names ----

  /** A host name in the form names are compared in. */
  function HostForm(s: string): string {
    WithoutTrailingDots(seq(|s|, i requires 0 <= i < |s| => LowerChar(s[i])))
  }

  // ---- the payload a client can take ----

  function PayloadLimit(q: Query): (limit: nat)
    ensures limit >= CLASSIC_PAYLOAD && limit >= q.ednsPayload
  {
    if q.ednsPayload > CLASSIC_PAYLOAD then q.ednsPayload else CLASSIC_PAYLOAD
  }

  lemma {:induction false} CutKeepsEcho(d: seq<Byte>, e: seq<Byte>, keep: nat, question: seq<Byte>)
    requires HEADER <= keep <= |d| && Cut(d, e, keep, false) && EchoesQuestion(d, question)
    requires keep == HEADER + |question|
    ensures EchoesQuestion(e, question)
  {
    forall i | 0 <= i < |question| ensures Lower(e[HEADER..HEADER + |question|][i]) == Lower(question[i]) {
      var x := HEADER + i;
      assert e[HEADER..HEADER + |question|][i] == e[x] == d[x] == d[HEADER..HEADER + |question|][i];
    }
  }

  /** A reply cut to the client's payload is still a reply, and fits it. */
  lemma {:induction false} CutReplyIsReply(message: seq<Byte>, d: seq<Byte>)
    requires ReplyTo(message, d)
    ensures ReplyTo(message, Truncated(d, PayloadLimit(Parse(message).query)))
    ensures |Truncated(d, PayloadLimit(Parse(message).query))| <= PayloadLimit(Parse(message).query)
  {
    var q := Parse(message).query;
    var limit := PayloadLimit(q);
    if TooLong(d, limit) {
      TruncationIsWalkable(d, limit);
      EchoPinsQuestionEnd(message, d);
      CutHeaderBytes(d, Walk(d).questionEnd, false);
      CutKeepsEcho(d, Truncated(d, limit), Walk(d).questionEnd, q.question);
    }
  }

  /** A hand-built answer is never cut. */
  lemma {:induction false} BuiltAnswerIsNeverCut(
    message: seq<Byte>, addresses: seq<Address>, ttl: nat, failed: bool, rcode: nat)
    requires Parse(message).ok && Fits(Parse(message).query, addresses, ttl)
    ensures var q := Parse(message).query;
      var d := Answer(q, addresses, ttl, failed, rcode);
      ReplyTo(message, d) && Truncated(d, PayloadLimit(q)) == d
  {
    BuiltAnswerIsSound(message, addresses, ttl, failed, rcode);
  }

  // ---- the error for a refused query ----

  /** A refused query has an error exactly when its header could be read and is not a response. */
  lemma {:induction false} RefusedQuery(d: seq<Byte>)
    requires !Parse(d).ok
    ensures var q := Parse(d).query;
      && q.id < 0x1_0000 && q.opcode < 16
      && (q.error != 0 <==> |d| >= HEADER && !IsResponse(d))
      && (q.error != 0 ==> q.id == Read16(d, 0) && (q.error == RCODE_FORM_ERR || q.error == RCODE_NOT_IMP))
  {
  }

  /** The family of addresses a query asks for. */
  function FamilyOf(q: Query, resolved: Resolved): seq<Address> {
    if q.kind == TYPE_A then resolved.v4 else resolved.v6
  }

  predicate AsksAddress(q: Query) {
    q.kind == TYPE_A || q.kind == TYPE_AAAA
  }

  /** Only the raw answer will do: another type, or a name the address resolver could not judge. */
  predicate NeedsWire(q: Query, resolved: Resolved) {
    !AsksAddress(q) || (resolved.Empty() && resolved.allowWireFallback)
  }

  /** A family whose own look-up failed says nothing about the name: it gets no answer of its own. */
  predicate Undecided(q: Query, resolved: Resolved) {
    FamilyOf(q, resolved) == [] && resolved.transient
  }

  /** The answer for an address query the resolver could judge: its addresses, or the verdict of the Worker. */
  function OwnAnswer(q: Query, resolved: Resolved): (d: seq<Byte>)
    requires q.id < 0x1_0000 && AsksAddress(q) && resolved.Valid()
  {
    Answer(q, FamilyOf(q, resolved), resolved.TtlOr(DEFAULT_TTL), false, if resolved.Empty() then resolved.rcode else 0)
  }

  function BootstrapAddresses(q: Query, bootstrap: Resolved): seq<Address> {
    if q.kind == TYPE_A then bootstrap.v4 else if q.kind == TYPE_AAAA then bootstrap.v6 else []
  }

  /** The answer for the Worker's own name: its known addresses, or a failure if there are none at all. */
  function BootstrapAnswer(q: Query, bootstrap: Resolved): (d: seq<Byte>)
    requires q.id < 0x1_0000 && q.kind < 0x1_0000 && bootstrap.Valid()
  {
    Answer(q, BootstrapAddresses(q, bootstrap), bootstrap.TtlOr(DEFAULT_TTL), bootstrap.Empty(), 0)
  }

  /** The answer when there is none: a server failure. */
  function FailureAnswer(q: Query): (d: seq<Byte>)
    requires q.id < 0x1_0000 && q.kind < 0x1_0000
  {
    Answer(q, [], DEFAULT_TTL, true, 0)
  }

  /** The reply of the proxy to one datagram, if any. */
  ghost predicate ProperReply(d: seq<Byte>, r: seq<Byte>) {
    && |d| >= HEADER && !IsResponse(d) && Walk(r).Good? && IsResponse(r) && Read16(r, 0) == Read16(d, 0)
    && |r| <= (if Parse(d).query.ednsPayload > 512 then Parse(d).query.ednsPayload else 512)
    && (Parse(d).ok ==> EchoesQuestion(r, Parse(d).query.question))
    && (!Parse(d).ok ==> r == ErrorReply(Parse(d).query, Parse(d).query.error))
  }

  /** A proper reply fits what the OPT record of the query announces, or the classic size without one. */
  lemma {:induction false} ProperReplyFits(d: seq<Byte>, r: seq<Byte>, starts: seq<nat>)
    requires ProperReply(d, r) && Parse(d).ok
    ensures OptAt(d, starts) ==>
      var opt := starts[|starts| - 2]; opt + 11 <= |d| && (|r| <= 512 || |r| <= Read16(d, opt + 3))
    ensures (forall other :: !OptAt(d, other)) ==> |r| <= 512
  {
    if OptAt(d, starts) { EdnsIsOpt(d, starts); }
    if forall other :: !OptAt(d, other) { NoOptNoEdns(d); }
  }

  /** The raw answer: none without a Worker, its known addresses for the Worker's own name, else cache or relay. */
  ghost predicate WireAnswer(
    message: seq<Byte>, q: Query, workerHost: string, bootstrap: Resolved, cache: Cache, cache': Cache, now: nat,
    reply: WorkerReply, at: nat, r: seq<Byte>)
  {
    if workerHost == "" then r == [] && cache' == cache
    else if HostForm(q.name) == HostForm(workerHost) then
      && q.id < 0x1_0000 && q.kind < 0x1_0000 && bootstrap.Valid() && r == BootstrapAnswer(q, bootstrap)
      && cache' == cache
    else Queried(message, q, cache, cache', now, reply, at, r)
  }

  /** The answer before it is cut. */
  ghost predicate RawAnswer(
    message: seq<Byte>, q: Query, workerHost: string, resolved: Resolved, bootstrap: Resolved, cache: Cache,
    cache': Cache, now: nat, reply: WorkerReply, at: nat, r: seq<Byte>)
  {
    if NeedsWire(q, resolved) then WireAnswer(message, q, workerHost, bootstrap, cache, cache', now, reply, at, r)
    else
      && cache' == cache && q.id < 0x1_0000 && resolved.Valid()
      && r == if Undecided(q, resolved) then [] else OwnAnswer(q, resolved)
  }

  /** What is sent for it: a server failure for none, and only as much of it as the client can take. */
  function Sent(q: Query, raw: seq<Byte>): seq<Byte>
    requires q.id < 0x1_0000 && q.kind < 0x1_0000
  {
    Truncated(if raw == [] then FailureAnswer(q) else raw, PayloadLimit(q))
  }

  method ReportFailure(d: seq<Byte>, q: Query) returns (r: seq<Byte>)
    requires Parse(d) == ParsedQuery(true, q) && q.id < 0x1_0000 && q.kind < 0x1_0000
    ensures r == FailureAnswer(q) && ReplyTo(d, r) && |r| <= CLASSIC_PAYLOAD
  {
    BuiltAnswerIsSound(d, [], DEFAULT_TTL, true, 0);
    r := BuildResponse(q, [], DEFAULT_TTL, true, 0);
  }

  method AnswerBootstrap(d: seq<Byte>, q: Query, bootstrap: Resolved) returns (r: seq<Byte>)
    requires Parse(d) == ParsedQuery(true, q) && q.id < 0x1_0000 && q.kind < 0x1_0000 && bootstrap.Valid()
    ensures r == BootstrapAnswer(q, bootstrap) && ReplyTo(d, r)
  {
    var addresses := BootstrapAddresses(q, bootstrap);
    BuiltAnswerIsSound(d, addresses, bootstrap.TtlOr(DEFAULT_TTL), bootstrap.Empty(), 0);
    r := BuildResponse(q, addresses, bootstrap.TtlOr(DEFAULT_TTL), bootstrap.Empty(), 0);
  }

  method CutToFit(d: seq<Byte>, q: Query, r: seq<Byte>) returns (out: seq<Byte>)
    requires Parse(d) == ParsedQuery(true, q) && ReplyTo(d, r)
    ensures ReplyTo(d, out) && |out| <= PayloadLimit(q)
    ensures out == Truncated(r, PayloadLimit(q)) && (|r| <= PayloadLimit(q) ==> out == r)
  {
    CutReplyIsReply(d, r);
    var cut;
    out, cut := TruncateForUdp(r, PayloadLimit(q));
  }

  class DnsProxy {
    const workerHost: string
    const resolver: WireResolver

    constructor (host: string, wire: WireResolver)
      ensures workerHost == host && resolver == wire
    {
      workerHost := host;
      resolver := wire;
    }

    /** The wire relay: a query for the Worker's own name is answered from the bootstrap addresses. */
    method RelayWire(message: seq<Byte>, q: Query, bootstrap: Resolved, now: nat, reply: WorkerReply, at: nat)
      returns (r: seq<Byte>)
      requires Parse(message) == ParsedQuery(true, q) && bootstrap.Valid()
      requires |resolver.wireCache| <= MAX_ENTRIES && Sound(resolver.wireCache) && resolver.Clock(now)
      modifies resolver
      ensures |resolver.wireCache| <= MAX_ENTRIES && Sound(resolver.wireCache)
      ensures r != [] ==> ReplyTo(message, r)
      ensures WireAnswer(
        message, q, workerHost, bootstrap, old(resolver.wireCache), resolver.wireCache, now, reply, at, r)
    {
      if workerHost == "" { return []; }
      if HostForm(q.name) == HostForm(workerHost) {
        QueryId(message);
        r := AnswerBootstrap(message, q, bootstrap);
        return;
      }
      r := resolver.QueryWire(message, now, reply, at);
    }

    /** The answer before it is cut; empty when there is none. */
    method FindAnswer(
      message: seq<Byte>, q: Query, resolved: Resolved, bootstrap: Resolved, now: nat, reply: WorkerReply, at: nat)
      returns (r: seq<Byte>)
      requires Parse(message) == ParsedQuery(true, q) && resolved.Valid() && bootstrap.Valid()
      requires |resolver.wireCache| <= MAX_ENTRIES && Sound(resolver.wireCache) && resolver.Clock(now)
      modifies resolver
      ensures |resolver.wireCache| <= MAX_ENTRIES && Sound(resolver.wireCache)
      ensures r != [] ==> ReplyTo(message, r)
      ensures RawAnswer(
        message, q, workerHost, resolved, bootstrap, old(resolver.wireCache), resolver.wireCache, now, reply, at, r)
    {
      r := [];
      QueryId(message);
      if q.kind == TYPE_A || q.kind == TYPE_AAAA {
        var addresses := if q.kind == TYPE_A then resolved.v4 else resolved.v6;
        var ttl := resolved.TtlOr(DEFAULT_TTL);
        if !resolved.Empty() {
          if addresses != [] || !resolved.transient {
            BuiltAnswerIsNeverCut(message, addresses, ttl, false, 0);
            r := BuildResponse(q, addresses, ttl, false, 0);
          }
        } else if resolved.allowWireFallback {
          r := RelayWire(message, q, bootstrap, now, reply, at);
        } else if !resolved.transient {
          BuiltAnswerIsNeverCut(message, [], ttl, false, resolved.rcode);
          r := BuildResponse(q, [], ttl, false, resolved.rcode);
        }
      } else {
        r := RelayWire(message, q, bootstrap, now, reply, at);
      }
    }

    /** The reply to an accepted query. */
    method AnswerQuery(
      d: seq<Byte>, q: Query, resolved: Resolved, bootstrap: Resolved, now: nat, reply: WorkerReply, at: nat)
      returns (r: seq<Byte>, ghost raw: seq<Byte>)
      requires Parse(d) == ParsedQuery(true, q) && q.id < 0x1_0000 && q.kind < 0x1_0000
      requires resolved.Valid() && bootstrap.Valid()
      requires |resolver.wireCache| <= MAX_ENTRIES && Sound(resolver.wireCache) && resolver.Clock(now)
      modifies resolver
      ensures |resolver.wireCache| <= MAX_ENTRIES && Sound(resolver.wireCache)
      ensures ReplyTo(d, r) && |r| <= PayloadLimit(q)
      ensures r == Sent(q, raw) && RawAnswer(
        d, q, workerHost, resolved, bootstrap, old(resolver.wireCache), resolver.wireCache, now, reply, at, raw)
    {
      r := FindAnswer(d, q, resolved, bootstrap, now, reply, at);
      raw := r;
      if r == [] { r := ReportFailure(d, q); }
      r := CutToFit(d, q, r);
    }

    method BuildReply(d: seq<Byte>, resolved: Resolved, bootstrap: Resolved, now: nat, reply: WorkerReply, at: nat)
      returns (r: seq<Byte>, ghost raw: seq<Byte>)
      requires resolved.Valid() && bootstrap.Valid()
      requires |resolver.wireCache| <= MAX_ENTRIES && Sound(resolver.wireCache) && resolver.Clock(now)
      modifies resolver
      ensures |resolver.wireCache| <= MAX_ENTRIES && Sound(resolver.wireCache)
      ensures r == [] <==> |d| < HEADER || IsResponse(d)
      ensures r != [] ==> ProperReply(d, r)
      ensures Parse(d).ok ==>
        var q := Parse(d).query;
        && q.id < 0x1_0000 && q.kind < 0x1_0000 && r == Sent(q, raw)
        && RawAnswer(
          d, q, workerHost, resolved, bootstrap, old(resolver.wireCache), resolver.wireCache, now, reply, at, raw)
      ensures !Parse(d).ok ==> resolver.wireCache == old(resolver.wireCache)
    {
      raw := [];
      var ok, q := ParseQuery(d);
      if !ok {
        RefusedQuery(d);
        if q.error == 0 { return [], []; }
        ErrorReplyIsSound(q, q.error);
        return ErrorReply(q, q.error), [];
      }
      QueryId(d);
      AcceptedQuery(d);
      r, raw := AnswerQuery(d, q, resolved, bootstrap, now, reply, at);
    }
  }
}
