/**
  What the proxy's own replies say, read back from their bytes.

  Main results, for every accepted address query and every outcome of the resolver: the reply carries exactly
  the first eight addresses of the asked family that parse, in order, each with the resolver's TTL or sixty
  seconds; it says no error when either family has addresses, the Worker's code when neither has, and a
  server failure when the family's own look-up failed; and the Worker's own name is answered from what is
  known of it, with a server failure when nothing is.
 */
module ReplyMeaning {
  import opened Basics
  import opened Bytes
  import opened DnsMessage
  import opened DnsQuery
  import opened DnsAnswer
  import opened DnsReply
  import opened WireCache

  // ---- the first eight usable addresses ----

  /** The places of the first eight addresses that parse, in order. */
  ghost predicate FirstEight(addresses: seq<Address>, places: seq<nat>) {
    && |places| <= 8
    && (forall i :: 0 <= i < |places| ==> places[i] < |addresses| && addresses[places[i]].Some?)
    && (forall i, j :: 0 <= i < j < |places| ==> places[i] < places[j])
    && (forall k :: 0 <= k < |addresses| && addresses[k].Some? && k !in places ==> |places| == 8 && places[7] < k)
  }

  /** From index `i` on, with room for so many more. */
  ghost predicate FirstFrom(addresses: seq<Address>, i: nat, room: nat, places: seq<nat>) {
    && |places| <= room
    && (forall p :: 0 <= p < |places| ==> i <= places[p] < |addresses| && addresses[places[p]].Some?)
    && (forall p, q :: 0 <= p < q < |places| ==> places[p] < places[q])
    && (forall k :: i <= k < |addresses| && addresses[k].Some? && k !in places ==>
          |places| == room && (room > 0 ==> places[room - 1] < k))
  }

  ghost predicate Picks(addresses: seq<Address>, places: seq<nat>, out: seq<seq<Byte>>) {
    && |out| == |places|
    && forall p :: 0 <= p < |places| ==> places[p] < |addresses| && addresses[places[p]] == Some(out[p])
  }

  lemma {:induction false} FirstGrows(addresses: seq<Address>, i: nat, room: nat, rest: seq<nat>)
    requires i < |addresses| && addresses[i].Some? && room > 0 && FirstFrom(addresses, i + 1, room - 1, rest)
    ensures FirstFrom(addresses, i, room, [i] + rest)
  {
    var places := [i] + rest;
    forall k | i <= k < |addresses| && addresses[k].Some? && k !in places
      ensures |places| == room && places[room - 1] < k
    {
      NotInTail(i, rest, k);
      if room > 1 { assert places[room - 1] == rest[room - 2]; }
    }
  }

  lemma {:induction false} NotInTail(i: nat, rest: seq<nat>, k: nat)
    requires k !in [i] + rest
    ensures k != i && k !in rest
  {
    assert ([i] + rest)[0] == i;
    forall q | 0 <= q < |rest| ensures rest[q] != k { assert ([i] + rest)[q + 1] == rest[q]; }
  }

  lemma {:induction false} PicksGrows(
    addresses: seq<Address>, i: nat, value: seq<Byte>, rest: seq<nat>, out: seq<seq<Byte>>)
    requires i < |addresses| && addresses[i] == Some(value) && Picks(addresses, rest, out)
    ensures Picks(addresses, [i] + rest, [value] + out)
  {
  }

  lemma {:induction false} UsableIsFirst(addresses: seq<Address>, i: nat, room: nat) returns (places: seq<nat>)
    requires i <= |addresses|
    ensures FirstFrom(addresses, i, room, places) && Picks(addresses, places, Usable(addresses, i, room))
    decreases |addresses| - i
  {
    if i == |addresses| || room == 0 {
      places := [];
    } else if addresses[i].None? {
      places := UsableIsFirst(addresses, i + 1, room);
    } else {
      var rest := UsableIsFirst(addresses, i + 1, room - 1);
      FirstGrows(addresses, i, room, rest);
      PicksGrows(addresses, i, addresses[i].value, rest, Usable(addresses, i + 1, room - 1));
      places := [i] + rest;
    }
  }

  /** The records of `d` carry these addresses, in order, and nothing else but an OPT record. */
  ghost predicate Carries(d: seq<Byte>, kind: nat, ttl: nat, addresses: seq<Address>, places: seq<nat>, opt: bool) {
    && FirstEight(addresses, places) && Walk(d).Good?
    && |Walk(d).records| == |places| + (if opt then 1 else 0)
    && (forall i :: 0 <= i < |places| ==>
          CarriesAddress(d, Walk(d).records[i], kind, ttl, addresses[places[i]].value))
    && (opt ==> Walk(d).records[|places|].kind == 41)
  }

  /** It is a plain response with this code. */
  predicate Says(d: seq<Byte>, code: nat) {
    |d| >= 12 && d[2] >= 128 && d[2] as int / 2 % 2 == 0 && d[3] as int % 16 == code % 16
  }

  lemma {:induction false} AnswerSays(q: Query, addresses: seq<Address>, ttl: nat, failed: bool, rcode: nat)
    requires Fits(q, addresses, ttl) && q.question != []
    ensures Says(Answer(q, addresses, ttl, failed, rcode), if failed && rcode == 0 then 2 else rcode)
  {
    AnswerFront(q, addresses, ttl, failed, rcode);
  }

  /** A hand-built answer without an error carries the first eight addresses; one with an error carries none. */
  lemma {:induction false} AnswerCarries(
    message: seq<Byte>, addresses: seq<Address>, ttl: nat, failed: bool, rcode: nat) returns (places: seq<nat>)
    requires Parse(message).ok && Fits(Parse(message).query, addresses, ttl)
    requires var q := Parse(message).query; q.kind == TYPE_A || q.kind == TYPE_AAAA
    requires failed || rcode != 0 ==> addresses == []
    ensures var q := Parse(message).query;
      Carries(Answer(q, addresses, ttl, failed, rcode), q.kind, ttl, addresses, places, q.ednsPayload != 0)
  {
    var q := Parse(message).query;
    BuiltAnswerIsSound(message, addresses, ttl, failed, rcode);
    places := UsableIsFirst(addresses, 0, MAX_ANSWERS);
    FoundIsCarried(Answer(q, addresses, ttl, failed, rcode), q.kind, ttl, addresses, places,
                   Carried(q, addresses, failed, rcode), q.ednsPayload != 0);
  }

  lemma {:induction false} FoundIsCarried(
    d: seq<Byte>, kind: nat, ttl: nat, addresses: seq<Address>, places: seq<nat>, carried: seq<seq<Byte>>, opt: bool)
    requires Walk(d).Good? && Found(d, Walk(d).records, 0, kind, ttl, carried, opt)
    requires FirstFrom(addresses, 0, 8, places) && Picks(addresses, places, carried)
    ensures Carries(d, kind, ttl, addresses, places, opt)
  {
    forall i | 0 <= i < |places|
      ensures CarriesAddress(d, Walk(d).records[i], kind, ttl, addresses[places[i]].value)
    {
      assert CarriesAddress(d, Walk(d).records[i - 0], kind, ttl, carried[i]);
    }
  }

  // ---- the replies ----

  lemma {:induction false} BuiltIsSent(message: seq<Byte>, addresses: seq<Address>, ttl: nat, failed: bool, rcode: nat)
    requires Parse(message).ok && Fits(Parse(message).query, addresses, ttl)
    ensures var q := Parse(message).query;
      q.question != [] && Sent(q, Answer(q, addresses, ttl, failed, rcode)) == Answer(q, addresses, ttl, failed, rcode)
  {
    BuiltAnswerIsNeverCut(message, addresses, ttl, failed, rcode);
    AcceptedQuestion(message);
  }

  /** A server failure: no records but an OPT record. */
  lemma {:induction false} FailureMeans(message: seq<Byte>)
    requires Parse(message).ok
    ensures var q := Parse(message).query;
      && q.id < 0x1_0000 && q.kind < 0x1_0000
      && Says(Sent(q, []), 2) && Walk(Sent(q, [])).Good?
      && |Walk(Sent(q, [])).records| == if q.ednsPayload != 0 then 1 else 0
  {
    QueryId(message);
    var q := Parse(message).query;
    BuiltIsSent(message, [], DEFAULT_TTL, true, 0);
    AnswerSays(q, [], DEFAULT_TTL, true, 0);
    BuiltAnswerIsSound(message, [], DEFAULT_TTL, true, 0);
  }

  /** The addresses of the asked family. */
  function Family(q: Query, r: Resolved): seq<Address> {
    if q.kind == 1 then r.v4 else r.v6
  }

  /** The reply to an address query that the resolver can judge. */
  lemma {:induction false} AddressReplyMeans(message: seq<Byte>, resolved: Resolved) returns (places: seq<nat>)
    requires Parse(message).ok && resolved.Valid()
    requires var q := Parse(message).query;
      && (q.kind == 1 || q.kind == 28) && (resolved.v4 != [] || resolved.v6 != [] || !resolved.allowWireFallback)
      && (Family(q, resolved) != [] || !resolved.transient)
    ensures var q := Parse(message).query;
      && q.id < 0x1_0000 && !NeedsWire(q, resolved) && !Undecided(q, resolved)
      && var r := Sent(q, OwnAnswer(q, resolved));
      && Says(r, if resolved.v4 == [] && resolved.v6 == [] then resolved.rcode else 0)
      && Carries(r, q.kind, if resolved.ttl == 0 then 60 else resolved.ttl, Family(q, resolved), places,
                 q.ednsPayload != 0)
  {
    var q := Parse(message).query;
    QueryId(message);
    var code := if resolved.v4 == [] && resolved.v6 == [] then resolved.rcode else 0;
    BuiltIsSent(message, Family(q, resolved), resolved.TtlOr(DEFAULT_TTL), false, code);
    AnswerSays(q, Family(q, resolved), resolved.TtlOr(DEFAULT_TTL), false, code);
    places := AnswerCarries(message, Family(q, resolved), resolved.TtlOr(DEFAULT_TTL), false, code);
  }

  /** A family whose own look-up failed is answered with a server failure, whatever is known of the other. */
  lemma {:induction false} FailedFamilyMeans(
    message: seq<Byte>, workerHost: string, resolved: Resolved, bootstrap: Resolved, cache: Cache, cache': Cache,
    now: nat, reply: WorkerReply, at: nat, raw: seq<Byte>)
    requires Parse(message).ok
    requires var q := Parse(message).query;
      && (q.kind == 1 || q.kind == 28) && (resolved.v4 != [] || resolved.v6 != [] || !resolved.allowWireFallback)
      && Family(q, resolved) == [] && resolved.transient
      && RawAnswer(message, q, workerHost, resolved, bootstrap, cache, cache', now, reply, at, raw)
    ensures var q := Parse(message).query;
      q.id < 0x1_0000 && q.kind < 0x1_0000 && Says(Sent(q, raw), 2) && cache' == cache
  {
    FailureMeans(message);
  }

  /** The reply to an address query for the Worker's own name. */
  lemma {:induction false} BootstrapReplyMeans(message: seq<Byte>, bootstrap: Resolved) returns (places: seq<nat>)
    requires Parse(message).ok && bootstrap.Valid()
    requires var q := Parse(message).query; q.kind == 1 || q.kind == 28
    ensures var q := Parse(message).query;
      && q.id < 0x1_0000 && q.kind < 0x1_0000
      && var r := Sent(q, BootstrapAnswer(q, bootstrap));
      && Says(r, if bootstrap.v4 == [] && bootstrap.v6 == [] then 2 else 0)
      && Carries(r, q.kind, if bootstrap.ttl == 0 then 60 else bootstrap.ttl, Family(q, bootstrap), places,
                 q.ednsPayload != 0)
  {
    var q := Parse(message).query;
    QueryId(message);
    BuiltIsSent(message, Family(q, bootstrap), bootstrap.TtlOr(DEFAULT_TTL), bootstrap.Empty(), 0);
    AnswerSays(q, Family(q, bootstrap), bootstrap.TtlOr(DEFAULT_TTL), bootstrap.Empty(), 0);
    places := AnswerCarries(message, Family(q, bootstrap), bootstrap.TtlOr(DEFAULT_TTL), bootstrap.Empty(), 0);
  }
}
