/**
  The adaptive QUIC registry: a first Initial to a server is let through, a peer that answers keeps
  QUIC, and a server whose Initials stay unanswered is blocked for a while so that the client falls
  back to TCP. Two lock-free counters let the packet loop skip the registry altogether. The results:
  in every reachable state those counters are right, every block is justified by an unanswered flow,
  and a skipped datagram that is no Initial would have passed. Skipping an answer is not free: it
  leaves an answered flow's touch time and the purge schedule behind, so that a later Initial may be
  primed again, and a retransmission of it dropped; the exact condition is proved, and that within the
  fallback time every later decision is the same.
 */
module Quic {
  import opened Basics
  import opened Text

  datatype Decision = Pass | PrimeAndPass | Drop
  datatype Flow = Flow(started: nat, touched: nat, answered: bool)
  datatype Config = Config(responseTimeout: nat, fallback: nat)

  predicate ValidConfig(c: Config) {
    1 <= c.responseTimeout <= c.fallback
  }

  function FlowKey(server: string, port: nat): string {
    server + "|" + Decimal(port)
  }

  /** What the mutex protects. */
  datatype State = State(flows: map<string, Flow>, blockedUntil: map<string, nat>, nextPurge: nat)

  const EMPTY := State(map[], map[], 0)

  function LiveFlows(c: Config, flows: map<string, Flow>, now: nat): map<string, Flow> {
    map k | k in flows && Elapsed(now, flows[k].touched) <= c.fallback :: flows[k]
  }

  function LiveBlocks(blocked: map<string, nat>, now: nat): map<string, nat> {
    map b | b in blocked && blocked[b] > now :: blocked[b]
  }

  function Purged(c: Config, s: State, now: nat): State {
    if now < s.nextPurge then s
    else State(LiveFlows(c, s.flows, now), LiveBlocks(s.blockedUntil, now),
               now + if c.responseTimeout <= 1000 then c.responseTimeout else 1000)
  }

  /** An Initial that no block stops: it opens a flow, or is judged by how long its flow has waited. */
  function SentInitial(c: Config, s: State, server: string, port: nat, now: nat): (State, Decision) {
    var key := FlowKey(server, port);
    if key !in s.flows then (s.(flows := s.flows[key := Flow(now, now, false)]), PrimeAndPass)
    else
      var flow := s.flows[key].(touched := now);
      var t := s.(flows := s.flows[key := flow]);
      if !flow.answered && Elapsed(now, flow.started) >= c.responseTimeout then
        (t.(blockedUntil := t.blockedUntil[server := now + c.fallback]), Drop)
      else (t, Pass)
  }

  function Sent(c: Config, s: State, server: string, port: nat, initial: bool, now: nat): (State, Decision) {
    var p := Purged(c, s, now);
    if server in p.blockedUntil && p.blockedUntil[server] > now then (p, Drop)
    else
      var q := p.(blockedUntil := p.blockedUntil - {server});
      if initial then SentInitial(c, q, server, port, now) else (q, Pass)
  }

  function Received(c: Config, s: State, server: string, port: nat, now: nat): State {
    var p := Purged(c, s, now);
    var key := FlowKey(server, port);
    if key !in p.flows then p
    else State(p.flows[key := Flow(p.flows[key].started, now, true)], p.blockedUntil - {server}, p.nextPurge)
  }

  /** The flows that still wait for their first answer. */
  function Unanswered(flows: map<string, Flow>): set<string> {
    set k | k in flows && !flows[k].answered
  }

  lemma UnansweredAfterErase(flows: map<string, Flow>, k: string)
    requires k in flows
    ensures |Unanswered(flows - {k})| == |Unanswered(flows)| - if flows[k].answered then 0 else 1
  {
    assert Unanswered(flows - {k}) == Unanswered(flows) - {k};
    assert !flows[k].answered ==> k in Unanswered(flows);
  }

  lemma UnansweredAfterUpdate(flows: map<string, Flow>, k: string, f: Flow)
    ensures |Unanswered(flows[k := f])| == |Unanswered(flows)|
      - (if k in flows && !flows[k].answered then 1 else 0) + (if f.answered then 0 else 1)
  {
    var before, after := Unanswered(flows), Unanswered(flows[k := f]);
    assert k in before <==> k in flows && !flows[k].answered;
    assert forall x :: x in after <==> if x == k then !f.answered else x in before;
    if f.answered {
      assert after == before - {k};
    } else {
      assert after == before + {k};
    }
  }

  // ---- the registry ----

  class AdaptiveRegistry {
    const config: Config
    var nextPurgeAtMs: nat
    var unansweredFlows: nat
    var blockedServers: nat
    var flows: map<string, Flow>
    var blockedUntil: map<string, nat>

    ghost function View(): State
      reads this
    {
      State(flows, blockedUntil, nextPurgeAtMs)
    }

    /** The published counters are the sizes of what they summarise. */
    ghost predicate Counted()
      reads this
    {
      unansweredFlows == |Unanswered(flows)| && blockedServers == |blockedUntil|
    }

    constructor (responseTimeoutMs: nat, fallbackMs: nat)
      ensures Counted() && View() == EMPTY && ValidConfig(config)
      ensures config.responseTimeout == if responseTimeoutMs >= 1 then responseTimeoutMs else 1
      ensures config.fallback == if fallbackMs >= config.responseTimeout then fallbackMs else config.responseTimeout
    {
      var timeout := if responseTimeoutMs >= 1 then responseTimeoutMs else 1;
      config := Config(timeout, if fallbackMs >= timeout then fallbackMs else timeout);
      nextPurgeAtMs, unansweredFlows, blockedServers := 0, 0, 0;
      flows, blockedUntil := map[], map[];
    }

    method PurgeFlows(nowMs: nat)
      requires Counted()
      modifies this`flows, this`unansweredFlows
      ensures flows == LiveFlows(config, old(flows), nowMs)
      ensures unansweredFlows == |Unanswered(flows)|
    {
      var todo := flows.Keys;
      ghost var before := flows;
      while todo != {}
        invariant todo <= flows.Keys <= before.Keys
        invariant forall k :: k in flows ==> flows[k] == before[k]
        invariant forall k :: k in before ==>
          (k in flows <==> k in todo || Elapsed(nowMs, before[k].touched) <= config.fallback)
        invariant unansweredFlows == |Unanswered(flows)|
        decreases |todo|
      {
        var k :| k in todo;
        todo := todo - {k};
        if Elapsed(nowMs, flows[k].touched) > config.fallback {
          UnansweredAfterErase(flows, k);
          if !flows[k].answered {
            unansweredFlows := unansweredFlows - 1;
          }
          flows := flows - {k};
        }
      }
    }

    method PurgeBlocks(nowMs: nat)
      modifies this`blockedUntil
      ensures blockedUntil == LiveBlocks(old(blockedUntil), nowMs)
    {
      var todo := blockedUntil.Keys;
      ghost var before := blockedUntil;
      while todo != {}
        invariant todo <= blockedUntil.Keys <= before.Keys
        invariant forall b :: b in blockedUntil ==> blockedUntil[b] == before[b]
        invariant forall b :: b in before ==> (b in blockedUntil <==> b in todo || before[b] > nowMs)
        decreases |todo|
      {
        var b :| b in todo;
        todo := todo - {b};
        if blockedUntil[b] <= nowMs {
          blockedUntil := blockedUntil - {b};
        }
      }
    }

    method PurgeIfDue(nowMs: nat)
      requires Counted()
      modifies this
      ensures View() == Purged(config, old(View()), nowMs) && Counted()
    {
      if nowMs < nextPurgeAtMs {
        return;
      }
      nextPurgeAtMs := nowMs + if config.responseTimeout <= 1000 then config.responseTimeout else 1000;
      PurgeFlows(nowMs);
      PurgeBlocks(nowMs);
      blockedServers := |blockedUntil|;
    }

    method Outbound(server: string, localPort: nat, initial: bool, nowMs: nat) returns (decision: Decision)
      requires Counted()
      modifies this
      ensures (View(), decision) == Sent(config, old(View()), server, localPort, initial, nowMs)
      ensures Counted()
    {
      PurgeIfDue(nowMs);
      ghost var p := View();
      if server in blockedUntil {
        if blockedUntil[server] > nowMs {
          return Drop;
        }
        blockedUntil := blockedUntil - {server};
        blockedServers := |blockedUntil|;
      }
      assert blockedUntil == p.blockedUntil - {server};
      if !initial {
        return Pass;
      }
      decision := OutboundInitial(server, localPort, nowMs);
    }

    method OutboundInitial(server: string, localPort: nat, nowMs: nat) returns (decision: Decision)
      requires Counted()
      modifies this
      ensures (View(), decision) == SentInitial(config, old(View()), server, localPort, nowMs)
      ensures Counted()
    {
      var key := FlowKey(server, localPort);
      if key !in flows {
        UnansweredAfterUpdate(flows, key, Flow(nowMs, nowMs, false));
        flows := flows[key := Flow(nowMs, nowMs, false)];
        unansweredFlows := unansweredFlows + 1;
        return PrimeAndPass;
      }
      var flow := flows[key].(touched := nowMs);
      UnansweredAfterUpdate(flows, key, flow);
      flows := flows[key := flow];
      if flow.answered {
        return Pass;
      }
      if Elapsed(nowMs, flow.started) >= config.responseTimeout {
        blockedUntil := blockedUntil[server := nowMs + config.fallback];
        blockedServers := |blockedUntil|;
        return Drop;
      }
      return Pass;
    }

    method Inbound(server: string, localPort: nat, nowMs: nat)
      requires Counted()
      modifies this
      ensures View() == Received(config, old(View()), server, localPort, nowMs)
      ensures Counted()
    {
      PurgeIfDue(nowMs);
      var key := FlowKey(server, localPort);
      if key !in flows {
        return;
      }
      MarkAnswered(key, nowMs);
      blockedUntil := blockedUntil - {server};
      blockedServers := |blockedUntil|;
    }

    method MarkAnswered(key: string, nowMs: nat)
      requires key in flows && unansweredFlows == |Unanswered(flows)|
      modifies this`flows, this`unansweredFlows
      ensures flows == old(flows)[key := Flow(old(flows)[key].started, nowMs, true)]
      ensures unansweredFlows == |Unanswered(flows)|
    {
      var answered := Flow(flows[key].started, nowMs, true);
      UnansweredAfterUpdate(flows, key, answered);
      if !flows[key].answered {
        unansweredFlows := unansweredFlows - 1;
      }
      flows := flows[key := answered];
    }

    method Clear()
      modifies this
      ensures View() == EMPTY && Counted()
    {
      flows, blockedUntil := map[], map[];
      unansweredFlows, blockedServers, nextPurgeAtMs := 0, 0, 0;
    }

    /** False only if every non-Initial datagram would pass the registry. */
    method NeedsOutbound(initial: bool) returns (needed: bool)
      requires Counted()
      ensures needed == (initial || View().blockedUntil != map[])
      ensures !needed ==> forall server, port, now ::
        Sent(config, View(), server, port, initial, now).1 == Pass
    {
      needed := initial || blockedServers != 0;
      if !needed {
        forall server, port, now ensures Sent(config, View(), server, port, initial, now).1 == Pass {
          UnblockedPasses(config, View(), server, port, now);
        }
      }
    }

    /** False only if no flow waits for an answer. */
    method NeedsInbound() returns (needed: bool)
      requires Counted()
      ensures needed == (Unanswered(View().flows) != {})
    {
      needed := unansweredFlows != 0;
    }
  }

  // ---- runs ----

  datatype Event =
    | Out(server: string, port: nat, initial: bool, at: nat)
    | In(server: string, port: nat, at: nat)
    | Reset(at: nat)

  function Step(c: Config, s: State, e: Event): State {
    match e
    case Out(server, port, initial, at) => Sent(c, s, server, port, initial, at).0
    case In(server, port, at) => Received(c, s, server, port, at)
    case Reset(_) => EMPTY
  }

  predicate Timely(run: seq<Event>) {
    forall i, j :: 0 <= i < j < |run| ==> run[i].at <= run[j].at
  }

  function After(c: Config, run: seq<Event>, n: nat): State
    requires n <= |run|
  {
    if n == 0 then EMPTY else Step(c, After(c, run, n - 1), run[n - 1])
  }

  /** An unanswered flow to the server that justifies a block ending at `until`. */
  predicate Justifies(c: Config, flows: map<string, Flow>, server: string, port: nat, until: nat) {
    var key := FlowKey(server, port);
    && key in flows && !flows[key].answered
    && flows[key].touched + c.fallback == until
    && flows[key].started + c.responseTimeout <= flows[key].touched
  }

  /** Every stamp lies in the past and every block is justified by an unanswered flow. */
  ghost predicate Sound(c: Config, s: State, now: nat) {
    && (forall k :: k in s.flows ==> s.flows[k].started <= s.flows[k].touched <= now)
    && (forall b :: b in s.blockedUntil ==> exists port :: Justifies(c, s.flows, b, port, s.blockedUntil[b]))
  }

  lemma PurgeKeepsSound(c: Config, s: State, before: nat, now: nat)
    requires Sound(c, s, before) && before <= now
    ensures Sound(c, Purged(c, s, now), now)
  {
    var p := Purged(c, s, now);
    forall b | b in p.blockedUntil ensures exists port :: Justifies(c, p.flows, b, port, p.blockedUntil[b]) {
      var port :| Justifies(c, s.flows, b, port, s.blockedUntil[b]);
      assert Justifies(c, p.flows, b, port, p.blockedUntil[b]);
    }
  }

  /** Lifting blocks and changing one flow keeps the justification of the blocks on other servers. */
  lemma ChangeKeepsSound(c: Config, s: State, s': State, server: string, port: nat, now: nat)
    requires Sound(c, s, now)
    requires server !in s'.blockedUntil
    requires forall b :: b in s'.blockedUntil ==> b in s.blockedUntil && s'.blockedUntil[b] == s.blockedUntil[b]
    requires forall k :: k in s'.flows ==> s'.flows[k].started <= s'.flows[k].touched <= now
    requires forall k :: k in s.flows && k != FlowKey(server, port) ==> k in s'.flows && s'.flows[k] == s.flows[k]
    ensures Sound(c, s', now)
  {
    forall b | b in s'.blockedUntil ensures exists p :: Justifies(c, s'.flows, b, p, s'.blockedUntil[b]) {
      var p :| Justifies(c, s.flows, b, p, s.blockedUntil[b]);
      if FlowKey(b, p) == FlowKey(server, port) {
        SuffixedInjective(b, p, server, port, '|');
      }
      assert Justifies(c, s'.flows, b, p, s'.blockedUntil[b]);
    }
  }

  lemma InitialKeepsSound(c: Config, s: State, server: string, port: nat, now: nat)
    requires ValidConfig(c) && Sound(c, s, now) && server !in s.blockedUntil
    ensures Sound(c, SentInitial(c, s, server, port, now).0, now)
  {
    var (s', decision) := SentInitial(c, s, server, port, now);
    var unblocked := s'.(blockedUntil := s.blockedUntil);
    ChangeKeepsSound(c, s, unblocked, server, port, now);
    if decision == Drop {
      var until := now + c.fallback;
      assert s'.blockedUntil == s.blockedUntil[server := until];
      assert Justifies(c, s'.flows, server, port, until);
      forall b | b in s'.blockedUntil ensures exists q :: Justifies(c, s'.flows, b, q, s'.blockedUntil[b]) {
        if b != server {
          var q :| Justifies(c, unblocked.flows, b, q, unblocked.blockedUntil[b]);
          assert Justifies(c, s'.flows, b, q, s'.blockedUntil[b]);
        }
      }
    } else {
      assert s' == unblocked;
    }
  }

  lemma OutboundKeepsSound(c: Config, s: State, server: string, port: nat, initial: bool, before: nat, now: nat)
    requires ValidConfig(c) && Sound(c, s, before) && before <= now
    ensures Sound(c, Sent(c, s, server, port, initial, now).0, now)
  {
    PurgeKeepsSound(c, s, before, now);
    var p := Purged(c, s, now);
    if !(server in p.blockedUntil && p.blockedUntil[server] > now) {
      var q := p.(blockedUntil := p.blockedUntil - {server});
      ChangeKeepsSound(c, p, q, server, port, now);
      if initial { InitialKeepsSound(c, q, server, port, now); }
    }
  }

  lemma InboundKeepsSound(c: Config, s: State, server: string, port: nat, before: nat, now: nat)
    requires Sound(c, s, before) && before <= now
    ensures Sound(c, Received(c, s, server, port, now), now)
  {
    PurgeKeepsSound(c, s, before, now);
    var p := Purged(c, s, now);
    if FlowKey(server, port) in p.flows {
      ChangeKeepsSound(c, p, Received(c, s, server, port, now), server, port, now);
    }
  }

  lemma {:induction false} ReachableIsSound(c: Config, run: seq<Event>, n: nat)
    requires ValidConfig(c) && Timely(run) && n <= |run|
    ensures Sound(c, After(c, run, n), if n > 0 then run[n - 1].at else 0)
  {
    if n > 0 {
      ReachableIsSound(c, run, n - 1);
      var before := if n > 1 then run[n - 2].at else 0;
      match run[n - 1]
      case Out(server, port, initial, at) =>
        OutboundKeepsSound(c, After(c, run, n - 1), server, port, initial, before, at);
      case In(server, port, at) => InboundKeepsSound(c, After(c, run, n - 1), server, port, before, at);
      case Reset(_) =>
    }
  }

  /** In every reachable state: no unanswered flow, no block. */
  lemma NothingUnansweredNothingBlocked(c: Config, run: seq<Event>, n: nat)
    requires ValidConfig(c) && Timely(run) && n <= |run|
    ensures Unanswered(After(c, run, n).flows) == {} ==> After(c, run, n).blockedUntil == map[]
  {
    ReachableIsSound(c, run, n);
    var s := After(c, run, n);
    if s.blockedUntil != map[] {
      var b :| b in s.blockedUntil;
      var port :| Justifies(c, s.flows, b, port, s.blockedUntil[b]);
      assert FlowKey(b, port) in Unanswered(s.flows);
    }
  }

  /** A datagram is dropped only while some Initial to its server has gone unanswered for the response timeout. */
  lemma DropIsJustified(c: Config, run: seq<Event>, n: nat)
    requires ValidConfig(c) && Timely(run) && n < |run| && run[n].Out?
    requires Sent(c, After(c, run, n), run[n].server, run[n].port, run[n].initial, run[n].at).1 == Drop
    ensures var s := After(c, run, n + 1);
      && run[n].server in s.blockedUntil && s.blockedUntil[run[n].server] > run[n].at
      && exists port :: Justifies(c, s.flows, run[n].server, port, s.blockedUntil[run[n].server])
  {
    ReachableIsSound(c, run, n + 1);
  }

  /** With nothing blocked, a datagram that is not an Initial passes, whatever its server and time. */
  lemma UnblockedPasses(c: Config, s: State, server: string, port: nat, now: nat)
    requires s.blockedUntil == map[]
    ensures Sent(c, s, server, port, false, now).1 == Pass
    ensures Sent(c, s, server, port, false, now).0 == Purged(c, s, now)
  {
    assert Purged(c, s, now).blockedUntil == map[];
  }

  // ---- skipping an answer ----

  /** Handling an answer while nothing is unanswered changes no flow but for its touch time, and no block. */
  lemma {:induction false} IdleInboundOnlyTouches(
    c: Config, run: seq<Event>, n: nat, server: string, port: nat, now: nat)
    requires ValidConfig(c) && Timely(run) && n <= |run| && Unanswered(After(c, run, n).flows) == {}
    ensures var s := After(c, run, n);
      var h := Received(c, s, server, port, now);
      && h.blockedUntil == s.blockedUntil == map[] && Unanswered(h.flows) == {}
      && h.flows.Keys == Purged(c, s, now).flows.Keys
      && forall k :: k in h.flows ==> h.flows[k].(touched := 0) == s.flows[k].(touched := 0)
  {
    NothingUnansweredNothingBlocked(c, run, n);
    var s := After(c, run, n);
    var h := Received(c, s, server, port, now);
    forall k | k in s.flows ensures s.flows[k].answered {
      assert k !in Unanswered(s.flows);
    }
    assert Purged(c, s, now).blockedUntil == map[];
    assert h.blockedUntil == map[];
  }

  /** The flow outlives the purge, if any, that a datagram at `t` starts. */
  predicate Survives(c: Config, s: State, key: string, t: nat) {
    key in s.flows && (t < s.nextPurge || Elapsed(t, s.flows[key].touched) <= c.fallback)
  }

  /** The same flow, when the answer at `now` was handled before: purged then, touched then if it is its own. */
  predicate SurvivesHandled(c: Config, s: State, server: string, port: nat, now: nat, key: string, t: nat) {
    && Survives(c, s, key, now)
    && var touched := if key == FlowKey(server, port) then now else s.flows[key].touched;
       var nextPurge := if now < s.nextPurge then s.nextPurge else now + Min(c.responseTimeout, 1000);
       t < nextPurge || Elapsed(t, touched) <= c.fallback
  }

  /** With every flow answered and nothing blocked, an Initial passes if its flow survives and is primed if not. */
  lemma {:induction false} IdleInitial(c: Config, s: State, server: string, port: nat, t: nat)
    requires s.blockedUntil == map[] && Unanswered(s.flows) == {}
    ensures Sent(c, s, server, port, true, t).1 ==
      if Survives(c, s, FlowKey(server, port), t) then Pass else PrimeAndPass
  {
    var key := FlowKey(server, port);
    assert Purged(c, s, t).blockedUntil == map[];
    if key in s.flows { assert key !in Unanswered(s.flows); }
  }

  lemma {:induction false} HandledSurvives(
    c: Config, s: State, server: string, port: nat, now: nat, key: string, t: nat)
    ensures Survives(c, Received(c, s, server, port, now), key, t) <==> SurvivesHandled(c, s, server, port, now, key, t)
  {
    var p := Purged(c, s, now);
    assert key in p.flows <==> Survives(c, s, key, now);
  }

  /**
    The exact price of skipping: from any reachable state with nothing unanswered, the next Initial is
    decided alike whether or not the answer at `now` was handled, if and only if its flow survives the
    purges in both cases or in neither.
   */
  lemma {:induction false} SkippingIsFreeExactlyWhenPurgesAgree(
    c: Config, run: seq<Event>, n: nat, server: string, port: nat, now: nat, other: string, from: nat, t: nat)
    requires ValidConfig(c) && Timely(run) && n <= |run| && Unanswered(After(c, run, n).flows) == {}
    ensures var s := After(c, run, n);
      Sent(c, s, other, from, true, t).1 == Sent(c, Received(c, s, server, port, now), other, from, true, t).1 <==>
      (Survives(c, s, FlowKey(other, from), t) <==> SurvivesHandled(c, s, server, port, now, FlowKey(other, from), t))
  {
    var s := After(c, run, n);
    NothingUnansweredNothingBlocked(c, run, n);
    IdleInboundOnlyTouches(c, run, n, server, port, now);
    IdleInitial(c, s, other, from, t);
    IdleInitial(c, Received(c, s, server, port, now), other, from, t);
    HandledSurvives(c, s, server, port, now, FlowKey(other, from), t);
  }

  /** What a caller can check: a flow touched at most the fallback time before the Initial is decided alike. */
  lemma {:induction false} RecentlyTouchedIsDecidedAlike(
    c: Config, run: seq<Event>, n: nat, server: string, port: nat, now: nat, other: string, from: nat, t: nat)
    requires ValidConfig(c) && Timely(run) && n <= |run| && Unanswered(After(c, run, n).flows) == {}
    requires (if n > 0 then run[n - 1].at else 0) <= now <= t
    requires var s, key := After(c, run, n), FlowKey(other, from);
      key in s.flows ==> t - s.flows[key].touched <= c.fallback
    ensures var s := After(c, run, n);
      Sent(c, s, other, from, true, t).1 == Sent(c, Received(c, s, server, port, now), other, from, true, t).1
  {
    ReachableIsSound(c, run, n);
    SkippingIsFreeExactlyWhenPurgesAgree(c, run, n, server, port, now, other, from, t);
  }

  /**
    A run in which skipping matters: the flow was answered at 100 ms, another answer comes at 300 s and
    the next Initial at 300.2 s. Handled, that answer keeps the flow and the Initial passes; skipped,
    the Initial is primed as if the server were new, and its retransmission 900 ms later is dropped.
   */
  lemma {:induction false} SkippingCanBlockAnAnsweredServer()
    ensures var c := Config(900, 300_000);
      var run := [Out("s", 1, true, 0), In("s", 1, 100)];
      var s := After(c, run, 2);
      var h := Received(c, s, "s", 1, 300_000);
      && ValidConfig(c) && Timely(run) && Unanswered(s.flows) == {}
      && Sent(c, h, "s", 1, true, 300_200).1 == Pass && Sent(c, s, "s", 1, true, 300_200).1 == PrimeAndPass
      && Sent(c, Sent(c, h, "s", 1, true, 300_200).0, "s", 1, true, 301_100).1 == Pass
      && Sent(c, Sent(c, s, "s", 1, true, 300_200).0, "s", 1, true, 301_100).1 == Drop
  {
    var c, key := Config(900, 300_000), FlowKey("s", 1);
    var run := [Out("s", 1, true, 0), In("s", 1, 100)];
    assert After(c, run, 0) == EMPTY;
    var first := State(map[key := Flow(0, 0, false)], map[], 900);
    assert After(c, run, 1) == first;
    var s := State(map[key := Flow(0, 100, true)], map[], 900);
    assert After(c, run, 2) == s;
    var h := State(map[key := Flow(0, 300_000, true)], map[], 300_900);
    assert LiveFlows(c, s.flows, 300_000) == s.flows;
    assert Received(c, s, "s", 1, 300_000) == h;
    assert Sent(c, h, "s", 1, true, 300_200).0 == State(map[key := Flow(0, 300_200, true)], map[], 300_900);
    assert LiveFlows(c, s.flows, 300_200) == map[];
    assert Sent(c, s, "s", 1, true, 300_200).0 == State(map[key := Flow(300_200, 300_200, false)], map[], 301_100);
  }

  // ---- within the fallback time ----

  /** The two states agree on all but touch times, none of which is before `since`, and the purge schedule. */
  ghost predicate Close(c: Config, s: State, h: State, since: nat) {
    && s.flows.Keys == h.flows.Keys && s.blockedUntil == h.blockedUntil
    && (forall k :: k in s.flows ==>
          && s.flows[k].(touched := 0) == h.flows[k].(touched := 0)
          && since <= s.flows[k].touched && since <= h.flows[k].touched)
    && (forall b :: b in s.blockedUntil ==> since + c.fallback <= s.blockedUntil[b])
  }

  /** Within the fallback time nothing is purged. */
  lemma {:induction false} NothingToPurge(c: Config, s: State, since: nat, now: nat)
    requires forall k :: k in s.flows ==> since <= s.flows[k].touched <= now
    requires forall b :: b in s.blockedUntil ==> since + c.fallback <= s.blockedUntil[b]
    requires now < since + c.fallback
    ensures Purged(c, s, now) == s.(nextPurge := Purged(c, s, now).nextPurge)
  {
    assert LiveFlows(c, s.flows, now) == s.flows;
    assert LiveBlocks(s.blockedUntil, now) == s.blockedUntil;
  }

  /** All touch times lie in the past. */
  ghost predicate Past(s: State, now: nat) {
    forall k :: k in s.flows ==> s.flows[k].touched <= now
  }

  lemma {:induction false} CloseInitial(c: Config, s: State, h: State, server: string, port: nat, now: nat, since: nat)
    requires Close(c, s, h, since) && Past(s, now) && Past(h, now) && since <= now
    ensures var a, b := SentInitial(c, s, server, port, now), SentInitial(c, h, server, port, now);
      Close(c, a.0, b.0, since) && Past(a.0, now) && Past(b.0, now) && a.1 == b.1
  {
  }

  lemma {:induction false} CloseSent(
    c: Config, s: State, h: State, server: string, port: nat, initial: bool, now: nat, since: nat)
    requires Close(c, s, h, since) && Past(s, now) && Past(h, now) && since <= now < since + c.fallback
    ensures var a, b := Sent(c, s, server, port, initial, now), Sent(c, h, server, port, initial, now);
      Close(c, a.0, b.0, since) && Past(a.0, now) && Past(b.0, now) && a.1 == b.1
  {
    NothingToPurge(c, s, since, now);
    NothingToPurge(c, h, since, now);
    var p, q := Purged(c, s, now), Purged(c, h, now);
    assert Close(c, p, q, since);
    if server !in p.blockedUntil && initial {
      assert p.blockedUntil - {server} == p.blockedUntil;
      CloseInitial(c, p, q, server, port, now, since);
    }
  }

  lemma {:induction false} CloseReceived(c: Config, s: State, h: State, server: string, port: nat, now: nat, since: nat)
    requires Close(c, s, h, since) && Past(s, now) && Past(h, now) && since <= now < since + c.fallback
    ensures var a, b := Received(c, s, server, port, now), Received(c, h, server, port, now);
      Close(c, a, b, since) && Past(a, now) && Past(b, now)
  {
    NothingToPurge(c, s, since, now);
    NothingToPurge(c, h, since, now);
  }

  lemma {:induction false} CloseStep(c: Config, s: State, h: State, e: Event, since: nat)
    requires Close(c, s, h, since) && Past(s, e.at) && Past(h, e.at) && since <= e.at < since + c.fallback
    ensures Close(c, Step(c, s, e), Step(c, h, e), since)
    ensures Past(Step(c, s, e), e.at) && Past(Step(c, h, e), e.at)
    ensures e.Out? ==>
      Sent(c, s, e.server, e.port, e.initial, e.at).1 == Sent(c, h, e.server, e.port, e.initial, e.at).1
  {
    match e
    case Out(server, port, initial, at) => CloseSent(c, s, h, server, port, initial, at, since);
    case In(server, port, at) => CloseReceived(c, s, h, server, port, at, since);
    case Reset(_) =>
  }

  /** The state after `n` more events. */
  function From(c: Config, s: State, more: seq<Event>, n: nat): State
    requires n <= |more|
  {
    if n == 0 then s else Step(c, From(c, s, more, n - 1), more[n - 1])
  }

  lemma {:induction false} StaysClose(c: Config, s: State, h: State, more: seq<Event>, n: nat, since: nat, now: nat)
    requires Close(c, s, h, since) && Past(s, now) && Past(h, now) && since <= now && n <= |more|
    requires Timely(more) && forall i :: 0 <= i < |more| ==> now <= more[i].at < since + c.fallback
    ensures Close(c, From(c, s, more, n), From(c, h, more, n), since)
    ensures n < |more| ==> Past(From(c, s, more, n), more[n].at) && Past(From(c, h, more, n), more[n].at)
  {
    if n > 0 {
      StaysClose(c, s, h, more, n - 1, since, now);
      CloseStep(c, From(c, s, more, n - 1), From(c, h, more, n - 1), more[n - 1], since);
    }
  }

  /**
    From any reachable state with nothing unanswered, whatever happens next: as long as every event comes
    less than the fallback time after the oldest touch, skipping the answer changes no decision at all.
   */
  lemma {:induction false} WithinFallbackNoDecisionChanges(
    c: Config, run: seq<Event>, n: nat, server: string, port: nat, now: nat, more: seq<Event>, m: nat, since: nat)
    requires ValidConfig(c) && Timely(run) && n <= |run| && Unanswered(After(c, run, n).flows) == {}
    requires (if n > 0 then run[n - 1].at else 0) <= now && since <= now < since + c.fallback
    requires forall k :: k in After(c, run, n).flows ==> since <= After(c, run, n).flows[k].touched
    requires Timely(more) && (forall i :: 0 <= i < |more| ==> now <= more[i].at < since + c.fallback)
    requires m < |more| && more[m].Out?
    ensures var s := After(c, run, n);
      var e, skipped, handled := more[m], From(c, s, more, m), From(c, Received(c, s, server, port, now), more, m);
      Sent(c, skipped, e.server, e.port, e.initial, e.at).1 == Sent(c, handled, e.server, e.port, e.initial, e.at).1
  {
    var s := After(c, run, n);
    var h := Received(c, s, server, port, now);
    ReachableIsSound(c, run, n);
    IdleInboundOnlyTouches(c, run, n, server, port, now);
    NothingToPurge(c, s, since, now);
    assert Close(c, s, h, since);
    StaysClose(c, s, h, more, m, since, now);
    CloseStep(c, From(c, s, more, m), From(c, h, more, m), more[m], since);
  }
}
