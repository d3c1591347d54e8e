/**
  The packet loop and the relay's claims together: the loop announces the flows whose SYN it reflects,
  and a connection that reaches the relay is served only if it claims an announced flow.

  Main results, over every interleaving of packets, claims, sweeps and clearings: a successful claim
  goes back to one client SYN of exactly its tuple that the process rules allowed, reflected less than
  fifteen seconds before, and hands out the port the client dialled; and no two claims go back to the
  same SYN.
 */
module FlowClaims {
  import opened Basics
  import opened Expiring
  import Flows
  import Claims

  datatype Action =
    | Arrives(event: Flows.Event)
    | Serves(claim: Claims.Event)

  /** What the registry of claims sees of an action; a packet that announces nothing is an empty observation. */
  function Seen(a: Action, ports: Flows.Ports, text: Flows.Address -> string): Claims.Event {
    match a
    case Arrives(e) =>
      (match Flows.NoteOf(e.packet, ports, e.owned)
       case FlowSeen(server, client, target, connect) => Claims.Observe(text(server), client, target, connect, e.at)
       case _ => Claims.Observe("", 0, 0, 0, e.at))
    case Serves(claim) => claim
  }

  ghost predicate Next(
    flows: Flows.FlowTable, pending: Table<string, Claims.Target>, a: Action, flows': Flows.FlowTable,
    pending': Table<string, Claims.Target>, ports: Flows.Ports, text: Flows.Address -> string)
  {
    && Claims.Step(pending, Seen(a, ports, text), pending')
    && match a
       case Arrives(e) => Flows.Step(flows, e.packet, e.bypass, e.at, ports, flows', e.owned)
       case Serves(claim) => !claim.Observe? && flows' == flows
  }

  /** The loop and the relay, from the start: only the loop observes. */
  ghost predicate Interleaving(
    actions: seq<Action>, flows: seq<Flows.FlowTable>, pending: seq<Table<string, Claims.Target>>,
    ports: Flows.Ports, text: Flows.Address -> string)
  {
    && |flows| == |pending| == |actions| + 1 && flows[0] == map[] && pending[0] == map[]
    && forall i :: 0 <= i < |actions| ==>
         Next(flows[i], pending[i], actions[i], flows[i + 1], pending[i + 1], ports, text)
  }

  function SeenBy(actions: seq<Action>, ports: Flows.Ports, text: Flows.Address -> string): (events: seq<Claims.Event>)
    ensures |events| == |actions| && forall i :: 0 <= i < |actions| ==> events[i] == Seen(actions[i], ports, text)
  {
    seq(|actions|, i requires 0 <= i < |actions| => Seen(actions[i], ports, text))
  }

  lemma {:induction false} ClaimsRun(
    actions: seq<Action>, flows: seq<Flows.FlowTable>, pending: seq<Table<string, Claims.Target>>,
    ports: Flows.Ports, text: Flows.Address -> string)
    requires Interleaving(actions, flows, pending, ports, text)
    ensures Claims.Run(SeenBy(actions, ports, text), pending)
  {
    var events := SeenBy(actions, ports, text);
    forall i | 0 <= i < |events| ensures Claims.Step(pending[i], events[i], pending[i + 1]) {
      assert Next(flows[i], pending[i], actions[i], flows[i + 1], pending[i + 1], ports, text);
    }
  }

  /** A client's SYN that the rules allowed and the loop reflected, to the server that `address` names. */
  predicate AllowedSyn(a: Action, ports: Flows.Ports, text: Flows.Address -> string, address: string, port: nat) {
    && a.Arrives? && Flows.RoutePacket(a.event.packet, ports).ReflectClientToProxy? && Flows.Opens(a.event.packet)
    && !a.event.bypass && a.event.owned
    && text(a.event.packet.destination) == address && a.event.packet.sourcePort == port
  }

  predicate Succeeds(a: Action) {
    a.Serves? && a.claim.Claim? && a.claim.result.Some?
  }

  /** The claim at `n` goes back to the SYN at `i`. */
  ghost predicate GoesBackTo(
    actions: seq<Action>, ports: Flows.Ports, text: Flows.Address -> string, n: nat, i: nat)
    requires n < |actions| && Succeeds(actions[n])
  {
    var claim := actions[n].claim;
    && i < n && AllowedSyn(actions[i], ports, text, claim.address, claim.port)
    && claim.at < actions[i].event.at + Claims.PENDING_FLOW_TTL_MS
    && claim.result == Some(Claims.Target(claim.address, actions[i].event.packet.destinationPort, ports.connect))
    && forall j :: i < j < n ==> !Claims.Touches(Seen(actions[j], ports, text), claim.address, claim.port)
  }

  /** A successful claim goes back to an allowed SYN of its own tuple, less than fifteen seconds old. */
  lemma {:induction false} ClaimGoesBackToAllowedSyn(
    actions: seq<Action>, flows: seq<Flows.FlowTable>, pending: seq<Table<string, Claims.Target>>,
    ports: Flows.Ports, text: Flows.Address -> string, n: nat) returns (i: nat)
    requires Interleaving(actions, flows, pending, ports, text) && n < |actions| && Succeeds(actions[n])
    ensures GoesBackTo(actions, ports, text, n, i)
  {
    var events := SeenBy(actions, ports, text);
    ClaimsRun(actions, flows, pending, ports, text);
    i := Claims.ClaimConsumesObservation(events, pending, n);
    assert Next(flows[i], pending[i], actions[i], flows[i + 1], pending[i + 1], ports, text);
    ObserverIsAllowedSyn(flows[i], actions[i], flows[i + 1], ports, text, events[n].address, events[n].port);
    forall j | i < j < n ensures !Claims.Touches(Seen(actions[j], ports, text), events[n].address, events[n].port) {
      assert !Claims.Touches(events[j], events[n].address, events[n].port);
    }
  }

  /** Only an allowed SYN is observed. */
  lemma {:induction false} ObserverIsAllowedSyn(
    flows: Flows.FlowTable, a: Action, flows': Flows.FlowTable, ports: Flows.Ports, text: Flows.Address -> string,
    address: string, port: nat)
    requires Claims.Observes(Seen(a, ports, text), address, port) && (a.Serves? ==> !a.claim.Observe?)
    requires a.Arrives? ==>
      Flows.Step(flows, a.event.packet, a.event.bypass, a.event.at, ports, flows', a.event.owned)
    ensures AllowedSyn(a, ports, text, address, port)
    ensures Seen(a, ports, text) ==
      Claims.Observe(address, port, a.event.packet.destinationPort, ports.connect, a.event.at)
  {
  }

  /** Two successful claims never go back to the same SYN. */
  lemma {:induction false} EachSynIsClaimedOnce(
    actions: seq<Action>, ports: Flows.Ports, text: Flows.Address -> string, m: nat, i: nat, n: nat, j: nat)
    requires m < n < |actions| && Succeeds(actions[m]) && Succeeds(actions[n])
    requires GoesBackTo(actions, ports, text, m, i) && GoesBackTo(actions, ports, text, n, j)
    ensures i != j
  {
    if i == j {
      assert Claims.Touches(Seen(actions[m], ports, text), actions[n].claim.address, actions[n].claim.port);
    }
  }

  /** The SYN at `i` is one that the claim at `n` may go back to. */
  ghost predicate Open(actions: seq<Action>, ports: Flows.Ports, text: Flows.Address -> string, n: nat, i: nat)
    requires n < |actions| && actions[n].Serves? && actions[n].claim.Claim?
  {
    var claim := actions[n].claim;
    && i < n && AllowedSyn(actions[i], ports, text, claim.address, claim.port)
    && claim.at < actions[i].event.at + Claims.PENDING_FLOW_TTL_MS
    && forall j :: i < j < n ==> !Claims.Touches(Seen(actions[j], ports, text), claim.address, claim.port)
  }

  lemma {:induction false} AllowedSynIsObserved(
    a: Action, ports: Flows.Ports, text: Flows.Address -> string, address: string, port: nat)
    requires AllowedSyn(a, ports, text, address, port) && address != "" && port != 0 && ports.connect != 0
    ensures Claims.Observes(Seen(a, ports, text), address, port) && Seen(a, ports, text).at == a.event.at
  {
  }

  /**
    While time does not run backwards, a connection is served if and only if an allowed SYN of its tuple was
    reflected less than fifteen seconds before, nothing has touched the tuple since, and no later flow found
    the registry full and took its place.
   */
  lemma {:induction false} ServedExactlyAfterAllowedSyn(
    actions: seq<Action>, flows: seq<Flows.FlowTable>, pending: seq<Table<string, Claims.Target>>,
    ports: Flows.Ports, text: Flows.Address -> string, n: nat)
    requires Interleaving(actions, flows, pending, ports, text) && Claims.Timely(SeenBy(actions, ports, text))
    requires n < |actions| && actions[n].Serves? && actions[n].claim.Claim?
    requires actions[n].claim.address != "" && actions[n].claim.port != 0 && ports.connect != 0
    ensures var claim := actions[n].claim;
      claim.result.Some? <==>
        exists i: nat ::
          && Open(actions, ports, text, n, i)
          && Claims.Kept(SeenBy(actions, ports, text), pending, i, n, claim.address, claim.port)
  {
    var events, claim := SeenBy(actions, ports, text), actions[n].claim;
    ClaimsRun(actions, flows, pending, ports, text);
    Claims.ClaimSucceedsExactly(events, pending, n);
    assert Claims.Step(pending[n], events[n], pending[n + 1]);
    if claim.result.Some? {
      var i := ClaimGoesBackToAllowedSyn(actions, flows, pending, ports, text, n);
      UntouchedInSeen(actions, ports, text, i, n, claim.address, claim.port);
      Claims.PresentWasKept(events, pending, i, n, claim.address, claim.port);
      assert Open(actions, ports, text, n, i);
    }
    if i: nat :| Open(actions, ports, text, n, i) && Claims.Kept(events, pending, i, n, claim.address, claim.port) {
      AllowedSynIsObserved(actions[i], ports, text, claim.address, claim.port);
      assert Claims.Backs(events, n, i);
    }
  }

  lemma {:induction false} UntouchedInSeen(
    actions: seq<Action>, ports: Flows.Ports, text: Flows.Address -> string, i: nat, n: nat, address: string,
    port: nat)
    requires n <= |actions|
    requires forall j :: i < j < n ==> !Claims.Touches(Seen(actions[j], ports, text), address, port)
    ensures forall j :: i < j < n ==> !Claims.Touches(SeenBy(actions, ports, text)[j], address, port)
  {
  }
}
