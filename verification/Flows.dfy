/**
  The packet loop's TCP side: which packets are rewritten, and to what.

  A packet's ports select a route, but a packet is only rewritten when its tuple is in the flow
  table, and a client tuple enters the table only on a SYN that the process rules allowed. The main
  results: over every run, a non-SYN client packet (or a reply to one) is rewritten only if an
  allowed SYN of its tuple came earlier with no reset or bypassed SYN after it; and the two
  rewrites of each pair are inverse, so both ends see the conversation they believe they have.
 */
module Flows {
  import opened Collections
  import opened Expiring

  const TCP_FLOW_IDLE_MS := 4 * 60 * 60 * 1000
  const TCP_FLOW_CLOSING_MS := 2 * 60 * 1000
  const PRUNE_INTERVAL_MS := 1000
  const MAX_TCP_FLOWS := 65536
  const HTTPS_PORT := 443

  type Address = seq<int>
  datatype Kind = Client | Upstream
  datatype PeerKey = PeerKey(address: Address, port: nat, kind: Kind)

  datatype Closing = Open | Closing
  type FlowTable = Table<PeerKey, Closing>

  // ---- the flow table ----

  function Deadline(closing: Closing, now: nat): nat {
    now + if closing.Closing? then TCP_FLOW_CLOSING_MS else TCP_FLOW_IDLE_MS
  }

  /** `m'` is `m` with a fresh entry for `key`; an entry may be lost only to make room. */
  ghost predicate Added(m: FlowTable, m': FlowTable, key: PeerKey, now: nat) {
    if key.port == 0 then m' == m
    else
      && key in m' && m'[key] == Timed(Open, now + TCP_FLOW_IDLE_MS)
      && (forall k :: k in m' && k != key ==> k in m && m'[k] == m[k])
      && (key in m || |m| < MAX_TCP_FLOWS ==> forall k :: k in m ==> k in m')
      && (forall lost, kept :: lost in m && lost !in m' && kept in m' && kept != key ==>
            m[lost].expiresAt <= m'[kept].expiresAt)
      && (|m| <= MAX_TCP_FLOWS ==> |m'| <= MAX_TCP_FLOWS)
  }

  /** A packet of the tuple: whether the tuple was live, and the refreshed, closing or erased entry. */
  function Tracked(m: FlowTable, key: PeerKey, fin: bool, rst: bool, now: nat): (r: (FlowTable, bool)) {
    if key !in m then (m, false)
    else if m[key].expiresAt <= now || rst then (m - {key}, m[key].expiresAt > now)
    else
      var closing := if fin then Closing else m[key].value;
      (m[key := Timed(closing, Deadline(closing, now))], true)
  }

  class TcpFlowTable {
    var entries: FlowTable
    var nextSweepMs: nat

    constructor ()
      ensures entries == map[] && nextSweepMs == 0
    {
      entries, nextSweepMs := map[], 0;
    }

    method Add(key: PeerKey, nowMs: nat)
      modifies this
      ensures Added(old(entries), entries, key, nowMs)
    {
      if key.port == 0 {
        return;
      }
      if key !in entries && |entries| >= MAX_TCP_FLOWS {
        MakeRoom(nowMs);
      }
      WriteSize(entries, key, Timed(Open, nowMs + TCP_FLOW_IDLE_MS));
      entries := entries[key := Timed(Open, nowMs + TCP_FLOW_IDLE_MS)];
    }

    method Track(key: PeerKey, fin: bool, rst: bool, nowMs: nat) returns (live: bool)
      modifies this`entries
      ensures (entries, live) == Tracked(old(entries), key, fin, rst, nowMs)
    {
      if key !in entries {
        return false;
      }
      var entry := entries[key];
      if entry.expiresAt <= nowMs || rst {
        entries := entries - {key};
        return entry.expiresAt > nowMs;
      }
      var closing := if fin then Closing else entry.value;
      entries := entries[key := Timed(closing, Deadline(closing, nowMs))];
      return true;
    }

    method Remove(key: PeerKey)
      modifies this`entries
      ensures entries == old(entries) - {key}
    {
      entries := entries - {key};
    }

    /** Sweeps at most once a second, and gives up the least recently seen sixteenth of a full table. */
    method MakeRoom(nowMs: nat)
      modifies this
      ensures Submap(entries, old(entries))
      ensures |entries| < MAX_TCP_FLOWS || |entries| < |old(entries)|
      ensures forall lost, kept :: lost in old(entries) && lost !in entries && kept in entries ==>
        old(entries)[lost].expiresAt <= entries[kept].expiresAt
    {
      if nowMs >= nextSweepMs {
        nextSweepMs := nowMs + PRUNE_INTERVAL_MS;
        LiveIsSmaller(entries, nowMs);
        entries := Live(entries, nowMs);
        if |entries| < MAX_TCP_FLOWS {
          return;
        }
      }
      ghost var swept := entries;
      var evict := if |entries| / 16 >= 1 then |entries| / 16 else 1;
      for i := 0 to evict
        invariant Submap(entries, swept) && |entries| == if i <= |swept| then |swept| - i else 0
        invariant forall lost, kept :: lost in swept && lost !in entries && kept in entries ==>
          swept[lost].expiresAt <= entries[kept].expiresAt
      {
        if entries != map[] {
          var k := FindOldest(entries);
          entries := entries - {k};
        }
      }
    }
  }

  // ---- routing and rewriting ----

  datatype Packet = Packet(
    outbound: bool, source: Address, sourcePort: nat, destination: Address, destinationPort: nat,
    syn: bool, ack: bool, fin: bool, rst: bool, ttl: nat)

  datatype Ports = Ports(proxy: nat, connect: nat)

  datatype Route = Pass | ReflectClientToProxy | ReflectProxyToClient | RedirectProxyToTarget | RedirectTargetToProxy

  function RoutePacket(p: Packet, ports: Ports): Route {
    if p.outbound then
      if p.sourcePort == ports.proxy then ReflectProxyToClient
      else if p.destinationPort == ports.connect then RedirectProxyToTarget
      else if p.destinationPort == HTTPS_PORT then ReflectClientToProxy
      else Pass
    else if p.sourcePort == HTTPS_PORT then RedirectTargetToProxy
    else Pass
  }

  /** The first packet of a connection attempt. */
  predicate Opens(p: Packet) {
    p.syn && !p.ack
  }

  /** The table entry a packet belongs to; `Pass` packets belong to none. */
  function KeyOf(p: Packet, ports: Ports): PeerKey
  {
    match RoutePacket(p, ports)
    case ReflectProxyToClient => PeerKey(p.destination, p.destinationPort, Client)
    case RedirectProxyToTarget => PeerKey(p.destination, p.sourcePort, Upstream)
    case RedirectTargetToProxy => PeerKey(p.source, p.destinationPort, Upstream)
    case _ => PeerKey(p.destination, p.sourcePort, Client)
  }

  function SwapAddresses(p: Packet): Packet {
    p.(source := p.destination, destination := p.source)
  }

  function Rewritten(p: Packet, ports: Ports): Packet {
    match RoutePacket(p, ports)
    case ReflectClientToProxy => SwapAddresses(p).(destinationPort := ports.proxy, outbound := false)
    case ReflectProxyToClient => SwapAddresses(p).(sourcePort := HTTPS_PORT, outbound := false)
    case RedirectProxyToTarget => p.(destinationPort := HTTPS_PORT)
    case RedirectTargetToProxy => p.(sourcePort := ports.connect)
    case Pass => p
  }

  /** What the loop tells the other registries about a packet it rewrites. */
  datatype Note =
    | NoNote
    | FlowSeen(server: Address, clientPort: nat, targetPort: nat, connectPort: nat)
    | HopSeen(server: Address, localPort: nat, ttl: nat)

  /** A client's SYN announces its flow to the relay; a server's SYN-ACK carries a clean sample of the path. */
  function NoteOf(p: Packet, ports: Ports, owned: bool): Note {
    if !owned then NoNote
    else
      match RoutePacket(p, ports)
      case ReflectClientToProxy =>
        if Opens(p) then FlowSeen(p.destination, p.sourcePort, HTTPS_PORT, ports.connect) else NoNote
      case RedirectTargetToProxy => if p.syn && p.ack then HopSeen(p.source, p.destinationPort, p.ttl) else NoNote
      case _ => NoNote
  }

  /**
    One TCP packet through the loop. `bypass` is what the process rules answer for a client SYN;
    `owned` says whether the packet is rewritten.
   */
  ghost predicate Step(m: FlowTable, p: Packet, bypass: bool, now: nat, ports: Ports, m': FlowTable, owned: bool) {
    var key := KeyOf(p, ports);
    match RoutePacket(p, ports)
    case ReflectClientToProxy =>
      if Opens(p) then
        if bypass then m' == m - {key} && !owned else Added(m, m', key, now) && owned
      else (m', owned) == Tracked(m, key, p.fin, p.rst, now)
    case RedirectProxyToTarget =>
      && owned
      && if Opens(p) then Added(m, m', key, now) else m' == Tracked(m, key, p.fin, p.rst, now).0
    case Pass => m' == m && !owned
    case _ => (m', owned) == Tracked(m, key, p.fin, p.rst, now)
  }

  class PacketLoop {
    const ports: Ports
    const table: TcpFlowTable

    constructor (ports: Ports)
      ensures this.ports == ports && fresh(table) && table.entries == map[]
    {
      this.ports := ports;
      table := new TcpFlowTable();
    }

    method Process(p: Packet, bypass: bool, nowMs: nat) returns (sent: Packet, note: Note, ghost owned: bool)
      modifies table
      ensures Step(old(table.entries), p, bypass, nowMs, ports, table.entries, owned)
      ensures sent == (if owned then Rewritten(p, ports) else p) && note == NoteOf(p, ports, owned)
    {
      var rewrite := false;
      var route := RoutePacket(p, ports);
      match route {
        case ReflectClientToProxy =>
          var key := PeerKey(p.destination, p.sourcePort, Client);
          if p.syn && !p.ack {
            if bypass {
              table.Remove(key);
            } else {
              table.Add(key, nowMs);
              rewrite := true;
            }
          } else {
            rewrite := table.Track(key, p.fin, p.rst, nowMs);
          }
        case ReflectProxyToClient =>
          rewrite := table.Track(PeerKey(p.destination, p.destinationPort, Client), p.fin, p.rst, nowMs);
        case RedirectProxyToTarget =>
          var key := PeerKey(p.destination, p.sourcePort, Upstream);
          if p.syn && !p.ack {
            table.Add(key, nowMs);
          } else {
            var _ := table.Track(key, p.fin, p.rst, nowMs);
          }
          rewrite := true;
        case RedirectTargetToProxy =>
          rewrite := table.Track(PeerKey(p.source, p.destinationPort, Upstream), p.fin, p.rst, nowMs);
        case Pass =>
      }
      note := NoNote;
      if rewrite && route.ReflectClientToProxy? && p.syn && !p.ack {
        note := FlowSeen(p.destination, p.sourcePort, HTTPS_PORT, ports.connect);
      } else if rewrite && route.RedirectTargetToProxy? && p.syn && p.ack {
        note := HopSeen(p.source, p.destinationPort, p.ttl);
      }
      sent := if rewrite then Rewritten(p, ports) else p;
      owned := rewrite;
    }
  }

  // ---- what a run guarantees ----

  datatype Event = Event(packet: Packet, bypass: bool, at: nat, owned: bool)

  /** A run of the loop from an empty table: `tables[i]` is the table before event `i`. */
  ghost predicate Run(events: seq<Event>, tables: seq<FlowTable>, ports: Ports) {
    && |tables| == |events| + 1 && tables[0] == map[]
    && forall i :: 0 <= i < |events| ==>
      Step(tables[i], events[i].packet, events[i].bypass, events[i].at, ports, tables[i + 1], events[i].owned)
  }

  lemma {:induction false} TrackedSize(m: FlowTable, key: PeerKey, fin: bool, rst: bool, now: nat)
    ensures |Tracked(m, key, fin, rst, now).0| <= |m|
  {
    if key in m {
      assert m.Keys == (m - {key}).Keys + {key};
      var closing := if fin then Closing else m[key].value;
      WriteSize(m, key, Timed(closing, Deadline(closing, now)));
    }
  }

  lemma {:induction false} RemovedSize(m: FlowTable, key: PeerKey)
    ensures |m - {key}| <= |m|
  {
    if key in m { assert m.Keys == (m - {key}).Keys + {key}; } else { assert m - {key} == m; }
  }

  /** The table never holds more tuples than its capacity. */
  lemma {:induction false} RunKeepsCapacity(events: seq<Event>, tables: seq<FlowTable>, ports: Ports, n: nat)
    requires Run(events, tables, ports) && n <= |events|
    ensures |tables[n]| <= MAX_TCP_FLOWS
  {
    if n > 0 {
      RunKeepsCapacity(events, tables, ports, n - 1);
      var e, m := events[n - 1], tables[n - 1];
      assert Step(m, e.packet, e.bypass, e.at, ports, tables[n], e.owned);
      TrackedSize(m, KeyOf(e.packet, ports), e.packet.fin, e.packet.rst, e.at);
      RemovedSize(m, KeyOf(e.packet, ports));
    }
  }

  /** The SYN that put a tuple into the table. */
  predicate Admits(e: Event, key: PeerKey, ports: Ports) {
    && KeyOf(e.packet, ports) == key && Opens(e.packet)
    && (RoutePacket(e.packet, ports).ReflectClientToProxy? || RoutePacket(e.packet, ports).RedirectProxyToTarget?)
    && (key.kind == Client ==> !e.bypass)
  }

  /** The events that end a tuple: a reset in either direction, or a client SYN the rules leave alone. */
  predicate Ends(e: Event, key: PeerKey, ports: Ports) {
    && !RoutePacket(e.packet, ports).Pass? && KeyOf(e.packet, ports) == key
    && if Opens(e.packet) && RoutePacket(e.packet, ports).ReflectClientToProxy? then e.bypass
       else e.packet.rst && !(Opens(e.packet) && RoutePacket(e.packet, ports).RedirectProxyToTarget?)
  }

  /** Event `i` admitted the tuple and nothing before `n` ended it. */
  predicate AdmittedBy(events: seq<Event>, i: nat, n: nat, key: PeerKey, ports: Ports)
    requires i < n <= |events|
  {
    Admits(events[i], key, ports) && forall j :: i < j < n ==> !Ends(events[j], key, ports)
  }

  lemma StepAdmits(m: FlowTable, e: Event, m': FlowTable, ports: Ports, key: PeerKey)
    requires Step(m, e.packet, e.bypass, e.at, ports, m', e.owned) && key in m'
    ensures Admits(e, key, ports) || (key in m && !Ends(e, key, ports))
  {
  }

  lemma {:induction false} TableHoldsOnlyAdmitted(
    events: seq<Event>, tables: seq<FlowTable>, ports: Ports, n: nat, key: PeerKey)
    returns (i: nat)
    requires Run(events, tables, ports) && n <= |events| && key in tables[n]
    ensures i < n && AdmittedBy(events, i, n, key, ports)
  {
    StepAdmits(tables[n - 1], events[n - 1], tables[n], ports, key);
    if Admits(events[n - 1], key, ports) {
      i := n - 1;
    } else {
      i := TableHoldsOnlyAdmitted(events, tables, ports, n - 1, key);
    }
  }

  /**
    Every rewritten packet of the client side, other than an allowed SYN, and every rewritten answer
    of a server belongs to a tuple whose SYN was admitted earlier and which nothing ended since.
   */
  lemma RewrittenOnlyAfterAllowedSyn(events: seq<Event>, tables: seq<FlowTable>, ports: Ports, n: nat) returns (i: nat)
    requires Run(events, tables, ports) && n < |events| && events[n].owned
    requires !RoutePacket(events[n].packet, ports).RedirectProxyToTarget?
    requires RoutePacket(events[n].packet, ports).ReflectClientToProxy? ==> !Opens(events[n].packet)
    ensures i < n && AdmittedBy(events, i, n, KeyOf(events[n].packet, ports), ports)
  {
    var e := events[n];
    assert Step(tables[n], e.packet, e.bypass, e.at, ports, tables[n + 1], e.owned);
    i := TableHoldsOnlyAdmitted(events, tables, ports, n, KeyOf(e.packet, ports));
  }

  /** A client SYN that the rules leave alone is forwarded untouched, and so is the rest of its connection. */
  lemma BypassedConnectionUntouched(events: seq<Event>, tables: seq<FlowTable>, ports: Ports, s: nat, n: nat)
    requires Run(events, tables, ports) && s < n < |events|
    requires var syn := events[s].packet;
      RoutePacket(syn, ports).ReflectClientToProxy? && Opens(syn) && events[s].bypass
    requires var key := KeyOf(events[s].packet, ports);
      && KeyOf(events[n].packet, ports) == key && !Opens(events[n].packet)
      && forall j :: s < j < n ==> !Admits(events[j], key, ports)
    ensures !events[s].owned && !events[n].owned
  {
    var key := KeyOf(events[s].packet, ports);
    var e := events[s];
    assert Step(tables[s], e.packet, e.bypass, e.at, ports, tables[s + 1], e.owned);
    assert Ends(e, key, ports) && !Admits(e, key, ports);
    if events[n].owned {
      var i := RewrittenOnlyAfterAllowedSyn(events, tables, ports, n);
    }
  }

  // ---- the rewrites are inverse ----

  /** `q` travels between the same two endpoints as `p`, the other way. */
  predicate Reverses(q: Packet, p: Packet) {
    && q.source == p.destination && q.sourcePort == p.destinationPort
    && q.destination == p.source && q.destinationPort == p.sourcePort
  }

  /** The relay answers what it was shown; the client receives the answer from the server it dialled. */
  lemma ReplyReachesClientFromItsServer(p: Packet, reply: Packet, ports: Ports)
    requires RoutePacket(p, ports).ReflectClientToProxy?
    requires reply.outbound && Reverses(reply, Rewritten(p, ports))
    ensures RoutePacket(reply, ports).ReflectProxyToClient?
    ensures KeyOf(reply, ports) == KeyOf(p, ports)
    ensures Reverses(Rewritten(reply, ports), p) && !Rewritten(reply, ports).outbound
  {
  }

  /** The flow announced for a client's SYN is the one the relay accepts, and names the server the client dialled. */
  lemma AnnouncedFlowIsAccepted(p: Packet, ports: Ports)
    requires RoutePacket(p, ports).ReflectClientToProxy? && Opens(p)
    ensures var accepted := Rewritten(p, ports);
      && NoteOf(p, ports, true) == FlowSeen(accepted.source, accepted.sourcePort, p.destinationPort, ports.connect)
      && accepted.source == p.destination && accepted.destinationPort == ports.proxy && !accepted.outbound
  {
  }

  /** The server answers what it was sent; the relay receives the answer from the port it dialled. */
  lemma AnswerReachesRelayFromDialledPort(p: Packet, answer: Packet, ports: Ports)
    requires RoutePacket(p, ports).RedirectProxyToTarget?
    requires !answer.outbound && Reverses(answer, Rewritten(p, ports))
    ensures RoutePacket(answer, ports).RedirectTargetToProxy?
    ensures KeyOf(answer, ports) == KeyOf(p, ports)
    ensures Reverses(Rewritten(answer, ports), p)
  {
  }
}
