/**
  Which packets of a connection the loop rewrites, told by the packets before them.

  Main results: a client's SYN is rewritten exactly when the rules allow it, and so is everything the relay
  sends out; any other packet of an admitted connection that was last seen at `t` is rewritten if and only if it
  comes less than four hours after `t`, or less than two minutes after it once a FIN was seen, as long as the
  connection was neither ended nor crowded out of the table; and a packet of a connection that was never
  admitted is left alone.
 */
module FlowProgress {
  import opened Expiring
  import opened Flows

  /** The packet belongs to the tuple. */
  predicate OfTuple(e: Event, key: PeerKey, ports: Ports) {
    !RoutePacket(e.packet, ports).Pass? && KeyOf(e.packet, ports) == key
  }

  /** The SYN of another connection finds 65536 tuples and gives up this one: none left has an earlier deadline. */
  ghost predicate CrowdsOut(events: seq<Event>, tables: seq<FlowTable>, k: nat, key: PeerKey, ports: Ports)
    requires k < |events| && |tables| == |events| + 1
  {
    && !OfTuple(events[k], key, ports) && key in tables[k] && key !in tables[k + 1] && |tables[k]| >= 65536
    && forall kept :: kept in tables[k + 1] && kept in tables[k] && kept != KeyOf(events[k].packet, ports) ==>
         tables[k][key].expiresAt <= tables[k][kept].expiresAt
  }

  /** Event `i` admitted the tuple, event `k` is the last of it before `n`, and nothing gave it up since. */
  ghost predicate LastSeen(
    events: seq<Event>, tables: seq<FlowTable>, ports: Ports, i: nat, k: nat, n: nat, key: PeerKey)
    requires n <= |events| && |tables| == |events| + 1
  {
    && i <= k < n && AdmittedBy(events, i, n, key, ports) && OfTuple(events[k], key, ports)
    && (forall j :: i < j < n ==> !Admits(events[j], key, ports))
    && (forall j :: k < j < n ==>
          !OfTuple(events[j], key, ports) && !CrowdsOut(events, tables, j, key, ports))
  }

  /** A FIN of the tuple was seen behind the admitting SYN. */
  ghost predicate FinSeen(events: seq<Event>, ports: Ports, i: nat, n: nat, key: PeerKey)
    requires n <= |events|
  {
    exists j :: i < j < n && OfTuple(events[j], key, ports) && events[j].packet.fin
  }

  function IdleLimit(fin: bool): nat {
    if fin then 2 * 60 * 1000 else 4 * 60 * 60 * 1000
  }

  predicate Entry(m: FlowTable, key: PeerKey, fin: bool, expiresAt: nat) {
    key in m && m[key] == Timed(if fin then Closing else Open, expiresAt)
  }

  /** A step that does not touch the tuple leaves its entry, unless it is crowded out. */
  lemma {:induction false} OtherStep(events: seq<Event>, tables: seq<FlowTable>, ports: Ports, k: nat, key: PeerKey)
    requires Run(events, tables, ports) && k < |events| && !OfTuple(events[k], key, ports)
    requires !CrowdsOut(events, tables, k, key, ports) && key in tables[k]
    ensures key in tables[k + 1] && tables[k + 1][key] == tables[k][key]
  {
    var e := events[k];
    assert Step(tables[k], e.packet, e.bypass, e.at, ports, tables[k + 1], e.owned);
  }

  /** The SYN that admits a tuple opens its entry. */
  lemma {:induction false} AdmissionOpens(
    events: seq<Event>, tables: seq<FlowTable>, ports: Ports, i: nat, key: PeerKey)
    requires Run(events, tables, ports) && i < |events| && Admits(events[i], key, ports) && key.port != 0
    ensures Entry(tables[i + 1], key, false, events[i].at + 14400000)
  {
    var e := events[i];
    assert Step(tables[i], e.packet, e.bypass, e.at, ports, tables[i + 1], e.owned);
  }

  /** A packet of a live tuple keeps it for the time its state allows. */
  lemma {:induction false} PacketRefreshes(
    events: seq<Event>, tables: seq<FlowTable>, ports: Ports, k: nat, key: PeerKey, fin: bool, until: nat)
    requires Run(events, tables, ports) && k < |events| && OfTuple(events[k], key, ports)
    requires !Admits(events[k], key, ports) && !Ends(events[k], key, ports)
    requires Entry(tables[k], key, fin, until)
    ensures events[k].at < until ==>
      var closing := fin || events[k].packet.fin; Entry(tables[k + 1], key, closing, events[k].at + IdleLimit(closing))
    ensures events[k].at >= until ==> key !in tables[k + 1]
    ensures !RoutePacket(events[k].packet, ports).RedirectProxyToTarget? ==> (events[k].owned <==> events[k].at < until)
  {
    var e := events[k];
    assert Step(tables[k], e.packet, e.bypass, e.at, ports, tables[k + 1], e.owned);
  }

  lemma {:induction false} FinStep(events: seq<Event>, ports: Ports, i: nat, k: nat, key: PeerKey)
    requires i < k < |events|
    ensures FinSeen(events, ports, i, k + 1, key) <==>
      FinSeen(events, ports, i, k, key) || (OfTuple(events[k], key, ports) && events[k].packet.fin)
  {
  }

  lemma {:induction false} SeenFirst(events: seq<Event>, tables: seq<FlowTable>, ports: Ports, n: nat, key: PeerKey)
    requires n < |events| && |tables| == |events| + 1 && Admits(events[n], key, ports)
    ensures LastSeen(events, tables, ports, n, n, n + 1, key) && !FinSeen(events, ports, n, n + 1, key)
  {
  }

  lemma {:induction false} SeenAgain(
    events: seq<Event>, tables: seq<FlowTable>, ports: Ports, i: nat, k: nat, n: nat, key: PeerKey)
    requires n < |events| && |tables| == |events| + 1 && LastSeen(events, tables, ports, i, k, n, key)
    requires OfTuple(events[n], key, ports) && !Admits(events[n], key, ports) && !Ends(events[n], key, ports)
    ensures LastSeen(events, tables, ports, i, n, n + 1, key)
  {
  }

  lemma {:induction false} SeenLonger(
    events: seq<Event>, tables: seq<FlowTable>, ports: Ports, i: nat, k: nat, n: nat, key: PeerKey)
    requires n < |events| && |tables| == |events| + 1 && LastSeen(events, tables, ports, i, k, n, key)
    requires !OfTuple(events[n], key, ports) && !CrowdsOut(events, tables, n, key, ports)
    ensures LastSeen(events, tables, ports, i, k, n + 1, key)
  {
  }

  /** The table holds what the last packet of the tuple left. */
  ghost predicate LeftBy(
    events: seq<Event>, tables: seq<FlowTable>, ports: Ports, i: nat, k: nat, n: nat, key: PeerKey)
    requires n <= |events| && |tables| == |events| + 1
  {
    && LastSeen(events, tables, ports, i, k, n, key) && key in tables[k + 1]
    && var fin := FinSeen(events, ports, i, n, key); Entry(tables[n], key, fin, events[k].at + IdleLimit(fin))
  }

  lemma {:induction false} LeftByPacket(
    events: seq<Event>, tables: seq<FlowTable>, ports: Ports, i: nat, k: nat, n: nat, key: PeerKey)
    requires Run(events, tables, ports) && n < |events| && LeftBy(events, tables, ports, i, k, n, key)
    requires OfTuple(events[n], key, ports) && !Admits(events[n], key, ports) && !Ends(events[n], key, ports)
    requires key in tables[n + 1]
    ensures LeftBy(events, tables, ports, i, n, n + 1, key)
  {
    var fin := FinSeen(events, ports, i, n, key);
    FinStep(events, ports, i, n, key);
    PacketRefreshes(events, tables, ports, n, key, fin, events[k].at + IdleLimit(fin));
    SeenAgain(events, tables, ports, i, k, n, key);
  }

  lemma {:induction false} LeftByOther(
    events: seq<Event>, tables: seq<FlowTable>, ports: Ports, i: nat, k: nat, n: nat, key: PeerKey)
    requires Run(events, tables, ports) && n < |events| && LeftBy(events, tables, ports, i, k, n, key)
    requires !OfTuple(events[n], key, ports) && key in tables[n + 1]
    ensures LeftBy(events, tables, ports, i, k, n + 1, key)
  {
    FinStep(events, ports, i, n, key);
    OtherStep(events, tables, ports, n, key);
    SeenLonger(events, tables, ports, i, k, n, key);
  }

  /** An entry of the table is what its last packet left. */
  lemma {:induction false} EntryIsLastSeen(
    events: seq<Event>, tables: seq<FlowTable>, ports: Ports, n: nat, key: PeerKey) returns (i: nat, k: nat)
    requires Run(events, tables, ports) && n <= |events| && key in tables[n] && key.port != 0
    ensures LeftBy(events, tables, ports, i, k, n, key)
  {
    assert n > 0;
    var m := n - 1;
    var e := events[m];
    assert Step(tables[m], e.packet, e.bypass, e.at, ports, tables[n], e.owned);
    StepAdmits(tables[m], e, tables[n], ports, key);
    if Admits(e, key, ports) {
      AdmissionOpens(events, tables, ports, m, key);
      SeenFirst(events, tables, ports, m, key);
      i, k := m, m;
    } else {
      i, k := EntryIsLastSeen(events, tables, ports, m, key);
      if OfTuple(e, key, ports) {
        LeftByPacket(events, tables, ports, i, k, m, key);
        k := m;
      } else {
        LeftByOther(events, tables, ports, i, k, m, key);
      }
    }
  }

  /** After its last packet the entry stays as that left it. */
  lemma {:induction false} LastSeenIsEntry(
    events: seq<Event>, tables: seq<FlowTable>, ports: Ports, k: nat, n: nat, key: PeerKey)
    requires Run(events, tables, ports) && k < n <= |events| && key in tables[k + 1]
    requires forall j :: k < j < n ==> !OfTuple(events[j], key, ports) && !CrowdsOut(events, tables, j, key, ports)
    ensures key in tables[n]
    decreases n
  {
    if k + 1 < n {
      LastSeenIsEntry(events, tables, ports, k, n - 1, key);
      OtherStep(events, tables, ports, n - 1, key);
    }
  }

  lemma {:induction false} LastSeenIsUnique(
    events: seq<Event>, tables: seq<FlowTable>, ports: Ports, n: nat, key: PeerKey, i: nat, k: nat, a: nat, b: nat)
    requires n <= |events| && |tables| == |events| + 1
    requires LastSeen(events, tables, ports, i, k, n, key) && LastSeen(events, tables, ports, a, b, n, key)
    ensures i == a && k == b
  {
  }

  /**
    A packet of an admitted tuple, other than a SYN: with the tuple alive after its last packet at `k`, it is
    rewritten if and only if it comes within the idle limit.
   */
  lemma {:induction false} RewrittenExactly(
    events: seq<Event>, tables: seq<FlowTable>, ports: Ports, i: nat, k: nat, n: nat, key: PeerKey)
    requires Run(events, tables, ports) && n < |events| && key.port != 0
    requires LastSeen(events, tables, ports, i, k, n, key) && key in tables[k + 1]
    requires OfTuple(events[n], key, ports) && !Opens(events[n].packet)
    requires !RoutePacket(events[n].packet, ports).RedirectProxyToTarget?
    ensures events[n].owned <==> events[n].at < events[k].at + IdleLimit(FinSeen(events, ports, i, n, key))
  {
    LastSeenIsEntry(events, tables, ports, k, n, key);
    var a, b := EntryIsLastSeen(events, tables, ports, n, key);
    LastSeenIsUnique(events, tables, ports, n, key, i, k, a, b);
    var e := events[n];
    assert Step(tables[n], e.packet, e.bypass, e.at, ports, tables[n + 1], e.owned);
  }

  /** A packet of a tuple that no SYN admitted is left alone. */
  lemma {:induction false} StrangerIsLeftAlone(events: seq<Event>, tables: seq<FlowTable>, ports: Ports, n: nat)
    requires Run(events, tables, ports) && n < |events| && !Opens(events[n].packet)
    requires !RoutePacket(events[n].packet, ports).RedirectProxyToTarget?
    requires forall i :: 0 <= i < n ==> !Admits(events[i], KeyOf(events[n].packet, ports), ports)
    ensures !events[n].owned
  {
    var e := events[n];
    assert Step(tables[n], e.packet, e.bypass, e.at, ports, tables[n + 1], e.owned);
    if KeyOf(e.packet, ports) in tables[n] {
      var i := TableHoldsOnlyAdmitted(events, tables, ports, n, KeyOf(e.packet, ports));
    }
  }

  /** A client's SYN is rewritten exactly when the rules do not leave it alone; the relay's packets always are. */
  lemma {:induction false} SynExactly(events: seq<Event>, tables: seq<FlowTable>, ports: Ports, n: nat)
    requires Run(events, tables, ports) && n < |events|
    ensures RoutePacket(events[n].packet, ports).ReflectClientToProxy? && Opens(events[n].packet) ==>
      (events[n].owned <==> !events[n].bypass)
    ensures RoutePacket(events[n].packet, ports).RedirectProxyToTarget? ==> events[n].owned
    ensures RoutePacket(events[n].packet, ports).Pass? ==> !events[n].owned
  {
    var e := events[n];
    assert Step(tables[n], e.packet, e.bypass, e.at, ports, tables[n + 1], e.owned);
  }

  // ---- the routes ----

  /** Which packets are of which kind, by their direction and ports. */
  lemma {:induction false} RoutesExactly(p: Packet, ports: Ports)
    ensures RoutePacket(p, ports).ReflectProxyToClient? <==> p.outbound && p.sourcePort == ports.proxy
    ensures RoutePacket(p, ports).RedirectProxyToTarget? <==>
      p.outbound && p.sourcePort != ports.proxy && p.destinationPort == ports.connect
    ensures RoutePacket(p, ports).ReflectClientToProxy? <==>
      && p.outbound && p.sourcePort != ports.proxy && p.destinationPort != ports.connect && p.destinationPort == 443
    ensures RoutePacket(p, ports).RedirectTargetToProxy? <==> !p.outbound && p.sourcePort == 443
  {
  }

  /** The answer to the relay's SYN is the sample of the path to the server it dialled; nothing else is one. */
  lemma {:induction false} HopSampleIsOfServer(p: Packet, answer: Packet, ports: Ports)
    requires RoutePacket(p, ports).RedirectProxyToTarget?
    requires !answer.outbound && Reverses(answer, Rewritten(p, ports))
    ensures NoteOf(answer, ports, true) ==
      if answer.syn && answer.ack then HopSeen(p.destination, p.sourcePort, answer.ttl) else NoNote
    ensures NoteOf(answer, ports, false) == NoNote
  {
  }
}
