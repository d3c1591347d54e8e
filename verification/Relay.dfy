/**
  The relay's data path. First the hello is delivered, possibly over several fresh connections with a
  different framing each; then whatever the client sent behind the hello goes to the winning
  connection; then a pump copies bytes both ways until both sides have finished.

  Sockets are nondeterministic: every send may be short, blocked or fail, every receive may return any
  next part of the stream. Over every such run: a connection that did not win has seen nothing but
  (part of) a framing of the hello record, the winner has seen exactly one framing followed by the
  trailing bytes, and each direction of the pump delivers a prefix of its source, in order and without
  loss or repetition, and forwards the end of stream only after every byte. A tunnel that takes over a
  failed connection repeats trailing bytes exactly when their flush had got part of the way.
 */
module Relay {
  import opened Basics
  import opened Bytes
  import opened TlsHello
  import opened RecordSplits

  const MAX_PROBE_ATTEMPTS := 12
  const PUMP_BUFFER_SIZE := 65536
  const SEND_CHUNK := 1048576

  // ---- sending on a non-blocking socket ----

  /** Sends as much as the socket takes. `ok` is false only on a hard error; a full buffer leaves `sent` short. */
  method SendSome(data: seq<Byte>, socket: seq<Byte>) returns (sent: nat, ok: bool, socket': seq<Byte>)
    ensures sent <= |data| && socket' == socket + data[..sent]
    ensures !ok ==> sent < |data|
  {
    sent, socket' := 0, socket;
    while sent < |data|
      invariant sent <= |data| && socket' == socket + data[..sent]
      decreases |data| - sent
    {
      var chunk := if |data| - sent <= SEND_CHUNK then |data| - sent else SEND_CHUNK;
      var written: int :| -1 <= written <= chunk;
      if written < 0 {
        var wouldBlock: bool :| true;
        return sent, wouldBlock, socket';
      }
      if written == 0 {
        return sent, false, socket';
      }
      assert data[..sent] + data[sent..sent + written] == data[..sent + written];
      socket' := socket' + data[sent..sent + written];
      sent := sent + written;
    }
    ok := true;
  }

  // ---- one direction of the pump ----

  class Direction {
    const stream: seq<Byte>     // everything the source will ever send
    var taken: nat              // how much of it has been received
    var delivered: seq<Byte>    // what the destination has received
    var finForwarded: bool
    var pending: seq<Byte>
    var offset: nat
    var eof: bool

    /** Delivered plus pending is exactly what was received, and the end is forwarded only after every byte. */
    ghost predicate Valid()
      reads this
    {
      && taken <= |stream| && offset <= |pending|
      && (pending != [] ==> offset < |pending|)
      && delivered + pending[offset..] == stream[..taken]
      && (eof ==> taken == |stream|)
      && (finForwarded <==> eof && pending == [])
    }

    predicate Finished()
      reads this
    {
      eof && pending == []
    }

    constructor (stream: seq<Byte>)
      ensures Valid() && this.stream == stream && delivered == [] && !finForwarded
    {
      this.stream := stream;
      taken, delivered, finForwarded, pending, offset, eof := 0, [], false, [], 0, false;
    }

    /** The destination accepts more of what is pending. */
    method Flush() returns (ok: bool)
      requires Valid() && pending != []
      modifies this
      ensures Valid() && taken == old(taken) && old(delivered) <= delivered
    {
      var sent, fine, after := SendSome(pending[offset..], delivered);
      assert pending[offset..][..sent] + pending[offset + sent..] == pending[offset..];
      delivered := after;
      ok := fine;
      offset := offset + sent;
      if offset == |pending| {
        pending, offset := [], 0;
        if eof {
          finForwarded := true;
        }
      }
    }

    /** The source has something: bytes, the end of its stream, nothing after all, or an error. */
    method Receive() returns (ok: bool)
      requires Valid() && pending == [] && !eof
      modifies this
      ensures Valid() && old(taken) <= taken && old(delivered) <= delivered
    {
      ok := true;
      var outcome: int :| -2 <= outcome <= |stream| - taken && outcome <= PUMP_BUFFER_SIZE
        && (outcome == 0 ==> taken == |stream|);
      if outcome == -2 {
        return true;
      }
      if outcome == -1 {
        return false;
      }
      if outcome == 0 {
        eof := true;
        finForwarded := true;
        return true;
      }
      var chunk := stream[taken..taken + outcome];
      assert stream[..taken] + chunk == stream[..taken + outcome];
      taken := taken + outcome;
      var sent, fine, after := SendSome(chunk, delivered);
      assert chunk[..sent] + chunk[sent..] == chunk;
      delivered := after;
      ok := fine;
      if sent < |chunk| {
        pending, offset := chunk[sent..], 0;
      }
    }

    /** One turn: flush first; read only when nothing is pending, which is how back-pressure reaches the source. */
    method Service(writable: bool, readable: bool) returns (ok: bool)
      requires Valid()
      modifies this
      ensures Valid() && old(taken) <= taken && old(delivered) <= delivered
      ensures old(Finished()) ==> Finished()
    {
      ok := true;
      if Finished() {
        return;
      }
      if pending != [] {
        if writable { ok := Flush(); }
        return;
      }
      if readable { ok := Receive(); }
    }
  }

  /**
    Any number of turns of the pump. At every point each destination holds a prefix of its source's
    stream, and an end of stream that was forwarded came after all of it.
   */
  method Pump(up: Direction, down: Direction, turns: nat) returns (aborted: bool)
    requires up != down && up.Valid() && down.Valid()
    modifies up, down
    ensures up.Valid() && down.Valid()
    ensures old(up.delivered) <= up.delivered <= up.stream && (up.finForwarded ==> up.delivered == up.stream)
    ensures old(down.delivered) <= down.delivered <= down.stream
    ensures down.finForwarded ==> down.delivered == down.stream
  {
    aborted := false;
    var turn := 0;
    while turn < turns && !(up.Finished() && down.Finished())
      invariant up.Valid() && down.Valid()
      invariant old(up.delivered) <= up.delivered && old(down.delivered) <= down.delivered
      decreases turns - turn
    {
      var ok := Turn(up, down);
      if !ok {
        aborted := true;
        break;
      }
      turn := turn + 1;
    }
    DeliveredIsPrefix(up);
    DeliveredIsPrefix(down);
  }

  method Turn(up: Direction, down: Direction) returns (ok: bool)
    requires up != down && up.Valid() && down.Valid()
    modifies up, down
    ensures up.Valid() && down.Valid()
    ensures old(up.delivered) <= up.delivered && old(down.delivered) <= down.delivered
  {
    var readable: bool, writable: bool :| true;
    ok := up.Service(writable, readable);
    if ok {
      readable, writable :| true;
      ok := down.Service(writable, readable);
    }
  }

  lemma {:induction false} DeliveredIsPrefix(d: Direction)
    requires d.Valid()
    ensures d.delivered <= d.stream && (d.finForwarded ==> d.delivered == d.stream)
  {
    assert d.delivered <= d.stream[..d.taken];
  }

  // ---- delivering the hello ----

  /** The buffer starts with a hello in one record. */
  predicate Single(buffer: seq<Byte>) {
    Parse(buffer).status == Ok && !Parse(buffer).hello.spansRecords
  }

  /** The bytes of the hello record under one profile: re-framed when the profile cuts it, untouched otherwise. */
  function PlanBytes(buffer: seq<Byte>, profile: string, delay: nat): seq<Byte>
    requires Parse(buffer).status == Ok
  {
    ParsedHelloDescribesRecord(buffer);
    var hello := Parse(buffer).hello;
    var plan := BuildPlan(profile, hello, delay);
    if plan.None? || plan.value.recordSplits == [] then buffer[..hello.recordTotalLength]
    else
      PlanCutsInside(profile, hello, delay);
      Split(buffer[..3], buffer[5..hello.recordTotalLength], plan.value.recordSplits)
  }

  /** A blocking send of everything, which may fail with only a part on the wire. */
  method SendAll(socket: seq<Byte>, data: seq<Byte>, sent: nat, complete: bool) returns (socket': seq<Byte>, ok: bool)
    ensures socket' == socket + OnWire(data, sent, complete) && ok == complete
  {
    socket' := socket + (if complete then data else data[..Min(sent, |data|)]);
    ok := complete;
  }

  /** What reaches the wire of a send: all of it, or a part when it fails. */
  function OnWire(data: seq<Byte>, sent: nat, complete: bool): (wire: seq<Byte>)
    ensures wire <= data && (complete ==> wire == data) && (!complete ==> |wire| == Min(sent, |data|))
  {
    if complete then data else data[..Min(sent, |data|)]
  }

  /** What the world does to one profile of the order, should it be tried. */
  datatype Fate = Fate(stopping: bool, reconnected: bool, sent: nat, complete: bool, serverHello: bool)

  /** What it does to the rest: how far the flush behind the hello gets, and how much of the buffer a tunnel takes. */
  datatype World = World(fates: seq<Fate>, flushed: nat, flushComplete: bool, taken: nat)

  /** One profile of the order: the bytes it sends, whether it can be tried at all, and its fate if it is. */
  datatype Attempt = Attempt(framing: seq<Byte>, tryable: bool, fate: Fate)

  /** The connections made: what each was sent, for which profile of the order, and whether the last one won. */
  datatype Probing = Probing(logs: seq<seq<Byte>>, tried: seq<nat>, won: bool)

  const NOTHING_TRIED := Probing([], [], false)

  function Preceded(log: seq<Byte>, i: nat, rest: Probing): Probing {
    Probing([log] + rest.logs, [i] + rest.tried, rest.won)
  }

  function Log(a: Attempt): (log: seq<Byte>)
    ensures log <= a.framing
  {
    OnWire(a.framing, a.fate.sent, a.fate.complete)
  }

  predicate Wins(a: Attempt) {
    a.fate.complete && a.fate.serverHello
  }

  /** The probe from profile `i` of the order on, when `n` connections have been used. */
  function Probed(attempts: seq<Attempt>, i: nat, n: nat): Probing
    requires i <= |attempts|
    decreases |attempts| - i
  {
    if i == |attempts| || n >= MAX_PROBE_ATTEMPTS || attempts[i].fate.stopping then NOTHING_TRIED
    else if !attempts[i].tryable then Probed(attempts, i + 1, n)
    else if n > 0 && !attempts[i].fate.reconnected then NOTHING_TRIED
    else if Wins(attempts[i]) then Probing([Log(attempts[i])], [i], true)
    else Preceded(Log(attempts[i]), i, Probed(attempts, i + 1, n + 1))
  }

  /** What was found so far, continued. */
  function Continued(logs: seq<seq<Byte>>, tried: seq<nat>, rest: Probing): Probing {
    Probing(logs + rest.logs, tried + rest.tried, rest.won)
  }

  lemma {:induction false} ContinuedStep(logs: seq<seq<Byte>>, tried: seq<nat>, log: seq<Byte>, i: nat, rest: Probing)
    ensures Continued(logs, tried, Preceded(log, i, rest)) == Continued(logs + [log], tried + [i], rest)
  {
    assert logs + ([log] + rest.logs) == (logs + [log]) + rest.logs;
    assert tried + ([i] + rest.tried) == (tried + [i]) + rest.tried;
  }

  lemma {:induction false} ContinuedEnd(logs: seq<seq<Byte>>, tried: seq<nat>)
    ensures Continued(logs, tried, NOTHING_TRIED) == Probing(logs, tried, false)
  {
    assert logs + [] == logs && tried + [] == tried;
  }

  lemma {:induction false} ContinuedWin(logs: seq<seq<Byte>>, tried: seq<nat>, log: seq<Byte>, i: nat)
    ensures Continued(logs, tried, Probing([log], [i], true)) == Probing(logs + [log], tried + [i], true)
  {
  }

  lemma {:induction false} ContinuedStart(p: Probing)
    ensures Continued([], [], p) == p
  {
    assert [] + p.logs == p.logs && [] + p.tried == p.tried;
  }

  /** One attempt on a fresh connection. */
  method SendAttempt(a: Attempt) returns (log: seq<Byte>, ok: bool)
    ensures log == Log(a) && ok == a.fate.complete
  {
    log, ok := SendAll([], a.framing, a.fate.sent, a.fate.complete);
    assert [] + OnWire(a.framing, a.fate.sent, a.fate.complete) == log;
  }

  /** Tries the profiles in order, each on a connection of its own, until one gets a ServerHello. */
  method Probe(attempts: seq<Attempt>) returns (logs: seq<seq<Byte>>, tried: seq<nat>, won: bool)
    ensures Probing(logs, tried, won) == Probed(attempts, 0, 0)
  {
    logs, tried, won := [], [], false;
    ghost var all := Probed(attempts, 0, 0);
    ContinuedStart(all);
    for i := 0 to |attempts|
      invariant !won && all == Continued(logs, tried, Probed(attempts, i, |logs|))
    {
      ContinuedEnd(logs, tried);
      var fate := attempts[i].fate;
      if |logs| >= MAX_PROBE_ATTEMPTS || fate.stopping { return; }
      if attempts[i].tryable {
        if |logs| > 0 && !fate.reconnected { return; }
        var log, ok := SendAttempt(attempts[i]);
        if ok && fate.serverHello {
          ContinuedWin(logs, tried, log, i);
          return logs + [log], tried + [i], true;
        }
        ContinuedStep(logs, tried, log, i, Probed(attempts, i + 1, |logs| + 1));
        logs, tried := logs + [log], tried + [i];
      }
    }
    ContinuedEnd(logs, tried);
  }

  /** Connections that only ever saw (part of) a framing of the hello, the winner all of one. */
  ghost predicate HelloOnly(attempts: seq<Attempt>, p: Probing) {
    && |p.logs| == |p.tried|
    && (forall i :: 0 <= i < |p.logs| ==> p.tried[i] < |attempts| && attempts[p.tried[i]].tryable)
    && (forall i :: 0 <= i < |p.logs| ==> p.logs[i] <= attempts[p.tried[i]].framing)
    && (p.won ==> p.logs != [] && p.logs[|p.logs| - 1] == attempts[p.tried[|p.logs| - 1]].framing)
  }

  lemma {:induction false} PrecededHelloOnly(attempts: seq<Attempt>, i: nat, rest: Probing)
    requires i < |attempts| && attempts[i].tryable && HelloOnly(attempts, rest)
    ensures HelloOnly(attempts, Preceded(Log(attempts[i]), i, rest))
  {
    var p := Preceded(Log(attempts[i]), i, rest);
    forall j | 0 <= j < |p.logs|
      ensures p.tried[j] < |attempts| && attempts[p.tried[j]].tryable && p.logs[j] <= attempts[p.tried[j]].framing
    {
      if j > 0 { assert p.logs[j] == rest.logs[j - 1] && p.tried[j] == rest.tried[j - 1]; }
    }
    if p.won {
      var last := |rest.logs| - 1;
      assert p.logs[|p.logs| - 1] == rest.logs[last] && p.tried[|p.logs| - 1] == rest.tried[last];
    }
  }

  /** Whatever the world does, no connection of the probe sees anything but the hello, and there are at most twelve. */
  lemma {:induction false} ProbeSendsHelloOnly(attempts: seq<Attempt>, i: nat, n: nat)
    requires i <= |attempts| && n <= MAX_PROBE_ATTEMPTS
    ensures HelloOnly(attempts, Probed(attempts, i, n))
    ensures n + |Probed(attempts, i, n).logs| <= MAX_PROBE_ATTEMPTS
    decreases |attempts| - i
  {
    if i < |attempts| && n < MAX_PROBE_ATTEMPTS && !attempts[i].fate.stopping {
      if !attempts[i].tryable {
        ProbeSendsHelloOnly(attempts, i + 1, n);
      } else if (n == 0 || attempts[i].fate.reconnected) && !Wins(attempts[i]) {
        ProbeSendsHelloOnly(attempts, i + 1, n + 1);
        PrecededHelloOnly(attempts, i, Probed(attempts, i + 1, n + 1));
      }
    }
  }

  // ---- which profiles are tried ----

  predicate GotThrough(a: Attempt) {
    a.fate.complete && a.fate.serverHello
  }

  /** Why the probe ends in front of profile `stop` when no profile got through. */
  predicate MayEnd(attempts: seq<Attempt>, stop: nat, used: nat)
    requires stop <= |attempts|
  {
    || stop == |attempts| || used >= 12 || attempts[stop].fate.stopping
    || (attempts[stop].tryable && used > 0 && !attempts[stop].fate.reconnected)
  }

  /** Exactly the profiles from `i` up to `stop` that can be tried, in order. */
  ghost predicate InTurn(attempts: seq<Attempt>, i: nat, stop: nat, tried: seq<nat>) {
    && i <= stop <= |attempts|
    && (forall k :: 0 <= k < |tried| ==> i <= tried[k] < stop && attempts[tried[k]].tryable)
    && (forall j, k :: 0 <= j < k < |tried| ==> tried[j] < tried[k])
    && (forall x :: i <= x < stop && attempts[x].tryable ==> x in tried)
    && (forall x :: i <= x < stop ==> !attempts[x].fate.stopping)
  }

  /** Connection `k` of those after `n` others: what its send put on the wire, and whether it got through. */
  predicate Turned(attempts: seq<Attempt>, n: nat, p: Probing, k: nat)
    requires k < |p.logs| == |p.tried| && p.tried[k] < |attempts|
  {
    var a := attempts[p.tried[k]];
    && p.logs[k] == OnWire(a.framing, a.fate.sent, a.fate.complete)
    && (GotThrough(a) <==> p.won && k == |p.tried| - 1) && (n + k > 0 ==> a.fate.reconnected)
  }

  /**
    From profile `i` on, with `n` connections used: exactly the profiles in front of `stop` that can be tried
    were tried, each in its turn, none but the last got through, and the last did exactly when the probe won;
    without a winner there was a reason to end.
   */
  ghost predicate TriedInTurn(attempts: seq<Attempt>, i: nat, n: nat, p: Probing, stop: nat) {
    && InTurn(attempts, i, stop, p.tried) && |p.logs| == |p.tried|
    && (forall k :: 0 <= k < |p.tried| ==> Turned(attempts, n, p, k))
    && (p.won ==> |p.tried| > 0 && stop == p.tried[|p.tried| - 1] + 1)
    && (!p.won ==> MayEnd(attempts, stop, n + |p.tried|))
  }

  lemma {:induction false} OneMoreInTurn(attempts: seq<Attempt>, i: nat, stop: nat, tried: seq<nat>)
    requires i < |attempts| && attempts[i].tryable && !attempts[i].fate.stopping
    requires InTurn(attempts, i + 1, stop, tried)
    ensures InTurn(attempts, i, stop, [i] + tried)
  {
    var all := [i] + tried;
    forall k | 0 <= k < |all| ensures i <= all[k] < stop && attempts[all[k]].tryable {
      if k > 0 { assert all[k] == tried[k - 1]; }
    }
    forall x | i <= x < stop && attempts[x].tryable ensures x in all {
      if x > i { assert x in tried; } else { assert all[0] == x; }
    }
  }

  lemma {:induction false} TurnsGrow(attempts: seq<Attempt>, i: nat, n: nat, rest: Probing, stop: nat)
    requires i < |attempts| && attempts[i].tryable && !attempts[i].fate.stopping && !GotThrough(attempts[i])
    requires n == 0 || attempts[i].fate.reconnected
    requires TriedInTurn(attempts, i + 1, n + 1, rest, stop)
    ensures TriedInTurn(attempts, i, n, Preceded(Log(attempts[i]), i, rest), stop)
  {
    var p := Preceded(Log(attempts[i]), i, rest);
    OneMoreInTurn(attempts, i, stop, rest.tried);
    forall k | 0 <= k < |p.tried| ensures Turned(attempts, n, p, k) {
      if k > 0 {
        assert Turned(attempts, n + 1, rest, k - 1);
        assert p.tried[k] == rest.tried[k - 1] && p.logs[k] == rest.logs[k - 1];
      }
    }
    if p.won { assert p.tried[|p.tried| - 1] == rest.tried[|rest.tried| - 1]; }
  }

  /** The probe tries the profiles in turn. */
  lemma {:induction false} ProbeTriesInTurn(attempts: seq<Attempt>, i: nat, n: nat) returns (stop: nat)
    requires i <= |attempts|
    ensures TriedInTurn(attempts, i, n, Probed(attempts, i, n), stop)
    decreases |attempts| - i
  {
    if i == |attempts| || n >= MAX_PROBE_ATTEMPTS || attempts[i].fate.stopping {
      stop := i;
    } else if !attempts[i].tryable {
      stop := ProbeTriesInTurn(attempts, i + 1, n);
    } else if n > 0 && !attempts[i].fate.reconnected {
      stop := i;
    } else if Wins(attempts[i]) {
      stop := i + 1;
    } else {
      stop := ProbeTriesInTurn(attempts, i + 1, n + 1);
      TurnsGrow(attempts, i, n, Probed(attempts, i + 1, n + 1), stop);
    }
  }

  // ---- the whole connection ----

  /** What a connection leaves: its logs, whether it was established, and what a tunnel was given. */
  datatype Connection = Connection(logs: seq<seq<Byte>>, tried: seq<nat>, established: bool, tunnel: seq<Byte>)

  /** The logs once the flush has put its part behind the winner's framing. */
  function Flushed(p: Probing, trailing: seq<Byte>, w: World): seq<seq<Byte>> {
    if !p.won || p.logs == [] then p.logs
    else p.logs[|p.logs| - 1 := p.logs[|p.logs| - 1] + OnWire(trailing, w.flushed, w.flushComplete)]
  }

  /** A client's buffer whose first `total` bytes are the hello record. */
  function Connected(attempts: seq<Attempt>, buffer: seq<Byte>, total: nat, tunnelAvailable: bool, w: World): Connection
    requires total <= |buffer|
  {
    var p := Probed(attempts, 0, 0);
    var established := p.won && w.flushComplete;
    Connection(Flushed(p, buffer[total..], w), p.tried, established,
               if !established && tunnelAvailable then OnWire(buffer, w.taken, false) else [])
  }

  /** The profile describes this hello, and there is a driver if it needs one. */
  predicate CanTry(buffer: seq<Byte>, profile: string, packetDriver: bool, delay: nat)
    requires Parse(buffer).status == Ok
  {
    && (BuildPlan(profile, Parse(buffer).hello, delay).Some? || profile == "none")
    && (packetDriver || !StartsWith(profile, "packet-"))
  }

  /** The attempts an order of profiles stands for. */
  function AttemptsFor(
    buffer: seq<Byte>, order: seq<string>, packetDriver: bool, delay: nat, fates: seq<Fate>): (attempts: seq<Attempt>)
    requires Parse(buffer).status == Ok && |order| == |fates|
    ensures |attempts| == |order|
  {
    seq(|order|, i requires 0 <= i < |order| =>
      Attempt(PlanBytes(buffer, order[i], delay), CanTry(buffer, order[i], packetDriver, delay), fates[i]))
  }

  /** The flush behind the winner's framing touches the last connection only. */
  method FlushTrailing(logs: seq<seq<Byte>>, trailing: seq<Byte>, w: World) returns (logs': seq<seq<Byte>>, ok: bool)
    requires logs != []
    ensures ok == w.flushComplete
    ensures logs' == logs[|logs| - 1 := logs[|logs| - 1] + OnWire(trailing, w.flushed, w.flushComplete)]
  {
    var log: seq<Byte>;
    log, ok := SendAll(logs[|logs| - 1], trailing, w.flushed, w.flushComplete);
    logs' := logs[|logs| - 1 := log];
  }

  /**
    The connection as the program runs it: probe, flush behind the winner, and when either fails a tunnel,
    if there is one, that is given the client's buffer from its first byte.
   */
  method RunAttempts(attempts: seq<Attempt>, buffer: seq<Byte>, total: nat, tunnelAvailable: bool, w: World)
    returns (c: Connection)
    requires total <= |buffer|
    ensures c == Connected(attempts, buffer, total, tunnelAvailable, w)
  {
    var logs, tried, won := Probe(attempts);
    ProbeSendsHelloOnly(attempts, 0, 0);
    var established := false;
    if won {
      logs, established := FlushTrailing(logs, buffer[total..], w);
    }
    var tunnel: seq<Byte> := [];
    if !established && tunnelAvailable {
      var whole;
      tunnel, whole := SendAll([], buffer, w.taken, false);
      assert tunnel == OnWire(buffer, w.taken, false);
    }
    c := Connection(logs, tried, established, tunnel);
  }

  method RunConnection(
    buffer: seq<Byte>, order: seq<string>, packetDriver: bool, delay: nat, tunnelAvailable: bool, w: World)
    returns (c: Connection)
    requires Single(buffer) && |order| == |w.fates|
    ensures Parse(buffer).hello.recordTotalLength <= |buffer|
    ensures var attempts := AttemptsFor(buffer, order, packetDriver, delay, w.fates);
      c == Connected(attempts, buffer, Parse(buffer).hello.recordTotalLength, tunnelAvailable, w)
  {
    ParsedHelloDescribesRecord(buffer);
    var attempts := AttemptsFor(buffer, order, packetDriver, delay, w.fates);
    c := RunAttempts(attempts, buffer, Parse(buffer).hello.recordTotalLength, tunnelAvailable, w);
  }

  // ---- where the bytes behind the hello go ----

  /** Byte `x` of what trails the hello stands behind a whole framing in what connection `i` was sent. */
  predicate OnConnection(attempts: seq<Attempt>, trailing: seq<Byte>, c: Connection, i: nat, x: nat)
    requires i < |c.logs| == |c.tried| && c.tried[i] < |attempts| && x < |trailing|
  {
    var framing := attempts[c.tried[i]].framing;
    framing <= c.logs[i] && |c.logs[i]| > |framing| + x && c.logs[i][|framing| + x] == trailing[x]
  }

  /** It stands at its place in what the tunnel was given. */
  predicate OnTunnel(buffer: seq<Byte>, total: nat, c: Connection, x: nat)
    requires total + x < |buffer|
  {
    |c.tunnel| > total + x && c.tunnel[total + x] == buffer[total + x]
  }

  /** Behind a framing stands as much as the flush put there. */
  lemma {:induction false} WireBehindFraming(framing: seq<Byte>, trailing: seq<Byte>, w: World, x: nat)
    requires x < |trailing|
    ensures var log := framing + OnWire(trailing, w.flushed, w.flushComplete);
      && framing <= log
      && (|log| > |framing| + x <==> w.flushComplete || x < w.flushed)
      && (|log| > |framing| + x ==> log[|framing| + x] == trailing[x])
  {
  }

  /** The connections of the probe are those of the whole. */
  lemma {:induction false} ConnectionShape(
    attempts: seq<Attempt>, buffer: seq<Byte>, total: nat, tunnelAvailable: bool, w: World)
    requires total <= |buffer|
    ensures var c, p := Connected(attempts, buffer, total, tunnelAvailable, w), Probed(attempts, 0, 0);
      && |c.logs| == |c.tried| == |p.logs| && c.tried == p.tried
      && (forall i :: 0 <= i < |c.tried| ==> c.tried[i] < |attempts|)
      && (p.won ==> |c.logs| > 0)
  {
    ProbeSendsHelloOnly(attempts, 0, 0);
  }

  /**
    Across all attempts: a trailing byte is sent to a server only on the winning connection, exactly when
    the flush got as far as it.
   */
  lemma {:induction false} TrailingGoesToWinnerOnly(
    attempts: seq<Attempt>, buffer: seq<Byte>, total: nat, tunnelAvailable: bool, w: World, i: nat, x: nat)
    requires total + x < |buffer| && i < |Probed(attempts, 0, 0).logs|
    ensures var c := Connected(attempts, buffer, total, tunnelAvailable, w);
      && i < |c.logs| == |c.tried| && c.tried[i] < |attempts|
      && (OnConnection(attempts, buffer[total..], c, i, x) <==>
          Probed(attempts, 0, 0).won && i == |c.logs| - 1 && (w.flushComplete || x < w.flushed))
  {
    var p := Probed(attempts, 0, 0);
    ProbeSendsHelloOnly(attempts, 0, 0);
    ConnectionShape(attempts, buffer, total, tunnelAvailable, w);
    WireBehindFraming(attempts[p.tried[i]].framing, buffer[total..], w, x);
  }

  lemma {:induction false} TunnelTakesTrailing(
    attempts: seq<Attempt>, buffer: seq<Byte>, total: nat, tunnelAvailable: bool, w: World, x: nat)
    requires total + x < |buffer|
    ensures var c := Connected(attempts, buffer, total, tunnelAvailable, w);
      OnTunnel(buffer, total, c, x) <==> !c.established && tunnelAvailable && total + x < w.taken
  {
  }

  /** Byte `x` is sent to a server and to the tunnel. */
  ghost predicate SentTwice(attempts: seq<Attempt>, buffer: seq<Byte>, total: nat, c: Connection, x: nat)
    requires total + x < |buffer| && |c.logs| == |c.tried| && forall i :: 0 <= i < |c.tried| ==> c.tried[i] < |attempts|
  {
    && OnTunnel(buffer, total, c, x)
    && exists i :: 0 <= i < |c.logs| && OnConnection(attempts, buffer[total..], c, i, x)
  }

  /**
    What goes out twice, byte by byte: exactly what the flush behind a winner had put on the wire when it
    failed, as far as the tunnel then took the buffer.
   */
  lemma {:induction false} SentTwiceExactly(
    attempts: seq<Attempt>, buffer: seq<Byte>, total: nat, tunnelAvailable: bool, w: World, x: nat)
    requires total + x < |buffer|
    ensures var c := Connected(attempts, buffer, total, tunnelAvailable, w);
      && |c.logs| == |c.tried| && (forall i :: 0 <= i < |c.tried| ==> c.tried[i] < |attempts|)
      && (SentTwice(attempts, buffer, total, c, x) <==>
          && Probed(attempts, 0, 0).won && !w.flushComplete && tunnelAvailable
          && x < w.flushed && total + x < w.taken)
  {
    var p := Probed(attempts, 0, 0);
    var c := Connected(attempts, buffer, total, tunnelAvailable, w);
    ConnectionShape(attempts, buffer, total, tunnelAvailable, w);
    TunnelTakesTrailing(attempts, buffer, total, tunnelAvailable, w, x);
    forall i | 0 <= i < |c.logs|
      ensures OnConnection(attempts, buffer[total..], c, i, x) <==>
        p.won && i == |c.logs| - 1 && (w.flushComplete || x < w.flushed)
    {
      TrailingGoesToWinnerOnly(attempts, buffer, total, tunnelAvailable, w, i, x);
    }
    if p.won {
      var last := |c.logs| - 1;
      assert OnConnection(attempts, buffer[total..], c, last, x) <==> w.flushComplete || x < w.flushed;
    }
  }

  // ---- what a caller can know beforehand ----

  ghost predicate SomeTryable(attempts: seq<Attempt>) {
    exists i :: 0 <= i < |attempts| && attempts[i].tryable
  }

  lemma {:induction false} WinnerWasTryable(attempts: seq<Attempt>, i: nat, n: nat)
    requires i <= |attempts| && Probed(attempts, i, n).won
    ensures SomeTryable(attempts)
    decreases |attempts| - i
  {
    if !attempts[i].tryable { WinnerWasTryable(attempts, i + 1, n); }
  }

  /** The fate of an attempt that everything goes well for. */
  const KIND_FATE := Fate(false, true, 0, true, true)

  lemma {:induction false} KindWorldWins(attempts: seq<Attempt>, i: nat, k: nat)
    requires i <= k < |attempts| && attempts[k].tryable
    requires forall j :: 0 <= j < |attempts| ==> attempts[j].fate == KIND_FATE
    ensures Probed(attempts, i, 0).won
    decreases k - i
  {
    if !attempts[i].tryable { KindWorldWins(attempts, i + 1, k); }
  }

  /** In this world byte `x` of what trails the hello goes out twice. */
  ghost predicate Repeats(
    buffer: seq<Byte>, order: seq<string>, packetDriver: bool, delay: nat, tunnelAvailable: bool, w: World, x: nat)
    requires Single(buffer)
  {
    var total := Parse(buffer).hello.recordTotalLength;
    && |w.fates| == |order| && total + x < |buffer|
    && var attempts := AttemptsFor(buffer, order, packetDriver, delay, w.fates);
       var c := Connected(attempts, buffer, total, tunnelAvailable, w);
       && |c.logs| == |c.tried| && (forall i :: 0 <= i < |c.tried| ==> c.tried[i] < |attempts|)
       && SentTwice(attempts, buffer, total, c, x)
  }

  /** Some profile of the order will be tried. */
  ghost predicate SomeTried(buffer: seq<Byte>, order: seq<string>, packetDriver: bool, delay: nat)
    requires Parse(buffer).status == Ok
  {
    exists i :: 0 <= i < |order| && CanTry(buffer, order[i], packetDriver, delay)
  }

  lemma {:induction false} RepeatsNeeds(
    buffer: seq<Byte>, order: seq<string>, packetDriver: bool, delay: nat, tunnelAvailable: bool, w: World, x: nat)
    requires Single(buffer) && Repeats(buffer, order, packetDriver, delay, tunnelAvailable, w, x)
    ensures tunnelAvailable && |buffer| > Parse(buffer).hello.recordTotalLength
    ensures SomeTried(buffer, order, packetDriver, delay)
  {
    var attempts := AttemptsFor(buffer, order, packetDriver, delay, w.fates);
    SentTwiceExactly(attempts, buffer, Parse(buffer).hello.recordTotalLength, tunnelAvailable, w, x);
    WinnerWasTryable(attempts, 0, 0);
    var i :| 0 <= i < |attempts| && attempts[i].tryable;
    assert CanTry(buffer, order[i], packetDriver, delay);
  }

  lemma {:induction false} RepeatsCanHappen(
    buffer: seq<Byte>, order: seq<string>, packetDriver: bool, delay: nat, k: nat) returns (w: World)
    requires Single(buffer) && |buffer| > Parse(buffer).hello.recordTotalLength
    requires k < |order| && CanTry(buffer, order[k], packetDriver, delay)
    ensures w == World(seq(|order|, i => KIND_FATE), 1, false, |buffer|)
    ensures Repeats(buffer, order, packetDriver, delay, true, w, 0)
  {
    w := World(seq(|order|, i => KIND_FATE), 1, false, |buffer|);
    var attempts := AttemptsFor(buffer, order, packetDriver, delay, w.fates);
    KindWorldWins(attempts, 0, k);
    SentTwiceExactly(attempts, buffer, Parse(buffer).hello.recordTotalLength, true, w, 0);
  }

  /**
    Before the call: there is an outcome of the sends in which bytes go out twice if and only if there is
    a tunnel, something trails the hello, and some profile of the order will be tried.
   */
  lemma {:induction false} MayRepeatExactly(
    buffer: seq<Byte>, order: seq<string>, packetDriver: bool, delay: nat, tunnelAvailable: bool)
    requires Single(buffer)
    ensures (exists w: World, x: nat :: Repeats(buffer, order, packetDriver, delay, tunnelAvailable, w, x)) <==>
      && tunnelAvailable && |buffer| > Parse(buffer).hello.recordTotalLength
      && SomeTried(buffer, order, packetDriver, delay)
  {
    if w: World, x: nat :| Repeats(buffer, order, packetDriver, delay, tunnelAvailable, w, x) {
      RepeatsNeeds(buffer, order, packetDriver, delay, tunnelAvailable, w, x);
    }
    var trails := |buffer| > Parse(buffer).hello.recordTotalLength;
    if tunnelAvailable && trails && SomeTried(buffer, order, packetDriver, delay) {
      var k :| 0 <= k < |order| && CanTry(buffer, order[k], packetDriver, delay);
      var w := RepeatsCanHappen(buffer, order, packetDriver, delay, k);
    }
  }

  /** A hello with one byte of early data behind it. */
  lemma {:induction false} HelloWithByteBehind(hello: seq<Byte>, buffer: seq<Byte>)
    requires hello == CoverHello([97]) && buffer == hello + [23]
    ensures Single(buffer)
    ensures |buffer| == Parse(buffer).hello.recordTotalLength + 1
  {
    CoverHelloParsesBack([97]);
    CoverHelloLayout([97]);
    DecisionIsFinal(hello, buffer);
  }

  /** When the flush of that byte fails behind it, the tunnel sends it again. */
  lemma {:induction false} RepeatedByteExample() returns (buffer: seq<Byte>, w: World)
    ensures buffer == CoverHello([97]) + [23] && w == World([KIND_FATE], 1, false, |buffer|)
    ensures Single(buffer)
    ensures |buffer| == Parse(buffer).hello.recordTotalLength + 1
    ensures Repeats(buffer, ["none"], false, 0, true, w, 0)
  {
    var hello := CoverHello([97]);
    buffer := hello + [23];
    HelloWithByteBehind(hello, buffer);
    w := OneTryRepeats(buffer);
  }

  lemma {:induction false} OneTryRepeats(buffer: seq<Byte>) returns (w: World)
    requires Single(buffer) && |buffer| > Parse(buffer).hello.recordTotalLength
    ensures w == World([KIND_FATE], 1, false, |buffer|) && Repeats(buffer, ["none"], false, 0, true, w, 0)
  {
    NoneIsTried(buffer);
    w := RepeatsCanHappen(buffer, ["none"], false, 0, 0);
    assert w.fates == [KIND_FATE];
  }

  lemma {:induction false} NoneIsTried(buffer: seq<Byte>)
    requires Parse(buffer).status == Ok
    ensures CanTry(buffer, "none", false, 0)
  {
    assert "none"[0] == 'n' && "packet-"[0] == 'p';
  }

  /**
    What the client receives: the answer the probe already read, and then what the pump delivers. It is
    always a prefix of what the server sent, and the end of the stream comes behind all of it.
   */
  method ServeClient(first: seq<Byte>, sent: nat, complete: bool, up: Direction, down: Direction, turns: nat)
    returns (client: seq<Byte>, aborted: bool)
    requires up != down && up.Valid() && down.Valid() && down.delivered == [] && !down.finForwarded
    modifies up, down
    ensures up.Valid() && down.Valid()
    ensures client <= first + down.stream
    ensures down.finForwarded ==> client == first + down.stream
  {
    var flushed;
    client, flushed := SendAll([], first, sent, complete);
    assert [] + OnWire(first, sent, complete) == client;
    if !flushed {
      Prefixed(client, first, down.stream);
      return client, true;
    }
    aborted := Pump(up, down, turns);
    client := client + down.delivered;
    AppendedPrefix(first, down.delivered, down.stream);
  }

  lemma {:induction false} Prefixed(a: seq<Byte>, b: seq<Byte>, c: seq<Byte>)
    requires a <= b
    ensures a <= b + c
  {
  }

  lemma {:induction false} AppendedPrefix(a: seq<Byte>, b: seq<Byte>, c: seq<Byte>)
    requires b <= c
    ensures a + b <= a + c
  {
  }

  /** A buffer that is no whole hello, or whose hello spans records, is forwarded byte for byte, once. */
  method DeliverUntouched(buffer: seq<Byte>, sent: nat, complete: bool) returns (log: seq<Byte>, established: bool)
    requires !Single(buffer)
    ensures log == (if buffer == [] then [] else OnWire(buffer, sent, complete))
    ensures log <= buffer && (established ==> log == buffer) && (established <==> buffer == [] || complete)
  {
    if buffer == [] {
      return [], true;
    }
    log, established := SendAll([], buffer, sent, complete);
    assert [] + OnWire(buffer, sent, complete) == log;
  }

  /** What becomes of such a buffer: what the server and a tunnel were given, and whether the send went through. */
  datatype Forwarding = Forwarding(log: seq<Byte>, established: bool, tunnel: seq<Byte>)

  /** What the world does to it: how far the send gets, and how much of the buffer a tunnel takes. */
  datatype Passage = Passage(sent: nat, complete: bool, taken: nat)

  function Forwarded(buffer: seq<Byte>, tunnelAvailable: bool, w: Passage): Forwarding {
    var established := buffer == [] || w.complete;
    Forwarding(OnWire(buffer, w.sent, w.complete), established,
               if !established && tunnelAvailable then OnWire(buffer, w.taken, false) else [])
  }

  /** The connection of a buffer that is forwarded as it is, with the tunnel behind a failed send. */
  method RunUntouched(buffer: seq<Byte>, tunnelAvailable: bool, w: Passage) returns (f: Forwarding)
    requires !Single(buffer)
    ensures f == Forwarded(buffer, tunnelAvailable, w)
  {
    var log, established := DeliverUntouched(buffer, w.sent, w.complete);
    var tunnel: seq<Byte> := [];
    if !established && tunnelAvailable {
      var whole;
      tunnel, whole := SendAll([], buffer, w.taken, false);
      assert tunnel == OnWire(buffer, w.taken, false);
    }
    f := Forwarding(log, established, tunnel);
  }

  /** Byte `x` reaches the server and the tunnel. */
  predicate ForwardedTwice(buffer: seq<Byte>, f: Forwarding, x: nat)
    requires x < |buffer|
  {
    |f.log| > x && f.log[x] == buffer[x] && |f.tunnel| > x && f.tunnel[x] == buffer[x]
  }

  /** Byte by byte: what the failed send had put on the wire, as far as the tunnel then took the buffer. */
  lemma {:induction false} ForwardedTwiceExactly(buffer: seq<Byte>, tunnelAvailable: bool, w: Passage, x: nat)
    requires x < |buffer|
    ensures ForwardedTwice(buffer, Forwarded(buffer, tunnelAvailable, w), x) <==>
      !w.complete && tunnelAvailable && x < w.sent && x < w.taken
  {
  }

  /** Before the call: some outcome repeats a byte if and only if there is a tunnel and anything to send. */
  lemma {:induction false} MayForwardTwiceExactly(buffer: seq<Byte>, tunnelAvailable: bool)
    ensures (exists w: Passage, x: nat ::
               x < |buffer| && ForwardedTwice(buffer, Forwarded(buffer, tunnelAvailable, w), x)) <==>
      tunnelAvailable && buffer != []
  {
    if w: Passage, x: nat :| x < |buffer| && ForwardedTwice(buffer, Forwarded(buffer, tunnelAvailable, w), x) {
      ForwardedTwiceExactly(buffer, tunnelAvailable, w, x);
    }
    if tunnelAvailable && buffer != [] {
      var w := Passage(1, false, 1);
      ForwardedTwiceExactly(buffer, tunnelAvailable, w, 0);
      assert ForwardedTwice(buffer, Forwarded(buffer, tunnelAvailable, w), 0);
    }
  }

  lemma {:induction false} UntouchedRecordDecodes(buffer: seq<Byte>, total: nat)
    requires 5 < total <= |buffer| && total == 5 + Read16(buffer, 3) && total <= 5 + MAX_RECORD_PAYLOAD
    ensures var record := TlsRecord(buffer[..3], buffer[5..total]);
      Decoded(buffer[..total]) == Some([record]) && Payloads([record]) == buffer[5..total]
  {
    var payload := buffer[5..total];
    assert Put16(|payload|) == [buffer[3], buffer[4]];
    assert buffer[..total] == Record(buffer[..3], payload) + [];
    DecodeOne(buffer[..3], payload, []);
    assert Decoded([]) == Some([]);
    var record := TlsRecord(buffer[..3], payload);
    assert [record] + [] == [record];
    assert payload + [] == payload;
  }

  /** Whatever the profile, the winning server's record layer receives the handshake bytes of the original record. */
  lemma {:induction false} EveryProfileCarriesTheHello(buffer: seq<Byte>, profile: string, delay: nat)
    requires Parse(buffer).status == Ok
    ensures var hello := Parse(buffer).hello;
      && 5 <= hello.recordTotalLength <= |buffer|
      && var records := Decoded(PlanBytes(buffer, profile, delay));
      && records.Some? && Payloads(records.value) == buffer[5..hello.recordTotalLength]
      && forall r :: r in records.value ==> r.prefix == buffer[..3]
  {
    ParsedHelloDescribesRecord(buffer);
    var hello := Parse(buffer).hello;
    var plan := BuildPlan(profile, hello, delay);
    if plan.None? || plan.value.recordSplits == [] {
      UntouchedRecordDecodes(buffer, hello.recordTotalLength);
    } else {
      SplitHelloReassembles(buffer, profile, delay, plan.value);
    }
  }

  /** Under a profile with cuts, record `i` of what is sent is the stretch of the hello between two of them. */
  lemma {:induction false} SentRecords(buffer: seq<Byte>, profile: string, delay: nat, i: nat)
    requires Parse(buffer).status == Ok
    requires var plan := BuildPlan(profile, Parse(buffer).hello, delay);
      plan.Some? && plan.value.recordSplits != [] && i <= |plan.value.recordSplits|
    ensures var hello := Parse(buffer).hello;
      var splits := BuildPlan(profile, hello, delay).value.recordSplits;
      var bounds, records := splits + [hello.recordPayloadLength], Decoded(PlanBytes(buffer, profile, delay));
      && 5 + hello.recordPayloadLength == hello.recordTotalLength <= |buffer|
      && records.Some? && |records.value| == |splits| + 1
      && StretchBegin(bounds, i) <= bounds[i] <= hello.recordPayloadLength
      && records.value[i].payload == buffer[5..hello.recordTotalLength][StretchBegin(bounds, i)..bounds[i]]
  {
    ParsedHelloDescribesRecord(buffer);
    var hello := Parse(buffer).hello;
    PlanCutsInside(profile, hello, delay);
    RecordStretch(buffer[..3], buffer[5..hello.recordTotalLength],
                  BuildPlan(profile, hello, delay).value.recordSplits, i);
  }

  /** What is sent under a profile that aims inside the name: no record of it holds the whole name. */
  lemma {:induction false} SentNameIsCut(buffer: seq<Byte>, profile: string, delay: nat, i: nat)
    requires Parse(buffer).status == Ok && CutsInsideName(profile)
    requires !Parse(buffer).hello.spansRecords && Parse(buffer).hello.sniLength >= 2
    ensures BuildPlan(profile, Parse(buffer).hello, delay).Some?
    ensures var hello := Parse(buffer).hello;
      var splits := BuildPlan(profile, hello, delay).value.recordSplits;
      var bounds, records := splits + [hello.recordPayloadLength], Decoded(PlanBytes(buffer, profile, delay));
      && splits != [] && hello.sniOffset >= 5
      && (i <= |splits| ==>
          && records.Some? && |records.value| == |splits| + 1
          && |records.value[i].payload| == bounds[i] - StretchBegin(bounds, i)
          && !(StretchBegin(bounds, i) <= hello.sniOffset - 5
               && hello.sniOffset - 5 + hello.sniLength <= StretchBegin(bounds, i) + |records.value[i].payload|))
  {
    ParsedHelloDescribesRecord(buffer);
    var hello := Parse(buffer).hello;
    AimedPlanCutsName(profile, hello, delay);
    if i <= |BuildPlan(profile, hello, delay).value.recordSplits| {
      SentRecords(buffer, profile, delay, i);
      HostnameIsNeverWhole(buffer, profile, delay, i);
    }
  }
}
