/**
  What the QUIC registry decides, told by the events of a timely run.

  Main results: a datagram that is no Initial is dropped if and only if an Initial to its server was blocked
  less than the fallback time before and no answer to a known flow of the server came since; an Initial of a
  flow that was never seen is let through and starts it; and within the fallback time of that start, an
  Initial of the flow to a server that is not blocked is dropped, and blocks the server, if and only if it
  comes no sooner than the response timeout and the flow was not answered in between.
 */
module QuicProgress {
  import opened Basics
  import opened Text
  import opened Quic

  function DecisionAt(c: Config, run: seq<Event>, n: nat): Decision
    requires n < |run| && run[n].Out?
  {
    Sent(c, After(c, run, n), run[n].server, run[n].port, run[n].initial, run[n].at).1
  }

  /** The server is blocked when event `n` comes. */
  predicate BlockedAt(c: Config, run: seq<Event>, n: nat, server: string)
    requires n < |run|
  {
    var blocked := After(c, run, n).blockedUntil;
    server in blocked && blocked[server] > run[n].at
  }

  // ---- blocks ----

  /** Event `j` is an Initial to a server that was not blocked, and its drop blocks the server. */
  predicate StartsBlock(c: Config, run: seq<Event>, j: nat, server: string)
    requires j < |run|
  {
    && run[j].Out? && run[j].server == server && run[j].initial && !BlockedAt(c, run, j, server)
    && DecisionAt(c, run, j) == Drop
  }

  /** Event `k` answers a flow of the server that the registry knows. */
  predicate Answers(c: Config, run: seq<Event>, k: nat, server: string)
    requires k < |run|
  {
    && run[k].In? && run[k].server == server
    && FlowKey(server, run[k].port) in Purged(c, After(c, run, k), run[k].at).flows
  }

  /** The block that event `j` started lasts when event `n` comes. */
  ghost predicate BlockedBy(c: Config, run: seq<Event>, j: nat, n: nat, server: string)
    requires n < |run|
  {
    && j < n && StartsBlock(c, run, j, server) && run[n].at < run[j].at + c.fallback
    && forall k :: j < k < n ==> !run[k].Reset? && !Answers(c, run, k, server)
  }

  lemma {:induction false} BlockStarts(c: Config, run: seq<Event>, j: nat, server: string)
    requires j < |run| && StartsBlock(c, run, j, server)
    ensures server in After(c, run, j + 1).blockedUntil
    ensures After(c, run, j + 1).blockedUntil[server] == run[j].at + c.fallback
  {
  }

  /** What one event does to the block of a server. */
  lemma {:induction false} BlockStep(c: Config, run: seq<Event>, k: nat, server: string)
    requires k < |run|
    ensures server in After(c, run, k + 1).blockedUntil && !StartsBlock(c, run, k, server) ==>
      && !run[k].Reset? && !Answers(c, run, k, server) && server in After(c, run, k).blockedUntil
      && After(c, run, k + 1).blockedUntil[server] == After(c, run, k).blockedUntil[server]
    ensures BlockedAt(c, run, k, server) && !run[k].Reset? && !Answers(c, run, k, server) ==>
      && server in After(c, run, k + 1).blockedUntil
      && After(c, run, k + 1).blockedUntil[server] == After(c, run, k).blockedUntil[server]
  {
  }

  lemma {:induction false} BlockHasSource(c: Config, run: seq<Event>, n: nat, server: string) returns (j: nat)
    requires n <= |run| && server in After(c, run, n).blockedUntil
    ensures j < n && StartsBlock(c, run, j, server)
    ensures After(c, run, n).blockedUntil[server] == run[j].at + c.fallback
    ensures forall k :: j < k < n ==> !run[k].Reset? && !Answers(c, run, k, server)
  {
    assert n > 0;
    if StartsBlock(c, run, n - 1, server) {
      BlockStarts(c, run, n - 1, server);
      j := n - 1;
    } else {
      BlockStep(c, run, n - 1, server);
      j := BlockHasSource(c, run, n - 1, server);
    }
  }

  predicate BlockedUntil(s: State, server: string, until: nat) {
    server in s.blockedUntil && s.blockedUntil[server] == until
  }

  lemma {:induction false} BlockStays(c: Config, run: seq<Event>, k: nat, server: string, until: nat)
    requires k < |run| && BlockedUntil(After(c, run, k), server, until) && run[k].at < until
    requires !run[k].Reset? && !Answers(c, run, k, server)
    ensures BlockedUntil(After(c, run, k + 1), server, until)
  {
    BlockStep(c, run, k, server);
  }

  lemma {:induction false} BlockLasts(c: Config, run: seq<Event>, j: nat, m: nat, server: string, until: nat)
    requires j <= m <= |run| && BlockedUntil(After(c, run, j), server, until)
    requires forall k :: j <= k < m ==> run[k].at < until && !run[k].Reset? && !Answers(c, run, k, server)
    ensures BlockedUntil(After(c, run, m), server, until)
    decreases m
  {
    if j < m {
      BlockLasts(c, run, j, m - 1, server, until);
      BlockStays(c, run, m - 1, server, until);
    }
  }

  lemma {:induction false} BlockReaches(c: Config, run: seq<Event>, j: nat, n: nat, server: string)
    requires Timely(run) && n < |run| && BlockedBy(c, run, j, n, server)
    ensures BlockedAt(c, run, n, server)
  {
    BlockStarts(c, run, j, server);
    forall k | j + 1 <= k < n
      ensures run[k].at < run[j].at + c.fallback && !run[k].Reset? && !Answers(c, run, k, server)
    {
      assert run[k].at <= run[n].at;
    }
    BlockLasts(c, run, j + 1, n, server, run[j].at + c.fallback);
  }

  /** A server is blocked exactly while a block of it lasts. */
  lemma {:induction false} BlockedExactly(c: Config, run: seq<Event>, n: nat, server: string)
    requires Timely(run) && n < |run|
    ensures BlockedAt(c, run, n, server) <==> exists j: nat :: BlockedBy(c, run, j, n, server)
  {
    if BlockedAt(c, run, n, server) {
      var j := BlockHasSource(c, run, n, server);
      assert BlockedBy(c, run, j, n, server);
    }
    if j: nat :| BlockedBy(c, run, j, n, server) { BlockReaches(c, run, j, n, server); }
  }

  lemma {:induction false} BlockedIsDropped(c: Config, run: seq<Event>, n: nat)
    requires n < |run| && run[n].Out?
    ensures BlockedAt(c, run, n, run[n].server) ==> DecisionAt(c, run, n) == Drop
    ensures !run[n].initial ==>
      DecisionAt(c, run, n) == if BlockedAt(c, run, n, run[n].server) then Drop else Pass
  {
  }

  /** A datagram that is no Initial is dropped exactly while a block of its server lasts, and passes else. */
  lemma {:induction false} DroppedExactly(c: Config, run: seq<Event>, n: nat)
    requires Timely(run) && n < |run| && run[n].Out? && !run[n].initial
    ensures DecisionAt(c, run, n) == Drop <==> exists j: nat :: BlockedBy(c, run, j, n, run[n].server)
    ensures DecisionAt(c, run, n) != Drop ==> DecisionAt(c, run, n) == Pass
  {
    BlockedExactly(c, run, n, run[n].server);
    BlockedIsDropped(c, run, n);
  }

  // ---- flows ----

  predicate IsInitial(e: Event, server: string, port: nat) {
    e.Out? && e.server == server && e.port == port && e.initial
  }

  predicate IsAnswer(e: Event, server: string, port: nat) {
    e.In? && e.server == server && e.port == port
  }

  lemma {:induction false} FlowComesFromInitial(c: Config, run: seq<Event>, n: nat, server: string, port: nat)
    returns (i: nat)
    requires n <= |run| && FlowKey(server, port) in After(c, run, n).flows
    ensures i < n && IsInitial(run[i], server, port) && forall k :: i < k < n ==> !run[k].Reset?
  {
    assert n > 0;
    var e := run[n - 1];
    if IsInitial(e, server, port) {
      i := n - 1;
    } else {
      if e.Out? && FlowKey(e.server, e.port) == FlowKey(server, port) {
        SuffixedInjective(e.server, e.port, server, port, '|');
      }
      i := FlowComesFromInitial(c, run, n - 1, server, port);
    }
  }

  /** The first Initial of a flow, to a server that is not blocked, is let through and starts the flow. */
  lemma {:induction false} FirstInitialStarts(c: Config, run: seq<Event>, n: nat, server: string, port: nat)
    requires n < |run| && IsInitial(run[n], server, port) && !BlockedAt(c, run, n, server)
    requires forall i :: 0 <= i < n && IsInitial(run[i], server, port) ==> exists k :: i < k < n && run[k].Reset?
    ensures DecisionAt(c, run, n) == PrimeAndPass
  {
    if FlowKey(server, port) in After(c, run, n).flows {
      var i := FlowComesFromInitial(c, run, n, server, port);
    }
  }

  /** The flow began at `started`, and was answered or not. */
  predicate FlowIs(s: State, server: string, port: nat, started: nat, answered: bool, now: nat) {
    var key := FlowKey(server, port);
    key in s.flows && s.flows[key].started == started && s.flows[key].answered == answered
    && started <= s.flows[key].touched <= now
  }

  lemma {:induction false} FlowPurged(
    c: Config, s: State, server: string, port: nat, started: nat, answered: bool, before: nat, now: nat)
    requires FlowIs(s, server, port, started, answered, before) && before <= now <= started + c.fallback
    ensures FlowIs(Purged(c, s, now), server, port, started, answered, now)
  {
  }

  lemma {:induction false} FlowStep(
    c: Config, s: State, e: Event, server: string, port: nat, started: nat, answered: bool, before: nat)
    requires FlowIs(s, server, port, started, answered, before) && before <= e.at <= started + c.fallback && !e.Reset?
    ensures FlowIs(Step(c, s, e), server, port, started, answered || IsAnswer(e, server, port), e.at)
  {
    FlowPurged(c, s, server, port, started, answered, before, e.at);
    if FlowKey(e.server, e.port) == FlowKey(server, port) {
      SuffixedInjective(e.server, e.port, server, port, '|');
    }
  }

  /** The flow that event `i` started was answered before `n`. */
  ghost predicate AnsweredSince(run: seq<Event>, i: nat, n: nat, server: string, port: nat)
    requires n <= |run|
  {
    exists k :: i < k < n && IsAnswer(run[k], server, port)
  }

  lemma {:induction false} FlowSince(c: Config, run: seq<Event>, i: nat, n: nat, server: string, port: nat)
    requires Timely(run) && i < n <= |run| && IsInitial(run[i], server, port) && DecisionAt(c, run, i) == PrimeAndPass
    requires run[n - 1].at <= run[i].at + c.fallback && forall k :: i < k < n ==> !run[k].Reset?
    ensures FlowIs(
      After(c, run, n), server, port, run[i].at, AnsweredSince(run, i, n, server, port), run[n - 1].at)
    decreases n
  {
    if n - 1 > i {
      assert run[n - 2].at <= run[n - 1].at;
      FlowSince(c, run, i, n - 1, server, port);
      var before := AnsweredSince(run, i, n - 1, server, port);
      FlowStep(c, After(c, run, n - 1), run[n - 1], server, port, run[i].at, before, run[n - 2].at);
      AnsweredGrows(run, i, n, server, port);
    }
  }

  lemma {:induction false} AnsweredGrows(run: seq<Event>, i: nat, n: nat, server: string, port: nat)
    requires i < n - 1 < |run|
    ensures AnsweredSince(run, i, n, server, port) <==>
      AnsweredSince(run, i, n - 1, server, port) || IsAnswer(run[n - 1], server, port)
  {
  }

  /**
    Within the fallback time of a flow's start, an Initial of it to a server that is not blocked is dropped if
    and only if it comes no sooner than the response timeout and no answer came; and then it blocks the server.
   */
  lemma {:induction false} LaterInitialExactly(c: Config, run: seq<Event>, i: nat, n: nat, server: string, port: nat)
    requires Timely(run) && i < n < |run| && IsInitial(run[i], server, port) && DecisionAt(c, run, i) == PrimeAndPass
    requires run[n].at <= run[i].at + c.fallback && forall k :: i < k < n ==> !run[k].Reset?
    requires IsInitial(run[n], server, port) && !BlockedAt(c, run, n, server)
    ensures DecisionAt(c, run, n) == Drop <==>
      run[n].at >= run[i].at + c.responseTimeout && !AnsweredSince(run, i, n, server, port)
    ensures DecisionAt(c, run, n) != Drop ==> DecisionAt(c, run, n) == Pass
    ensures DecisionAt(c, run, n) == Drop ==> StartsBlock(c, run, n, server)
  {
    assert run[n - 1].at <= run[n].at;
    FlowSince(c, run, i, n, server, port);
    var answered := AnsweredSince(run, i, n, server, port);
    FlowPurged(c, After(c, run, n), server, port, run[i].at, answered, run[n - 1].at, run[n].at);
  }
}
