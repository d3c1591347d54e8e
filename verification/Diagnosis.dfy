/**
  The differential diagnosis of one connection: what its attempts say about the path, given what was
  known before.

  Main results, for every list of attempts: each verdict and its confidence are given exactly when the
  attempts' own fields call for it. A bypass is a repeated cache hit when the untouched hello was not seen to
  fail, a hiccup when it failed on a healthy or blinking path, and likely interference otherwise; a success of
  the untouched hello is slow or healthy by its time; and without a success nothing is claimed for a profile.
 */
module Diagnosis {

  datatype ProbeSignal = ServerHello | Alert | Timeout | Reset | Closed | Unexpected

  datatype Kind =
    | Unknown | NoInterference | SniInterferenceLikely | TlsIncompatible | TransportFailure
    | ThrottlingSuspected | LearnedProfile | TransientFailure | InterferenceSuspected

  datatype Attempt = Attempt(profile: string, signal: ProbeSignal, elapsedMs: nat)
  datatype Verdict = Verdict(kind: Kind, confidence: nat, winner: string)
  datatype Context = Context(remembered: string, baselineRecentlyHealthy: bool)

  const BASELINE := "none"
  const SLOW_SERVER_HELLO_MS := 1500

  predicate IsTransportFailure(signal: ProbeSignal) {
    signal.Timeout? || signal.Reset? || signal.Closed?
  }

  /** The first attempt from index `i` on with this profile; the number of attempts if there is none. */
  function FindProfile(attempts: seq<Attempt>, profile: string, i: nat): (at: nat)
    requires i <= |attempts|
    ensures i <= at <= |attempts|
    ensures at < |attempts| ==> attempts[at].profile == profile
    decreases |attempts| - i
  {
    if i == |attempts| || attempts[i].profile == profile then i else FindProfile(attempts, profile, i + 1)
  }

  function FindSignal(attempts: seq<Attempt>, signal: ProbeSignal, i: nat): (at: nat)
    requires i <= |attempts|
    ensures i <= at <= |attempts|
    ensures at < |attempts| ==> attempts[at].signal == signal
    decreases |attempts| - i
  {
    if i == |attempts| || attempts[i].signal == signal then i else FindSignal(attempts, signal, i + 1)
  }

  lemma {:induction false} FindProfileIsFirst(attempts: seq<Attempt>, profile: string, i: nat)
    requires i <= |attempts|
    ensures forall j :: i <= j < FindProfile(attempts, profile, i) ==> attempts[j].profile != profile
    decreases |attempts| - i
  {
    if i < |attempts| && attempts[i].profile != profile { FindProfileIsFirst(attempts, profile, i + 1); }
  }

  lemma {:induction false} FindSignalIsFirst(attempts: seq<Attempt>, signal: ProbeSignal, i: nat)
    requires i <= |attempts|
    ensures forall j :: i <= j < FindSignal(attempts, signal, i) ==> attempts[j].signal != signal
    decreases |attempts| - i
  {
    if i < |attempts| && attempts[i].signal != signal { FindSignalIsFirst(attempts, signal, i + 1); }
  }

  predicate OnlyTransportFailures(attempts: seq<Attempt>) {
    forall i :: 0 <= i < |attempts| ==> IsTransportFailure(attempts[i].signal)
  }

  /** A remembered profile that lost, like the baseline, to a third one: the path blinked. */
  predicate PathBlinked(attempts: seq<Attempt>, context: Context, baseline: Attempt, winner: string) {
    && context.remembered != "" && context.remembered != winner
    && FindProfile(attempts, context.remembered, 0) < |attempts|
    && IsTransportFailure(attempts[FindProfile(attempts, context.remembered, 0)].signal)
    && IsTransportFailure(baseline.signal)
  }

  function InferBypass(attempts: seq<Attempt>, context: Context, winner: string): (v: Verdict) {
    var b := FindProfile(attempts, BASELINE, 0);
    if b == |attempts| || attempts[b].signal.ServerHello? then Verdict(LearnedProfile, 65, winner)
    else if context.baselineRecentlyHealthy then Verdict(TransientFailure, 70, winner)
    else if PathBlinked(attempts, context, attempts[b], winner) then Verdict(TransientFailure, 60, winner)
    else Verdict(SniInterferenceLikely, if attempts[b].signal.Alert? then 70 else 92, winner)
  }

  function Infer(attempts: seq<Attempt>, context: Context): (v: Verdict) {
    if attempts == [] then Verdict(Unknown, 0, "")
    else
      var s := FindSignal(attempts, ServerHello, 0);
      if s < |attempts| then
        var success := attempts[s];
        if success.profile == BASELINE then
          if success.elapsedMs >= SLOW_SERVER_HELLO_MS then Verdict(ThrottlingSuspected, 55, success.profile)
          else Verdict(NoInterference, 95, success.profile)
        else InferBypass(attempts, context, success.profile)
      else if FindSignal(attempts, Alert, 0) < |attempts| then Verdict(TlsIncompatible, 75, "")
      else if OnlyTransportFailures(attempts) then Verdict(TransportFailure, 45, "")
      else Verdict(Unknown, 25, "")
  }

  /** Attempt `s` is the one that got through. */
  predicate WonAt(attempts: seq<Attempt>, s: nat) {
    s < |attempts| && attempts[s].signal.ServerHello? && forall j :: 0 <= j < s ==> !attempts[j].signal.ServerHello?
  }

  lemma {:induction false} WinnerIsFirst(attempts: seq<Attempt>, s: nat)
    requires WonAt(attempts, s)
    ensures FindSignal(attempts, ServerHello, 0) == s
  {
    FindSignalIsFirst(attempts, ServerHello, 0);
  }

  // ---- the verdicts, told from the attempts alone ----

  /** Attempt `b` is the first with this profile. */
  predicate FirstTry(attempts: seq<Attempt>, profile: string, b: nat) {
    b < |attempts| && attempts[b].profile == profile && forall j :: 0 <= j < b ==> attempts[j].profile != profile
  }

  lemma {:induction false} FirstTryIsFound(attempts: seq<Attempt>, profile: string, b: nat)
    requires FirstTry(attempts, profile, b)
    ensures FindProfile(attempts, profile, 0) == b
  {
    FindProfileIsFirst(attempts, profile, 0);
  }

  lemma {:induction false} FoundIsFirstTry(attempts: seq<Attempt>, profile: string)
    ensures var b := FindProfile(attempts, profile, 0); b < |attempts| <==> FirstTry(attempts, profile, b)
  {
    FindProfileIsFirst(attempts, profile, 0);
  }

  /** The path was dead: nothing came back, the connection was reset, or it was closed. */
  predicate Died(a: Attempt) {
    a.signal == Timeout || a.signal == Reset || a.signal == Closed
  }

  /** The remembered profile was tried, is not the winner, and died as the baseline at `b` did. */
  ghost predicate Blinked(attempts: seq<Attempt>, context: Context, s: nat, b: nat)
    requires s < |attempts| && b < |attempts|
  {
    && context.remembered != "" && context.remembered != attempts[s].profile && Died(attempts[b])
    && exists r: nat :: FirstTry(attempts, context.remembered, r) && Died(attempts[r])
  }

  lemma {:induction false} BlinkedExactly(attempts: seq<Attempt>, context: Context, s: nat, b: nat)
    requires s < |attempts| && b < |attempts|
    ensures PathBlinked(attempts, context, attempts[b], attempts[s].profile) <==> Blinked(attempts, context, s, b)
  {
    FoundIsFirstTry(attempts, context.remembered);
    if r: nat :| FirstTry(attempts, context.remembered, r) && Died(attempts[r]) {
      FirstTryIsFound(attempts, context.remembered, r);
    }
  }

  /** The baseline was tried at `b`, first there, and failed. */
  predicate BaselineFailed(attempts: seq<Attempt>, b: nat) {
    FirstTry(attempts, BASELINE, b) && attempts[b].signal != ServerHello
  }

  /**
    A connection that got through with a profile of its own yields one of three verdicts about it: a cache
    hit exactly when no failed baseline speaks, a hiccup exactly when one does that a recent success or a
    blink of the path explains, and else interference; each with its confidence.
   */
  lemma {:induction false} BypassVerdicts(attempts: seq<Attempt>, context: Context, s: nat)
    requires WonAt(attempts, s) && attempts[s].profile != BASELINE
    ensures var v := Infer(attempts, context);
      && v.winner == attempts[s].profile
      && (v.kind.LearnedProfile? || v.kind.TransientFailure? || v.kind.SniInterferenceLikely?)
    ensures Infer(attempts, context).kind.LearnedProfile? <==> !exists b: nat :: BaselineFailed(attempts, b)
    ensures Infer(attempts, context).kind.TransientFailure? <==>
      exists b: nat :: BaselineFailed(attempts, b)
        && (context.baselineRecentlyHealthy || Blinked(attempts, context, s, b))
    ensures var v := Infer(attempts, context);
      && (v.kind.LearnedProfile? ==> v.confidence == 65)
      && (v.kind.TransientFailure? ==> v.confidence == if context.baselineRecentlyHealthy then 70 else 60)
      && (v.kind.SniInterferenceLikely? ==>
            forall b: nat :: BaselineFailed(attempts, b) ==>
              v.confidence == if attempts[b].signal == Alert then 70 else 92)
  {
    WinnerIsFirst(attempts, s);
    FoundIsFirstTry(attempts, BASELINE);
    var found := FindProfile(attempts, BASELINE, 0);
    forall b: nat | FirstTry(attempts, BASELINE, b) ensures b == found { FirstTryIsFound(attempts, BASELINE, b); }
    if found < |attempts| { BlinkedExactly(attempts, context, s, found); }
    assert BaselineFailed(attempts, found) <==> found < |attempts| && attempts[found].signal != ServerHello;
  }

  /** Interference is claimed exactly on a differential that nothing explains as a hiccup. */
  lemma {:induction false} InterferenceExactlyOnDifferential(attempts: seq<Attempt>, context: Context)
    ensures Infer(attempts, context).kind.SniInterferenceLikely? <==>
      exists s: nat, b: nat :: WonAt(attempts, s) && attempts[s].profile != BASELINE
        && b < |attempts| && attempts[b].profile == BASELINE && !attempts[b].signal.ServerHello?
        && (forall j :: 0 <= j < b ==> attempts[j].profile != BASELINE)
        && !context.baselineRecentlyHealthy && !PathBlinked(attempts, context, attempts[b], attempts[s].profile)
  {
    FindSignalIsFirst(attempts, ServerHello, 0);
    FindProfileIsFirst(attempts, BASELINE, 0);
    var s, b := FindSignal(attempts, ServerHello, 0), FindProfile(attempts, BASELINE, 0);
    if Infer(attempts, context).kind.SniInterferenceLikely? {
      assert WonAt(attempts, s) && attempts[b].profile == BASELINE;
    }
  }

  /** A success of the untouched hello is never interference, whatever came before it; a slow one is suspect. */
  lemma {:induction false} BaselineVerdicts(attempts: seq<Attempt>, context: Context, s: nat)
    requires WonAt(attempts, s) && attempts[s].profile == BASELINE
    ensures Infer(attempts, context) ==
      if attempts[s].elapsedMs >= 1500 then Verdict(ThrottlingSuspected, 55, BASELINE)
      else Verdict(NoInterference, 95, BASELINE)
  {
    WinnerIsFirst(attempts, s);
  }

  /** Without a success nothing is claimed about interference: an alert, a dead path, or neither. */
  lemma {:induction false} NoSuccessNoClaim(attempts: seq<Attempt>, context: Context)
    requires forall i :: 0 <= i < |attempts| ==> !attempts[i].signal.ServerHello?
    ensures var v := Infer(attempts, context);
      v.winner == "" && (v.kind.TlsIncompatible? || v.kind.TransportFailure? || v.kind.Unknown?)
    ensures Infer(attempts, context).kind.TlsIncompatible? <==>
      exists i :: 0 <= i < |attempts| && attempts[i].signal == Alert
    ensures Infer(attempts, context).kind.TransportFailure? <==>
      attempts != [] && forall i :: 0 <= i < |attempts| ==> Died(attempts[i])
    ensures var v := Infer(attempts, context);
      && (v.kind.TlsIncompatible? ==> v.confidence == 75) && (v.kind.TransportFailure? ==> v.confidence == 45)
      && (v.kind.Unknown? ==> v.confidence == if attempts == [] then 0 else 25)
  {
    FindSignalIsFirst(attempts, ServerHello, 0);
    FindSignalIsFirst(attempts, Alert, 0);
    if attempts != [] && forall i :: 0 <= i < |attempts| ==> Died(attempts[i]) {
      assert OnlyTransportFailures(attempts);
    }
    if OnlyTransportFailures(attempts) {
      assert forall i :: 0 <= i < |attempts| ==> Died(attempts[i]);
    }
  }
}
