/**
  The store's operations as the program performs them on its three tables, each proved to be a step
  of the learning protocol; the order in which profiles are probed; and the reports a connection makes
  once one of its attempts got through.
 */
module LearningStore {
  import opened Collections
  import opened Diagnosis
  import opened Learning
  import Profiles = RecordSplits
  import Policies = PacketPolicies

  class Store {
    var entries: map<string, Entry>
    var candidates: map<string, Candidate>
    var healthyAt: map<string, nat>

    ghost function Value(): State
      reads this
    {
      State(entries, candidates, healthyAt)
    }

    ghost predicate Valid()
      reads this
    {
      Bounded(Value())
    }

    constructor ()
      ensures Valid() && Value() == State(map[], map[], map[])
    {
      entries, candidates, healthyAt := map[], map[], map[];
    }

    method MakeRoomForEntry(now: nat)
      requires Valid()
      modifies this`entries
      ensures Valid() && RoomForEntry(old(entries), entries, now) && |entries| < MAX_WINNERS
    {
      entries := MakeRoom(entries, LiveEntries(entries, now), VerifiedAt, MAX_WINNERS);
    }

    method MakeRoomForCandidate(now: nat, mono: nat)
      requires Valid()
      modifies this`candidates
      ensures Valid() && RoomForCandidate(old(candidates), candidates, now, mono) && |candidates| < MAX_CANDIDATES
    {
      candidates := MakeRoom(candidates, LiveCandidates(candidates, now, mono), StruckAt, MAX_CANDIDATES);
    }

    /** The last part of remembering: the new winner replaces what was known. */
    method Replace(key: string, winner: Winner, now: nat)
      requires Valid()
      modifies this
      ensures Valid() && Learn(old(Value()), Value(), key, winner, now)
    {
      ghost var s := Value();
      if key !in entries { MakeRoomForEntry(now); }
      ghost var room := entries;
      candidates := Without(candidates, key);
      entries := entries[key := Entry(winner, 0)];
      assert LearnIn(room, s, Value(), key, winner, now);
      LearnKeepsBounds(s, Value(), key, winner, now);
    }

    /** A differential for a key that has no such winner yet. */
    method NoteStrike(key: string, profile: string, confidence: nat, now: nat, mono: nat)
      returns (outcome: Outcome, dirty: bool)
      requires Valid()
      modifies this
      ensures Valid() && Strike(old(Value()), Value(), key, profile, confidence, now, mono, outcome, dirty)
    {
      ghost var s := Value();
      outcome, dirty := Nominated, false;
      if key !in candidates || !CandidateLive(candidates[key], now, mono) {
        RemoveSize(candidates, key);
        candidates := Without(candidates, key);
        MakeRoomForCandidate(now, mono);
        ghost var room := candidates;
        candidates := candidates[key := Candidate(profile, mono, mono + CANDIDATE_TTL, 0)];
        assert NominateIn(room, s, Value(), key, profile, now, mono);
      } else if candidates[key].firstStrikeAt == 0 {
        candidates := candidates[key := Candidate(profile, mono, mono + CANDIDATE_TTL, candidates[key].persistUntil)];
      } else if mono < candidates[key].firstStrikeAt + CONFIRM_GAP {
        candidates := candidates[key := candidates[key].(profile := profile)];
      } else {
        Replace(key, NewWinner(profile, SniInterferenceLikely, confidence, now), now);
        outcome, dirty := Learned, true;
      }
      StrikeLocal(s, Value(), key, profile, confidence, now, mono, outcome, dirty);
    }

    /** The verdict of one connection; a step of the protocol unless the host or the profile means nothing. */
    method RememberVerdict(
      network: string, host: string, profile: string, kind: Kind, confidence: nat, now: nat, mono: nat)
      returns (outcome: Outcome, dirty: bool)
      requires Valid() && mono > 0
      modifies this
      ensures Valid()
      ensures if NormalizeHost(host) == "" || !Known(profile)
        then Value() == old(Value()) && outcome == Ignored && !dirty
        else
          var event := Remembered(ScopeKey(network, host), profile, kind, confidence, now, mono, outcome);
          Step(old(Value()), event, Value(), dirty)
    {
      if NormalizeHost(host) == "" || !Known(profile) { return Ignored, false; }
      ScopeKeyHasNetwork(network, host);
      outcome, dirty := RememberKnown(ScopeKey(network, host), profile, kind, confidence, now, mono);
    }

    method RememberKnown(key: string, profile: string, kind: Kind, confidence: nat, now: nat, mono: nat)
      returns (outcome: Outcome, dirty: bool)
      requires Valid()
      modifies this
      ensures Valid() && Remember(old(Value()), Value(), key, profile, kind, confidence, now, mono, outcome, dirty)
    {
      ghost var s := Value();
      outcome, dirty := Ignored, false;
      if profile == BASELINE {
        var hadEntry := key in entries;
        dirty := hadEntry || (key in candidates && candidates[key].persistUntil != 0);
        entries, candidates := Without(entries, key), Without(candidates, key);
        outcome := if hadEntry then Forgotten else Ignored;
      } else if !kind.TransientFailure? {
        outcome, dirty := RememberBypass(key, profile, kind, confidence, now, mono);
      }
      RememberLocal(s, Value(), key, profile, kind, confidence, now, mono, outcome, dirty);
    }

    /** A success of a profile of its own that is not put down to a hiccup. */
    method RememberBypass(key: string, profile: string, kind: Kind, confidence: nat, now: nat, mono: nat)
      returns (outcome: Outcome, dirty: bool)
      requires Valid() && profile != BASELINE && !kind.TransientFailure?
      modifies this
      ensures Remember(old(Value()), Value(), key, profile, kind, confidence, now, mono, outcome, dirty)
    {
      outcome, dirty := Ignored, false;
      var same := key in entries && entries[key].winner.expiresAt > now && entries[key].winner.profile == profile;
      if kind.LearnedProfile? {
        if same {
          dirty := entries[key].winner.failures != 0;
          entries := entries[key := entries[key].(winner := entries[key].winner.(failures := 0))];
          outcome := Refreshed;
        }
      } else if same {
        entries := entries[key := Entry(Reproved(entries[key].winner, kind, confidence, now), 0)];
        outcome, dirty := Reverified, true;
      } else if kind.SniInterferenceLikely? {
        outcome, dirty := NoteStrike(key, profile, confidence, now, mono);
      } else {
        Replace(key, NewWinner(profile, kind, confidence, now), now);
        outcome, dirty := Learned, true;
      }
    }

    method NoteBaselineHealthy(network: string, host: string, mono: nat) returns (dirty: bool)
      requires Valid()
      modifies this
      ensures Valid() && Step(old(Value()), SeenHealthy(ScopeKey(network, host), mono), Value(), dirty)
      ensures RecentlyHealthy(Value(), ScopeKey(network, host), mono)
    {
      ghost var s := Value();
      var key := ScopeKey(network, host);
      dirty := key in candidates && candidates[key].persistUntil != 0;
      candidates := Without(candidates, key);
      if |healthyAt| >= MAX_HEALTHY && key !in healthyAt {
        healthyAt := MakeRoom(healthyAt, LiveHealthy(healthyAt, mono), NoRank, MAX_HEALTHY);
      }
      ghost var room := healthyAt;
      healthyAt := healthyAt[key := mono];
      assert HealthyIn(room, s, Value(), key, mono);
      HealthyKeepsBounds(s, Value(), key, mono, dirty);
      ScopeKeyHasNetwork(network, host);
    }

    method RecordFailure(network: string, host: string, profile: string) returns (dirty: bool)
      requires Valid()
      modifies this
      ensures Valid() && Step(old(Value()), FailureRecorded(ScopeKey(network, host), profile), Value(), dirty)
    {
      FailureKeepsBounds(Value(), ScopeKey(network, host), profile);
      var key := ScopeKey(network, host);
      if key !in entries || entries[key].winner.profile != profile { return false; }
      var w := entries[key].winner;
      var failures := (w.failures + 1) % UINT32;
      if failures >= 2 {
        entries := Without(entries, key);
      } else {
        var confidence := if w.confidence > 20 then w.confidence - 20 else 0;
        entries := entries[key := entries[key].(winner := w.(failures := failures, confidence := confidence))];
      }
      return true;
    }

    method Forget(host: string) returns (dirty: bool)
      requires Valid()
      modifies this
      ensures Valid() && Step(old(Value()), HostForgotten("|" + NormalizeHost(host)), Value(), dirty)
    {
      var suffix := "|" + NormalizeHost(host);
      WithinIsSmaller(WithoutHost(entries, suffix), entries);
      WithinIsSmaller(WithoutHost(candidates, suffix), candidates);
      dirty := (exists k :: k in entries && EndsWith(k, suffix))
        || (exists k :: k in candidates && EndsWith(k, suffix) && candidates[k].persistUntil != 0);
      entries, candidates := WithoutHost(entries, suffix), WithoutHost(candidates, suffix);
    }

    method Clear() returns (dirty: bool)
      modifies this
      ensures Valid() && Step(old(Value()), Cleared, Value(), dirty)
    {
      entries, candidates, healthyAt := map[], map[], map[];
      dirty := true;
    }

    /** Which profiles to try, and in which order; a winner due for it is marked as being re-verified. */
    method ProbeOrder(network: string, host: string, spansRecords: bool, hasSni: bool, now: nat, mono: nat)
      returns (order: seq<string>)
      requires Valid() && mono > 0
      modifies this`entries
      ensures Valid()
      ensures if spansRecords then Value() == old(Value()) && order == [BASELINE]
        else
          && Step(old(Value()), Probed(ScopeKey(network, host), now, mono), Value(), false)
          && order == Order(Profiles.PROFILES, LeadOf(old(Value()), ScopeKey(network, host), now, mono), hasSni)
    {
      if spansRecords { return [BASELINE]; }
      var key := ScopeKey(network, host);
      var lead := NoLead;
      if key in entries && entries[key].winner.expiresAt > now {
        var w := entries[key].winner;
        lead := WinnerLead(w.profile, false);
        if (w.verifiedAt > now + CLOCK_SKEW || w.verifiedAt + REVERIFY_INTERVAL <= now)
           && (entries[key].reverifyStartedAt == 0 || entries[key].reverifyStartedAt + REVERIFY_HOLD <= mono) {
          WriteSize(entries, key, entries[key].(reverifyStartedAt := mono));
          entries := entries[key := entries[key].(reverifyStartedAt := mono)];
          lead := WinnerLead(w.profile, true);
        }
      } else if key in candidates && CandidateLive(candidates[key], now, mono) {
        lead := PendingLead(candidates[key].profile);
      }
      order := ListOrder(Profiles.PROFILES, lead, hasSni);
    }
  }

  // ---- the probe order ----

  /** What heads the order: a winner, perhaps to be re-verified; a nomination; or nothing. */
  datatype Lead = NoLead | WinnerLead(profile: string, reverify: bool) | PendingLead(profile: string)

  function LeadOf(s: State, key: string, now: nat, mono: nat): Lead {
    if LiveWinner(s, key, now) then WinnerLead(s.entries[key].winner.profile, StartsReverify(s, key, now, mono))
    else if HasCandidate(s, key, now, mono) then PendingLead(s.candidates[key].profile)
    else NoLead
  }

  predicate LeadsWithBaseline(lead: Lead) {
    lead.PendingLead? || (lead.WinnerLead? && lead.reverify)
  }

  function Head(lead: Lead): seq<string> {
    match lead
    case NoLead => []
    case WinnerLead(profile, reverify) => if reverify then [BASELINE, profile] else [profile]
    case PendingLead(profile) => [BASELINE, profile]
  }

  /** The profile of the table is listed behind the head. */
  predicate Listed(p: Profiles.Profile, lead: Lead, hasSni: bool) {
    && !IsLead(p.name, lead)
    && !(LeadsWithBaseline(lead) && p.name == BASELINE)
    && (p.requiresSni ==> hasSni)
  }

  function Rest(table: seq<Profiles.Profile>, lead: Lead, hasSni: bool, i: nat): (names: seq<string>)
    requires i <= |table|
    decreases |table| - i
  {
    if i == |table| then []
    else if Listed(table[i], lead, hasSni) then [table[i].name] + Rest(table, lead, hasSni, i + 1)
    else Rest(table, lead, hasSni, i + 1)
  }

  function Order(table: seq<Profiles.Profile>, lead: Lead, hasSni: bool): seq<string> {
    Head(lead) + Rest(table, lead, hasSni, 0)
  }

  method ListOrder(table: seq<Profiles.Profile>, lead: Lead, hasSni: bool) returns (order: seq<string>)
    ensures order == Order(table, lead, hasSni)
  {
    order := Head(lead);
    ghost var all := Order(table, lead, hasSni);
    for i := 0 to |table|
      invariant all == order + Rest(table, lead, hasSni, i)
    {
      if Listed(table[i], lead, hasSni) {
        AppendAssoc(order, [table[i].name], Rest(table, lead, hasSni, i + 1));
        order := order + [table[i].name];
      }
    }
  }

  /** A table without two profiles of one name. */
  predicate Distinct(table: seq<Profiles.Profile>) {
    forall i, j :: 0 <= i < j < |table| ==> table[i].name != table[j].name
  }

  predicate Applicable(p: Profiles.Profile, hasSni: bool) {
    p.requiresSni ==> hasSni
  }

  /** The remembered or nominated profile, if there is one. */
  predicate IsLead(name: string, lead: Lead) {
    (lead.WinnerLead? && name == lead.profile) || (lead.PendingLead? && name == lead.profile)
  }

  /** What the rest of the order holds: the listed names of the table, each at its place. */
  lemma {:induction false} RestHolds(table: seq<Profiles.Profile>, lead: Lead, hasSni: bool, i: nat, name: string)
    requires i <= |table|
    ensures name in Rest(table, lead, hasSni, i) <==>
      exists k :: i <= k < |table| && table[k].name == name && Listed(table[k], lead, hasSni)
    decreases |table| - i
  {
    if i < |table| {
      RestHolds(table, lead, hasSni, i + 1, name);
      var rest := Rest(table, lead, hasSni, i + 1);
      assert name in [table[i].name] + rest <==> name == table[i].name || name in rest;
    }
  }

  predicate NoRepeats(names: seq<string>) {
    forall i, j :: 0 <= i < j < |names| ==> names[i] != names[j]
  }

  lemma {:induction false} PrependNoRepeats(name: string, names: seq<string>)
    requires NoRepeats(names) && name !in names
    ensures NoRepeats([name] + names)
  {
  }

  lemma {:induction false} RestNoRepeats(table: seq<Profiles.Profile>, lead: Lead, hasSni: bool, i: nat)
    requires i <= |table| && Distinct(table)
    ensures NoRepeats(Rest(table, lead, hasSni, i))
    decreases |table| - i
  {
    if i < |table| {
      RestNoRepeats(table, lead, hasSni, i + 1);
      RestHolds(table, lead, hasSni, i + 1, table[i].name);
      if Listed(table[i], lead, hasSni) { PrependNoRepeats(table[i].name, Rest(table, lead, hasSni, i + 1)); }
    }
  }

  /** The lead is a profile of its own, as everything remembered is. */
  predicate ProperLead(lead: Lead) {
    !IsLead(BASELINE, lead)
  }

  /** No profile is tried twice. */
  lemma {:induction false} OrderHasNoRepeats(table: seq<Profiles.Profile>, lead: Lead, hasSni: bool)
    requires Distinct(table) && ProperLead(lead)
    ensures NoRepeats(Order(table, lead, hasSni))
  {
    var rest := Rest(table, lead, hasSni, 0);
    RestNoRepeats(table, lead, hasSni, 0);
    RestHolds(table, lead, hasSni, 0, BASELINE);
    if lead.NoLead? {
      assert [] + rest == rest;
    } else {
      RestHolds(table, lead, hasSni, 0, lead.profile);
      PrependNoRepeats(lead.profile, rest);
      if LeadsWithBaseline(lead) {
        assert BASELINE !in [lead.profile] + rest;
        PrependNoRepeats(BASELINE, [lead.profile] + rest);
        assert [BASELINE, lead.profile] + rest == [BASELINE] + ([lead.profile] + rest);
      }
    }
  }

  /** The table has an applicable profile of this name. */
  ghost predicate Tabled(table: seq<Profiles.Profile>, hasSni: bool, name: string) {
    exists k :: 0 <= k < |table| && table[k].name == name && Applicable(table[k], hasSni)
  }

  /** Every applicable profile is tried, and nothing else but the lead. */
  lemma {:induction false} OrderIsComplete(table: seq<Profiles.Profile>, lead: Lead, hasSni: bool, name: string)
    requires Tabled(table, hasSni, BASELINE)
    ensures name in Order(table, lead, hasSni) <==> (IsLead(name, lead) || Tabled(table, hasSni, name))
  {
    var rest := Rest(table, lead, hasSni, 0);
    RestHolds(table, lead, hasSni, 0, name);
    assert name in Order(table, lead, hasSni) <==> name in Head(lead) || name in rest;
  }

  /** The untouched hello goes first exactly when it leads, or when the table has it first and there is no lead. */
  lemma {:induction false} BaselineGoesFirst(table: seq<Profiles.Profile>, lead: Lead, hasSni: bool)
    requires |table| > 0 && table[0].name == BASELINE && !table[0].requiresSni && ProperLead(lead)
    ensures var order := Order(table, lead, hasSni);
      |order| > 0 && (order[0] == BASELINE <==> !lead.WinnerLead? || lead.reverify)
  {
    if lead.NoLead? { assert Listed(table[0], lead, hasSni); }
  }

  /** Tells the names of the table apart: their length and one telling character. */
  function Code(name: string): int {
    var at := if |name| == 7 then 4 else if |name| == 13 || |name| == 14 then 7 else if |name| == 18 then 16 else 0;
    if at < |name| then |name| * 256 + name[at] as int else 0
  }

  const CODES: seq<int> := [
    4 * 256 + 110, 7 * 256 + 109, 8 * 256 + 114, 14 * 256 + 114, 13 * 256 + 105, 18 * 256 + 101,
    14 * 256 + 97, 13 * 256 + 115, 7 * 256 + 112, 9 * 256 + 115, 18 * 256 + 117, 12 * 256 + 115]

  lemma {:induction false} EarlyCodes()
    ensures forall k :: 0 <= k < 6 ==> Code(Profiles.PROFILES[k].name) == CODES[k]
  {
  }

  lemma {:induction false} LateCodes()
    ensures forall k :: 6 <= k < 12 ==> Code(Profiles.PROFILES[k].name) == CODES[k]
  {
  }

  lemma {:induction false} TableIsDistinct()
    ensures Distinct(Profiles.PROFILES)
  {
    EarlyCodes();
    LateCodes();
    forall i, j | 0 <= i < j < 12 ensures Profiles.PROFILES[i].name != Profiles.PROFILES[j].name {
      assert CODES[i] != CODES[j];
    }
  }

  /** In every state the store can reach, a probe order tries every applicable profile and the lead, each once. */
  lemma {:induction false} ProbesEachOnce(s: State, key: string, hasSni: bool, now: nat, mono: nat, name: string)
    requires Proper(s)
    ensures var order := Order(Profiles.PROFILES, LeadOf(s, key, now, mono), hasSni);
      && NoRepeats(order) && |order| > 0
      && (order[0] == BASELINE <==> !LiveWinner(s, key, now) || StartsReverify(s, key, now, mono))
      && (name in order <==> (IsLead(name, LeadOf(s, key, now, mono)) || Tabled(Profiles.PROFILES, hasSni, name)))
  {
    var lead := LeadOf(s, key, now, mono);
    TableIsDistinct();
    assert Profiles.PROFILES[0].name == BASELINE;
    OrderHasNoRepeats(Profiles.PROFILES, lead, hasSni);
    OrderIsComplete(Profiles.PROFILES, lead, hasSni, name);
    BaselineGoesFirst(Profiles.PROFILES, lead, hasSni);
  }

  // ---- the reports of a connection ----

  datatype Call =
    | NoteHealthyCall
    | RememberCall(profile: string, kind: Kind, confidence: nat)
    | FailureCall(profile: string)

  predicate IsPacketProfile(profile: string) {
    Profiles.StartsWith(profile, "packet-")
  }

  /**
    What a connection tells the store when attempt `profile` got through: nothing when the profile is
    pinned, when a packet profile was not applied, or when the event looks like a hiccup.
   */
  function Reports(
    learning: bool, evidence: seq<Attempt>, context: Context, profile: string, packetApplied: bool,
    rememberedFailed: bool): (calls: seq<Call>)
  {
    var v := Infer(evidence, context);
    if !learning then []
    else if profile == BASELINE then
      [NoteHealthyCall] + (if context.remembered != "" then [RememberCall(profile, v.kind, v.confidence)] else [])
    else if IsPacketProfile(profile) && !packetApplied then []
    else if v.kind.TransientFailure? then []
    else
      (if rememberedFailed then [FailureCall(context.remembered)] else [])
      + [RememberCall(profile, v.kind, v.confidence)]
  }

  /** A connection reports only verdicts of a diagnosis, and a packet profile only if it was applied. */
  lemma {:induction false} ReportsAreInferred(
    learning: bool, evidence: seq<Attempt>, context: Context, s: nat, packetApplied: bool, rememberedFailed: bool,
    i: nat)
    requires WonAt(evidence, s)
    requires var calls := Reports(learning, evidence, context, evidence[s].profile, packetApplied, rememberedFailed);
      i < |calls| && calls[i].RememberCall?
    ensures var c := Reports(learning, evidence, context, evidence[s].profile, packetApplied, rememberedFailed)[i];
      && learning && InferredVerdict(c.profile, c.kind) && c.profile == evidence[s].profile && !c.kind.TransientFailure?
      && (IsPacketProfile(c.profile) && c.profile != BASELINE ==> packetApplied)
  {
    if evidence[s].profile != BASELINE { BypassVerdicts(evidence, context, s); }
    else { BaselineVerdicts(evidence, context, s); }
  }

  /**
    With the answer of the policy registry in the place of `packetApplied`: a packet profile is reported
    to the store only if the packet loop noted, since the connection's last arming, that it was applied.
   */
  lemma {:induction false} PacketProfileReachesStoreOnlyIfApplied(
    events: seq<Policies.Event>, states: seq<Policies.State>, n: nat, evidence: seq<Attempt>, context: Context, s: nat,
    rememberedFailed: bool, i: nat) returns (armed: nat, noted: nat)
    requires Policies.Run(events, states) && n < |events| && events[n].Asking?
    requires WonAt(evidence, s) && IsPacketProfile(evidence[s].profile) && evidence[s].profile != BASELINE
    requires var calls := Reports(true, evidence, context, evidence[s].profile, events[n].answer, rememberedFailed);
      i < |calls| && calls[i].RememberCall?
    ensures armed < noted < n && Policies.Arms(events[armed], events[n].key)
    ensures Policies.ReportsFor(events[noted], events[n].key)
    ensures forall k :: armed < k < n ==> !Policies.Arms(events[k], events[n].key)
  {
    ReportsAreInferred(true, evidence, context, s, events[n].answer, rememberedFailed, i);
    armed, noted := Policies.AppliedOnlyIfReported(events, states, n);
  }
}
