/**
  What a load makes of nominations and of files from older versions.

  Main results: a bare host with a bare profile, as the first version wrote it, is nominated under the default
  network for a week; a winner that was never verified is only nominated; and with the clock in order, a
  restart brings back exactly the nominations that came from an older file and are still good, each as it was.
 */
module LoadMeaning {
  import opened Collections
  import opened Basics
  import opened Diagnosis
  import opened Learning
  import opened Json
  import opened StoreLayout
  import opened StoreFile
  import opened StorePersistence
  import Text

  // ---- older files ----

  /** The first version's lines: a host without a network, and nothing but a profile. */
  lemma {:induction false} OldLineIsNominated(host: string, profile: string, loadedAt: nat)
    requires host != "" && '|' !in host && Bypass(profile)
    ensures Decode(Item(host, profile), loadedAt) ==
      Nomination("network-default" + "|" + NormalizeHost(host), Candidate(profile, 0, 0, loadedAt + 604800))
  {
    ProfileIsClean(profile);
    SplitOnly(profile);
  }

  /** Lines without a key, with an unknown profile or with the untouched hello say nothing. */
  lemma {:induction false} EmptyLineIsSkipped(item: Item, loadedAt: nat)
    requires item.key == "" || !Known(Split(item.value)[0]) || Split(item.value)[0] == "none"
    ensures Decode(item, loadedAt) == Skipped
  {
  }

  /** A winner without a verification is nominated until it expires, within a week. */
  lemma {:induction false} UnverifiedIsNominated(key: string, w: Winner, loadedAt: nat)
    requires Storable(w) && '|' in key && w.expiresAt > loadedAt
    requires w.verifiedAt == 0 || w.verifiedAt > loadedAt + 300
    ensures Decode(Item(key, Encode(w)), loadedAt) ==
      Nomination(key, Candidate(w.profile, 0, 0, Min(w.expiresAt, loadedAt + 604800)))
  {
    DecodeOfEncode(key, w, loadedAt);
  }

  // ---- nominations across a restart ----

  /** The line is loaded as a nomination. */
  predicate Nominates(w: Winner, at: nat) {
    Believed(w, at).expiresAt > at && Believed(w, at).verifiedAt == 0
  }

  function NominationOf(w: Winner, at: nat): Candidate {
    Candidate(w.profile, 0, 0, Believed(w, at).expiresAt)
  }

  /** The nominations after loading the first `n` lines: one for each that nominates, and no other. */
  ghost predicate ExactNominations(candidates: map<string, Candidate>, lines: seq<Line>, n: nat, at: nat)
    requires n <= |lines|
  {
    && (forall i :: 0 <= i < n && Nominates(lines[i].winner, at) ==>
          lines[i].key in candidates && candidates[lines[i].key] == NominationOf(lines[i].winner, at))
    && (forall k :: k in candidates ==> exists i :: 0 <= i < n && lines[i].key == k && Nominates(lines[i].winner, at))
  }

  lemma {:induction false} LineNominates(t: Tables, line: Line, at: nat)
    requires '|' in line.key && Storable(line.winner)
    requires Nominates(line.winner, at) ==> |t.candidates| < MAX_CANDIDATES
    ensures Admit(t, Decode(ItemOf(line), at)).candidates ==
      if Nominates(line.winner, at) then t.candidates[line.key := NominationOf(line.winner, at)] else t.candidates
  {
    DecodeOfEncode(line.key, line.winner, at);
  }

  lemma {:induction false} NominationsStep(candidates: map<string, Candidate>, lines: seq<Line>, n: nat, at: nat)
    requires n < |lines| && DistinctKeys(lines) && ExactNominations(candidates, lines, n, at)
    ensures var w := lines[n].winner;
      var candidates' := if Nominates(w, at) then candidates[lines[n].key := NominationOf(w, at)] else candidates;
      ExactNominations(candidates', lines, n + 1, at)
  {
  }

  lemma {:induction false} RoomForNomination(candidates: map<string, Candidate>, s: State, key: string)
    requires candidates.Keys <= s.candidates.Keys && key in s.candidates && key !in candidates
    requires |s.candidates| <= MAX_CANDIDATES
    ensures |candidates| < MAX_CANDIDATES
  {
    assert candidates.Keys + {key} <= s.candidates.Keys;
    SubsetSize(candidates.Keys + {key}, s.candidates.Keys);
  }

  lemma {:induction false} WinnerIsNotNominated(s: State, line: Line, savedAt: nat, at: nat)
    requires SavesWinner(s, line, savedAt) && ClockInOrder(s, savedAt, at)
    ensures !Nominates(line.winner, at)
  {
    assert InOrder(s.entries[line.key].winner, at);
  }

  lemma {:induction false} NominationsLoaded(lines: seq<Line>, n: nat, s: State, savedAt: nat, at: nat)
    requires n <= |lines| && Snapshot(lines, s, savedAt) && Savable(lines) && Bounded(s) && ClockInOrder(s, savedAt, at)
    ensures var t := LoadItems(ItemsOf(lines), n, at);
      t.candidates.Keys <= s.candidates.Keys && ExactNominations(t.candidates, lines, n, at)
  {
    if n > 0 {
      var i := n - 1;
      NominationsLoaded(lines, i, s, savedAt, at);
      var t := LoadItems(ItemsOf(lines), i, at);
      if Nominates(lines[i].winner, at) {
        if SavesWinner(s, lines[i], savedAt) { WinnerIsNotNominated(s, lines[i], savedAt, at); }
        assert SavesNomination(s, lines[i], savedAt);
        assert lines[i].key !in t.candidates;
        RoomForNomination(t.candidates, s, lines[i].key);
      }
      LineNominates(t, lines[i], at);
      NominationsStep(t.candidates, lines, i, at);
    }
  }

  /** The nominations a restart keeps. */
  function KeptNominations(s: State, loadedAt: nat): map<string, Candidate> {
    map k | k in s.candidates && k !in s.entries && s.candidates[k].persistUntil > loadedAt ::
      Candidate(s.candidates[k].profile, 0, 0, s.candidates[k].persistUntil)
  }

  lemma {:induction false} ExactIsKept(
    candidates: map<string, Candidate>, lines: seq<Line>, s: State, savedAt: nat, at: nat)
    requires Snapshot(lines, s, savedAt) && ClockInOrder(s, savedAt, at)
    requires forall k :: k in s.candidates ==> s.candidates[k].persistUntil <= at + 604800
    requires ExactNominations(candidates, lines, |lines|, at)
    ensures candidates == KeptNominations(s, at)
  {
    forall k | k in candidates
      ensures k in KeptNominations(s, at) && candidates[k] == KeptNominations(s, at)[k]
    {
      var i :| 0 <= i < |lines| && lines[i].key == k && Nominates(lines[i].winner, at);
      if SavesWinner(s, lines[i], savedAt) { WinnerIsNotNominated(s, lines[i], savedAt, at); }
    }
    forall k | k in KeptNominations(s, at) ensures k in candidates {
      assert PersistsNomination(s, k, savedAt);
      assert HasKey(lines, k);
      var i :| 0 <= i < |lines| && lines[i].key == k;
      assert !SavesWinner(s, lines[i], savedAt);
      assert Nominates(lines[i].winner, at);
    }
  }

  /** With the clock in order, exactly the nominations from an older file that are still good come back. */
  lemma {:induction false} NominationsComeBack(lines: seq<Line>, s: State, savedAt: nat, loadedAt: nat)
    requires Snapshot(lines, s, savedAt) && Savable(lines) && Bounded(s) && ClockInOrder(s, savedAt, loadedAt)
    requires forall k :: k in s.candidates ==> s.candidates[k].persistUntil <= loadedAt + 604800
    ensures var t := LoadText(FileText(ItemsOf(lines)), loadedAt);
      t.Some? && t.value.candidates == KeptNominations(s, loadedAt)
  {
    FileRoundTrip(ItemsOf(lines));
    NominationsLoaded(lines, |lines|, s, savedAt, loadedAt);
    ExactIsKept(LoadItems(ItemsOf(lines), |lines|, loadedAt).candidates, lines, s, savedAt, loadedAt);
  }

  /** So it is for every state of every run whose clock never read more than it does at the load. */
  lemma {:induction false} ReachableNominationsComeBack(
    events: seq<Event>, states: seq<State>, dirty: seq<bool>, n: nat, lines: seq<Line>, savedAt: nat, loadedAt: nat)
    requires Run(events, states, dirty) && n <= |events| && Snapshot(lines, states[n], savedAt)
    requires forall i :: 0 <= i < n ==> OnTime(events[i], loadedAt)
    requires savedAt <= loadedAt && loadedAt + LEARNING_TTL < UINT64
    ensures var t := LoadText(FileText(ItemsOf(lines)), loadedAt);
      t.Some? && t.value.candidates == KeptNominations(states[n], loadedAt)
  {
    ReachableIsSavable(events, states, dirty, n, lines, savedAt, loadedAt);
    RunKeepsDated(events, states, dirty, n, loadedAt);
    DatedIsInOrder(states[n], savedAt, loadedAt);
    NominationsComeBack(lines, states[n], savedAt, loadedAt);
  }

  lemma {:induction false} DatedIsInOrder(s: State, savedAt: nat, loadedAt: nat)
    requires Dated(s, loadedAt) && savedAt <= loadedAt
    ensures ClockInOrder(s, savedAt, loadedAt)
    ensures forall k :: k in s.candidates ==> s.candidates[k].persistUntil <= loadedAt + 604800
  {
    forall k | k in s.entries ensures InOrder(s.entries[k].winner, loadedAt) {
      assert DatedWinner(k, s.entries[k].winner, loadedAt);
    }
    forall k | k in s.candidates ensures s.candidates[k].persistUntil <= loadedAt + 604800 {
      assert DatedCandidate(k, s.candidates[k], loadedAt);
    }
  }
}
