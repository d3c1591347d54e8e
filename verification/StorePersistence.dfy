/**
  Saving and loading the store. A snapshot writes the live winners, and the legacy nominations that
  have no winner, in whatever order the tables are walked.

  Main results: a load restores exactly the saved winners that the loading clock still believes, under
  their own keys; for every state of every run whose clock never read more than it does at the load, these
  are all the winners still unexpired, unchanged; and one winner comes back as it was if and only if the
  clock is not behind its stamps, which a run with a clock stepped back shows to matter.
 */
module StorePersistence {
  import opened Collections
  import opened Basics
  import opened Diagnosis
  import opened Learning
  import opened Json
  import opened StoreLayout
  import opened StoreFile
  import Profiles = RecordSplits

  /** One line of the file before it is encoded. */
  datatype Line = Line(key: string, winner: Winner)

  /** A nomination from an older file keeps its shape: an unproven winner of middling confidence. */
  function LegacyWinner(c: Candidate): Winner {
    Winner(c.profile, Unknown, 50, c.persistUntil, 0, 0)
  }

  function ItemOf(line: Line): Item {
    Item(line.key, Encode(line.winner))
  }

  function ItemsOf(lines: seq<Line>): (items: seq<Item>)
    ensures |items| == |lines|
  {
    seq(|lines|, i requires 0 <= i < |lines| => ItemOf(lines[i]))
  }

  // ---- what a snapshot holds ----

  predicate SavesWinner(s: State, line: Line, now: nat) {
    line.key in s.entries && line.winner == s.entries[line.key].winner && line.winner.expiresAt > now
  }

  predicate SavesNomination(s: State, line: Line, now: nat) {
    && line.key !in s.entries && line.key in s.candidates && s.candidates[line.key].persistUntil > now
    && line.winner == LegacyWinner(s.candidates[line.key])
  }

  predicate DistinctKeys(lines: seq<Line>) {
    forall i, j :: 0 <= i < j < |lines| ==> lines[i].key != lines[j].key
  }

  ghost predicate HasKey(lines: seq<Line>, key: string) {
    exists i :: 0 <= i < |lines| && lines[i].key == key
  }

  /** The lines of a snapshot of `s` taken at `now`, in some order. */
  ghost predicate Snapshot(lines: seq<Line>, s: State, now: nat) {
    && DistinctKeys(lines)
    && (forall i :: 0 <= i < |lines| ==> SavesWinner(s, lines[i], now) || SavesNomination(s, lines[i], now))
    && (forall k :: k in s.entries && s.entries[k].winner.expiresAt > now ==> HasKey(lines, k))
    && (forall k :: k in s.candidates && PersistsNomination(s, k, now) ==> HasKey(lines, k))
  }

  /** A nomination from an older file, for a key without a winner, that is still good at `now`. */
  predicate PersistsNomination(s: State, key: string, now: nat)
    requires key in s.candidates
  {
    key !in s.entries && s.candidates[key].persistUntil > now
  }

  lemma {:induction false} AddLine(lines: seq<Line>, line: Line)
    requires DistinctKeys(lines) && !HasKey(lines, line.key)
    ensures DistinctKeys(lines + [line]) && HasKey(lines + [line], line.key)
    ensures forall k :: HasKey(lines, k) ==> HasKey(lines + [line], k)
  {
    var more := lines + [line];
    assert more[|lines|].key == line.key;
    forall k | HasKey(lines, k) ensures HasKey(more, k) {
      var i :| 0 <= i < |lines| && lines[i].key == k;
      assert more[i].key == k;
    }
  }

  /** The winners, in the order the table is walked in. */
  method CollectWinners(entries: map<string, Entry>, now: nat) returns (lines: seq<Line>)
    ensures DistinctKeys(lines)
    ensures forall i :: 0 <= i < |lines| ==>
      lines[i].key in entries && lines[i].winner == entries[lines[i].key].winner && lines[i].winner.expiresAt > now
    ensures forall k :: k in entries && entries[k].winner.expiresAt > now ==> HasKey(lines, k)
  {
    lines := [];
    var todo := entries.Keys;
    while todo != {}
      invariant todo <= entries.Keys && DistinctKeys(lines)
      invariant forall i :: 0 <= i < |lines| ==>
        && lines[i].key in entries && lines[i].key !in todo && lines[i].winner == entries[lines[i].key].winner
        && lines[i].winner.expiresAt > now
      invariant forall k :: k in entries && k !in todo && entries[k].winner.expiresAt > now ==> HasKey(lines, k)
      decreases |todo|
    {
      var key :| key in todo;
      if entries[key].winner.expiresAt > now {
        AddLine(lines, Line(key, entries[key].winner));
        lines := lines + [Line(key, entries[key].winner)];
      }
      todo := todo - {key};
    }
  }

  /** Behind them the nominations that came from an older file. */
  method CollectLines(s: State, now: nat) returns (lines: seq<Line>)
    ensures Snapshot(lines, s, now)
  {
    lines := CollectWinners(s.entries, now);
    var todo := s.candidates.Keys;
    while todo != {}
      invariant todo <= s.candidates.Keys && DistinctKeys(lines)
      invariant forall i :: 0 <= i < |lines| ==> SavesWinner(s, lines[i], now) || SavesNomination(s, lines[i], now)
      invariant forall k :: k in s.entries && s.entries[k].winner.expiresAt > now ==> HasKey(lines, k)
      invariant forall k :: k in s.candidates && k !in todo && PersistsNomination(s, k, now) ==> HasKey(lines, k)
      invariant forall i :: 0 <= i < |lines| ==> lines[i].key in s.entries || lines[i].key !in todo
      decreases |todo|
    {
      var key :| key in todo;
      var c := s.candidates[key];
      if c.persistUntil > now && key !in s.entries {
        AddLine(lines, Line(key, LegacyWinner(c)));
        lines := lines + [Line(key, LegacyWinner(c))];
      }
      todo := todo - {key};
    }
  }

  function SeparatorAt(i: nat): string {
    if i > 0 then SEPARATOR else ""
  }

  lemma {:induction false} LinesUnfold(texts: seq<string>, i: nat)
    requires i < |texts|
    ensures Lines(texts, i) == SeparatorAt(i) + (texts[i] + Lines(texts, i + 1))
  {
    ThenIsAppended(texts[i], Lines(texts, i + 1));
    if i > 0 { ThenIsAppended(SEPARATOR, texts[i] + Lines(texts, i + 1)); }
  }

  lemma {:induction false} LineStep(content: string, separator: string, text: string, rest: string)
    ensures content + (separator + (text + rest)) == (content + separator + text) + rest
  {
    AppendAssoc(content, separator, text + rest);
    AppendAssoc(content + separator, text, rest);
  }

  lemma {:induction false} FiveParts(a: string, b: string, c: string, d: string, e: string)
    ensures Then(a, Then(b, Then(c, Then(d, e)))) == a + b + c + d + e
  {
    ThreeParts(c, d, e);
    ThreeParts(a, b, c + d + e);
    Regroup(a + b, c, d, e);
  }

  lemma {:induction false} Regroup(a: string, b: string, c: string, d: string)
    ensures a + (b + c + d) == a + b + c + d
  {
  }

  method WriteItem(item: Item) returns (text: string)
    ensures text == ItemText(item)
  {
    var key := Escape(item.key);
    var value := Escape(item.value);
    FiveParts(BEFORE_KEY, key, BETWEEN, value, "\"");
    text := BEFORE_KEY + key + BETWEEN + value + "\"";
  }

  /** One more line of the file, behind a separator unless it is the first. */
  method WriteLine(content: string, line: Line, i: nat) returns (more: string)
    ensures more == content + SeparatorAt(i) + ItemText(ItemOf(line))
  {
    var text := WriteItem(ItemOf(line));
    more := content + SeparatorAt(i) + text;
  }

  lemma {:induction false} OneLineLess(body: string, content: string, texts: seq<string>, i: nat)
    requires i < |texts| && body == content + Lines(texts, i)
    ensures body == (content + SeparatorAt(i) + texts[i]) + Lines(texts, i + 1)
  {
    LinesUnfold(texts, i);
    LineStep(content, SeparatorAt(i), texts[i], Lines(texts, i + 1));
  }

  /** The lines one by one, each but the first behind a separator. */
  method WriteLines(lines: seq<Line>) returns (content: string)
    ensures content == HEAD + Lines(Texts(ItemsOf(lines)), 0)
  {
    content := WriteTexts(lines, Texts(ItemsOf(lines)));
  }

  method WriteTexts(lines: seq<Line>, ghost texts: seq<string>) returns (content: string)
    requires |texts| == |lines| && forall i :: 0 <= i < |lines| ==> texts[i] == ItemText(ItemOf(lines[i]))
    ensures content == HEAD + Lines(texts, 0)
  {
    content := HEAD;
    ghost var body := HEAD + Lines(texts, 0);
    for i := 0 to |lines|
      invariant body == content + Lines(texts, i)
    {
      OneLineLess(body, content, texts, i);
      content := WriteLine(content, lines[i], i);
    }
    assert content + "" == content;
  }

  lemma {:induction false} ThreeParts(a: string, b: string, c: string)
    ensures Then(a, Then(b, c)) == a + b + c
  {
    ThenIsAppended(b, c);
    ThenIsAppended(a, b + c);
  }

  /** The text of a snapshot. */
  method WriteFile(lines: seq<Line>) returns (content: string)
    ensures content == FileText(ItemsOf(lines))
  {
    content := WriteLines(lines);
    ThreeParts(HEAD, Lines(Texts(ItemsOf(lines)), 0), TAIL);
    content := content + TAIL;
  }

  // ---- what a load makes of it ----

  /** The winner is restored by a load at `at`. */
  predicate Survives(w: Winner, at: nat) {
    Believed(w, at).expiresAt > at && Believed(w, at).verifiedAt != 0
  }

  /** The entries after loading the first `n` lines: one for each that survives, and no other. */
  ghost predicate Exact(entries: map<string, Entry>, lines: seq<Line>, n: nat, at: nat)
    requires n <= |lines|
  {
    && (forall i :: 0 <= i < n && Survives(lines[i].winner, at) ==>
          lines[i].key in entries && entries[lines[i].key] == Entry(Believed(lines[i].winner, at), 0))
    && (forall k :: k in entries ==> exists i :: 0 <= i < n && lines[i].key == k && Survives(lines[i].winner, at))
  }

  /** Keys have a network part, and numbers have the width the file gives them. */
  predicate Savable(lines: seq<Line>) {
    forall i :: 0 <= i < |lines| ==> '|' in lines[i].key && Storable(lines[i].winner)
  }

  /** A snapshot of a state whose stamps a clock up to `clock` can have written has numbers that fit. */
  lemma {:induction false} SnapshotIsSavable(lines: seq<Line>, s: State, now: nat, clock: nat)
    requires Snapshot(lines, s, now) && Proper(s) && Dated(s, clock) && clock + LEARNING_TTL < UINT64
    ensures Savable(lines)
  {
    forall i | 0 <= i < |lines| ensures '|' in lines[i].key && Storable(lines[i].winner) {
      if lines[i].key in s.entries { assert DatedWinner(lines[i].key, s.entries[lines[i].key].winner, clock); }
      else { assert DatedCandidate(lines[i].key, s.candidates[lines[i].key], clock); }
    }
  }

  /** The table has room for a winner that is not yet in it. */
  lemma {:induction false} RoomLeft(entries: map<string, Entry>, s: State, key: string)
    requires entries.Keys <= s.entries.Keys && key in s.entries && key !in entries && |s.entries| <= MAX_WINNERS
    ensures |entries| < MAX_WINNERS
  {
    assert entries.Keys + {key} <= s.entries.Keys;
    assert s.entries.Keys == (entries.Keys + {key}) + (s.entries.Keys - (entries.Keys + {key}));
    assert |entries.Keys + {key}| == |entries.Keys| + 1;
  }

  lemma {:induction false} LineAdmitted(t: Tables, line: Line, at: nat)
    requires '|' in line.key && Storable(line.winner)
    requires Survives(line.winner, at) ==> |t.entries| < MAX_WINNERS
    ensures Admit(t, Decode(ItemOf(line), at)).entries ==
      if Survives(line.winner, at) then t.entries[line.key := Entry(Believed(line.winner, at), 0)] else t.entries
  {
    DecodeOfEncode(line.key, line.winner, at);
  }

  lemma {:induction false} ExactStep(entries: map<string, Entry>, lines: seq<Line>, n: nat, at: nat)
    requires n < |lines| && DistinctKeys(lines) && Exact(entries, lines, n, at)
    ensures var w := lines[n].winner;
      var entries' := if Survives(w, at) then entries[lines[n].key := Entry(Believed(w, at), 0)] else entries;
      Exact(entries', lines, n + 1, at)
  {
  }

  lemma {:induction false} LoadedExactly(lines: seq<Line>, n: nat, s: State, savedAt: nat, at: nat)
    requires n <= |lines| && Snapshot(lines, s, savedAt) && Savable(lines) && Bounded(s)
    ensures var t := LoadItems(ItemsOf(lines), n, at);
      t.entries.Keys <= s.entries.Keys && Exact(t.entries, lines, n, at)
  {
    if n > 0 {
      var i := n - 1;
      LoadedExactly(lines, i, s, savedAt, at);
      var t := LoadItems(ItemsOf(lines), i, at);
      if Survives(lines[i].winner, at) {
        assert SavesWinner(s, lines[i], savedAt);
        assert lines[i].key !in t.entries;
        RoomLeft(t.entries, s, lines[i].key);
      }
      LineAdmitted(t, lines[i], at);
      ExactStep(t.entries, lines, i, at);
    }
  }

  /** What a load at `loadedAt` keeps of what was saved at `savedAt`. */
  function Reloaded(s: State, savedAt: nat, loadedAt: nat): map<string, Entry> {
    map k | k in s.entries && s.entries[k].winner.expiresAt > savedAt && Survives(s.entries[k].winner, loadedAt) ::
      Entry(Believed(s.entries[k].winner, loadedAt), 0)
  }

  lemma {:induction false} ExactIsReloaded(
    entries: map<string, Entry>, lines: seq<Line>, s: State, savedAt: nat, at: nat)
    requires Snapshot(lines, s, savedAt) && Exact(entries, lines, |lines|, at)
    ensures entries == Reloaded(s, savedAt, at)
  {
    forall k | k in entries ensures k in Reloaded(s, savedAt, at) && entries[k] == Reloaded(s, savedAt, at)[k] {
      var i :| 0 <= i < |lines| && lines[i].key == k && Survives(lines[i].winner, at);
      assert SavesWinner(s, lines[i], savedAt);
    }
    forall k | k in Reloaded(s, savedAt, at) ensures k in entries {
      assert HasKey(lines, k);
      var i :| 0 <= i < |lines| && lines[i].key == k;
      assert SavesWinner(s, lines[i], savedAt);
    }
  }

  /** Loading what was saved restores exactly the winners that survive. */
  lemma {:induction false} SaveThenLoad(lines: seq<Line>, s: State, savedAt: nat, loadedAt: nat)
    requires Snapshot(lines, s, savedAt) && Savable(lines) && Bounded(s)
    ensures var t := LoadText(FileText(ItemsOf(lines)), loadedAt);
      t.Some? && t.value.entries == Reloaded(s, savedAt, loadedAt)
  {
    FileRoundTrip(ItemsOf(lines));
    LoadedExactly(lines, |lines|, s, savedAt, loadedAt);
    ExactIsReloaded(LoadItems(ItemsOf(lines), |lines|, loadedAt).entries, lines, s, savedAt, loadedAt);
  }

  /** The clock at `at` is not behind the stamps of the winner, and its confidence is a percentage. */
  predicate InOrder(w: Winner, at: nat) {
    w.confidence <= 100 && 0 < w.verifiedAt <= at + CLOCK_SKEW && w.expiresAt <= at + LEARNING_TTL
  }

  predicate ClockInOrder(s: State, savedAt: nat, loadedAt: nat) {
    savedAt <= loadedAt && forall k :: k in s.entries ==> InOrder(s.entries[k].winner, loadedAt)
  }

  /** The load yields tables, and their winners are exactly the unexpired ones of `s`, field by field. */
  ghost predicate RestoresExactly(t: Option<Tables>, s: State, loadedAt: nat) {
    && t.Some? && (forall k :: k in t.value.entries <==> k in LiveEntries(s.entries, loadedAt))
    && (forall k :: k in t.value.entries ==> t.value.entries[k].winner == s.entries[k].winner)
  }

  lemma {:induction false} InOrderNothingIsLost(s: State, savedAt: nat, loadedAt: nat)
    requires ClockInOrder(s, savedAt, loadedAt)
    ensures forall k :: k in Reloaded(s, savedAt, loadedAt) <==> k in LiveEntries(s.entries, loadedAt)
    ensures forall k :: k in Reloaded(s, savedAt, loadedAt) ==>
      Reloaded(s, savedAt, loadedAt)[k].winner == s.entries[k].winner
  {
  }

  /** With the clock in order, every winner still unexpired comes back as it was, and no other. */
  lemma {:induction false} UnexpiredWinnersComeBack(lines: seq<Line>, s: State, savedAt: nat, loadedAt: nat)
    requires Snapshot(lines, s, savedAt) && Savable(lines) && Bounded(s) && ClockInOrder(s, savedAt, loadedAt)
    ensures RestoresExactly(LoadText(FileText(ItemsOf(lines)), loadedAt), s, loadedAt)
  {
    SaveThenLoad(lines, s, savedAt, loadedAt);
    InOrderNothingIsLost(s, savedAt, loadedAt);
  }

  /** Tables the protocol may start from after a load at `at`. */
  predicate Startable(t: Tables, at: nat) {
    && |t.entries| <= MAX_WINNERS && |t.candidates| <= MAX_CANDIDATES
    && (forall k :: k in t.entries ==> TameWinner(k, t.entries[k].winner, at))
    && (forall k :: k in t.candidates ==> TameCandidate(k, t.candidates[k], at))
  }

  predicate TameWinner(key: string, w: Winner, at: nat) {
    HasNetwork(key) && Bypass(w.profile) && Credible(w, at)
  }

  predicate TameCandidate(key: string, c: Candidate, at: nat) {
    HasNetwork(key) && Bypass(c.profile) && c.firstStrikeAt == 0 && at < c.persistUntil <= at + LEARNING_TTL
  }

  /** A decoded member has a scoped key, names a profile of its own and says nothing the clock cannot vouch for. */
  predicate Tame(d: Decoded, at: nat) {
    (d.Nomination? ==> TameCandidate(d.key, d.candidate, at)) && (d.Restored? ==> TameWinner(d.key, d.winner, at))
  }

  lemma {:induction false} ReadFailuresFit(fields: seq<string>, loadedAt: nat)
    requires |fields| >= 1
    ensures ReadWinner(fields, loadedAt).failures < UINT32
  {
  }

  lemma {:induction false} DecodedIsTame(item: Item, loadedAt: nat)
    ensures Tame(Decode(item, loadedAt), loadedAt)
  {
    if '|' !in item.key { ScopeKeyHasNetwork(DEFAULT_NETWORK, item.key); }
    ReadFailuresFit(Split(item.value), loadedAt);
  }

  lemma {:induction false} AdmitKeepsStartable(t: Tables, d: Decoded, at: nat)
    requires Startable(t, at) && Tame(d, at)
    ensures Startable(Admit(t, d), at)
  {
    match d
    case Skipped =>
    case Nomination(key, candidate) => WriteSize(t.candidates, key, candidate);
    case Restored(key, winner) => WriteSize(t.entries, key, Entry(winner, 0));
  }

  lemma {:induction false} AdmitItem(t: Tables, item: Item, loadedAt: nat)
    requires Startable(t, loadedAt)
    ensures Startable(Admit(t, Decode(item, loadedAt)), loadedAt)
  {
    DecodedIsTame(item, loadedAt);
    AdmitKeepsStartable(t, Decode(item, loadedAt), loadedAt);
  }

  lemma {:induction false} LoadIsStartable(items: seq<Item>, n: nat, loadedAt: nat)
    requires n <= |items|
    ensures Startable(LoadItems(items, n, loadedAt), loadedAt)
  {
    if n > 0 {
      LoadIsStartable(items, n - 1, loadedAt);
      AdmitItem(LoadItems(items, n - 1, loadedAt), items[n - 1], loadedAt);
    }
  }

  /** Whatever the file holds, a load is a step of the protocol. */
  lemma {:induction false} LoadIsAStep(content: string, loadedAt: nat, s: State)
    requires LoadText(content, loadedAt).Some?
    ensures var t := LoadText(content, loadedAt).value;
      Step(s, Loaded(loadedAt), State(t.entries, t.candidates, s.healthyAt), false)
  {
    var items := ReadItems(Raw(content, "domains"), 1);
    LoadIsStartable(items, |items|, loadedAt);
  }

  // ---- every reachable state ----

  /**
    In every run: if the clock never read more than it does at the load, then whatever the order the
    tables were walked in, a load restores a winner of the saved state if and only if it is still
    unexpired, with every persisted field as it was.
   */
  lemma {:induction false} ReachableWinnersComeBack(
    events: seq<Event>, states: seq<State>, dirty: seq<bool>, n: nat, lines: seq<Line>, savedAt: nat, loadedAt: nat)
    requires Run(events, states, dirty) && n <= |events| && Snapshot(lines, states[n], savedAt)
    requires forall i :: 0 <= i < n ==> OnTime(events[i], loadedAt)
    requires savedAt <= loadedAt && loadedAt + LEARNING_TTL < UINT64
    ensures RestoresExactly(LoadText(FileText(ItemsOf(lines)), loadedAt), states[n], loadedAt)
  {
    RunKeepsBounds(events, states, dirty, n);
    RunKeepsProper(events, states, dirty, n);
    RunKeepsDated(events, states, dirty, n, loadedAt);
    DatedComesBack(lines, states[n], savedAt, loadedAt);
  }

  lemma {:induction false} DatedComesBack(lines: seq<Line>, s: State, savedAt: nat, loadedAt: nat)
    requires Bounded(s) && Proper(s) && Dated(s, loadedAt) && Snapshot(lines, s, savedAt)
    requires savedAt <= loadedAt && loadedAt + LEARNING_TTL < UINT64
    ensures RestoresExactly(LoadText(FileText(ItemsOf(lines)), loadedAt), s, loadedAt)
  {
    SnapshotIsSavable(lines, s, savedAt, loadedAt);
    assert ClockInOrder(s, savedAt, loadedAt) by {
      forall k | k in s.entries ensures InOrder(s.entries[k].winner, loadedAt) {
        assert DatedWinner(k, s.entries[k].winner, loadedAt);
      }
    }
    UnexpiredWinnersComeBack(lines, s, savedAt, loadedAt);
  }

  // ---- when the clock steps back ----

  /** One winner comes back as it was exactly when it was saved and the loading clock believes all of it. */
  lemma {:induction false} ComesBackUnchangedExactly(
    lines: seq<Line>, s: State, savedAt: nat, loadedAt: nat, key: string)
    requires Snapshot(lines, s, savedAt) && Savable(lines) && Bounded(s) && key in s.entries
    ensures var t, w := LoadText(FileText(ItemsOf(lines)), loadedAt), s.entries[key].winner;
      && t.Some?
      && (key in t.value.entries && t.value.entries[key].winner == w <==>
          && savedAt < w.expiresAt && loadedAt < w.expiresAt <= loadedAt + LEARNING_TTL
          && 0 < w.verifiedAt <= loadedAt + CLOCK_SKEW && w.confidence <= 100)
  {
    SaveThenLoad(lines, s, savedAt, loadedAt);
    BelievedUnchanged(s.entries[key].winner, loadedAt);
  }

  lemma {:induction false} BelievedUnchanged(w: Winner, at: nat)
    ensures Survives(w, at) && Believed(w, at) == w <==>
      (at < w.expiresAt <= at + LEARNING_TTL && 0 < w.verifiedAt <= at + CLOCK_SKEW && w.confidence <= 100)
  {
  }

  const SAMPLE_KEY := "n|h"
  const SAMPLE_PROFILE := "sni-mid"

  function SampleWinner(): Winner {
    NewWinner(SAMPLE_PROFILE, SniInterferenceLikely, 92, 1000)
  }

  /** Two differentials a minute apart, both at wall clock 1000, make a winner. */
  lemma {:induction false} SampleRun() returns (events: seq<Event>, states: seq<State>, dirty: seq<bool>)
    ensures Run(events, states, dirty) && |events| == 2
    ensures states[2] == State(map[SAMPLE_KEY := Entry(SampleWinner(), 0)], map[], map[])
    ensures forall i :: 0 <= i < 2 ==> OnTime(events[i], 1000)
  {
    var empty := State(map[], map[], map[]);
    var struck := State(map[], map[SAMPLE_KEY := Candidate(SAMPLE_PROFILE, 1, 1 + CANDIDATE_TTL, 0)], map[]);
    var learned := State(map[SAMPLE_KEY := Entry(SampleWinner(), 0)], map[], map[]);
    events := [
      Remembered(SAMPLE_KEY, SAMPLE_PROFILE, SniInterferenceLikely, 92, 1000, 1, Nominated),
      Remembered(SAMPLE_KEY, SAMPLE_PROFILE, SniInterferenceLikely, 92, 1000, 61, Outcome.Learned)];
    states, dirty := [empty, struck, learned], [false, true];
    SampleIsKnown();
    assert SAMPLE_KEY[1] == '|';
    assert Without(empty.candidates, SAMPLE_KEY) == map[];
    assert NominateIn(map[], empty, struck, SAMPLE_KEY, SAMPLE_PROFILE, 1000, 1);
    assert Without(struck.candidates, SAMPLE_KEY) == map[];
    assert LearnIn(map[], struck, learned, SAMPLE_KEY, SampleWinner(), 1000);
    assert StepAt(events, states, dirty, 0);
    assert StepAt(events, states, dirty, 1);
  }

  lemma {:induction false} SampleIsKnown()
    ensures Bypass(SAMPLE_PROFILE)
  {
    Profiles.FoundAtLatest(SAMPLE_PROFILE, 0, 1);
    assert SAMPLE_PROFILE[0] == 's' && BASELINE[0] == 'n';
  }

  lemma {:induction false} SampleSnapshot(s: State) returns (lines: seq<Line>)
    requires s == State(map[SAMPLE_KEY := Entry(SampleWinner(), 0)], map[], map[])
    ensures Snapshot(lines, s, 1000) && SAMPLE_KEY in LiveEntries(s.entries, 699)
    ensures forall k :: k !in Reloaded(s, 1000, 699)
  {
    lines := [Line(SAMPLE_KEY, SampleWinner())];
    assert lines[0].key == SAMPLE_KEY;
    assert HasKey(lines, SAMPLE_KEY);
  }

  /** A clock five minutes and a second behind the stamp loses a winner that is unexpired: it is only nominated. */
  lemma {:induction false} SteppedBackClockLosesWinner()
    returns (events: seq<Event>, states: seq<State>, dirty: seq<bool>, lines: seq<Line>)
    ensures Run(events, states, dirty) && |events| == 2 && Snapshot(lines, states[2], 1000)
    ensures SAMPLE_KEY in LiveEntries(states[2].entries, 699)
    ensures var t := LoadText(FileText(ItemsOf(lines)), 699); t.Some? && SAMPLE_KEY !in t.value.entries
  {
    events, states, dirty := SampleRun();
    lines := SampleSnapshot(states[2]);
    ReachableIsSavable(events, states, dirty, 2, lines, 1000, 1000);
    SaveThenLoad(lines, states[2], 1000, 699);
  }

  lemma {:induction false} ReachableIsSavable(
    events: seq<Event>, states: seq<State>, dirty: seq<bool>, n: nat, lines: seq<Line>, savedAt: nat, clock: nat)
    requires Run(events, states, dirty) && n <= |events| && Snapshot(lines, states[n], savedAt)
    requires (forall i :: 0 <= i < n ==> OnTime(events[i], clock)) && clock + LEARNING_TTL < UINT64
    ensures Savable(lines) && Bounded(states[n])
  {
    RunKeepsBounds(events, states, dirty, n);
    RunKeepsProper(events, states, dirty, n);
    RunKeepsDated(events, states, dirty, n, clock);
    SnapshotIsSavable(lines, states[n], savedAt, clock);
  }
}
