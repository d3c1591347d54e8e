/**
  The file across a restart: what the numbered writes leave on the disk, loaded again.

  Main result: under every interleaving of store operations and writes, once no write is outstanding and
  the newest one did not fail, loading the file restores exactly the store's unexpired winners, provided
  the clock never read more than it does at the load.
 */
module StoreRestart {
  import opened Basics
  import opened Learning
  import opened StoreFile
  import opened StoreLayout
  import opened StorePersistence
  import Commits = StoreCommit

  /** What every state of an interleaving has when its first one has it and the clock keeps within `clock`. */
  ghost predicate InForce(s: State, clock: nat) {
    Bounded(s) && Proper(s) && Dated(s, clock)
  }

  ghost predicate AllOnTime(actions: seq<Commits.Action>, n: nat, clock: nat)
    requires n <= |actions|
  {
    forall i :: 0 <= i < n && actions[i].Operate? ==> OnTime(actions[i].event, clock)
  }

  lemma {:induction false} AlwaysInForce(actions: seq<Commits.Action>, systems: seq<Commits.System>, n: nat, clock: nat)
    requires Commits.Interleaving(actions, systems) && n <= |actions| && AllOnTime(actions, n, clock)
    requires InForce(systems[0].store, clock)
    ensures InForce(systems[n].store, clock)
  {
    if n > 0 {
      AlwaysInForce(actions, systems, n - 1, clock);
      assert Commits.NextAt(actions, systems, n - 1);
      var before, after := systems[n - 1].store, systems[n].store;
      if actions[n - 1].Operate? {
        StepKeepsBounds(before, actions[n - 1].event, after, actions[n - 1].dirty);
        StepKeepsProper(before, actions[n - 1].event, after, actions[n - 1].dirty);
        StepKeepsDated(before, actions[n - 1].event, after, actions[n - 1].dirty, clock);
      }
    }
  }

  /** Stores with the same winners have the same unexpired winners. */
  lemma {:induction false} SameWinnersRestore(t: Option<Tables>, saved: State, s: State, loadedAt: nat)
    requires RestoresExactly(t, saved, loadedAt) && Persisted(saved) == Persisted(s)
    ensures RestoresExactly(t, s, loadedAt)
  {
    assert forall k :: k in saved.entries <==> k in Persisted(saved);
    assert forall k :: k in s.entries <==> k in Persisted(s);
    assert forall k :: k in s.entries ==> Persisted(s)[k] == s.entries[k].winner;
    assert forall k :: k in saved.entries ==> Persisted(saved)[k] == saved.entries[k].winner;
  }

  /** Once the writes are quiet, a restart loses nothing that is still unexpired. */
  lemma {:induction false} QuietRestartRestoresWinners(
    actions: seq<Commits.Action>, systems: seq<Commits.System>, n: nat, saved: State, lines: seq<Line>,
    savedAt: nat, loadedAt: nat)
    requires Commits.Interleaving(actions, systems) && n <= |actions| && AllOnTime(actions, n, loadedAt)
    requires InForce(systems[0].store, loadedAt)
    requires var y := systems[n]; y.taken != [] && y.pending == {} && |y.taken| !in y.failed && y.file == Some(saved)
    requires Snapshot(lines, saved, savedAt) && savedAt <= loadedAt && loadedAt + LEARNING_TTL < UINT64
    ensures RestoresExactly(LoadText(FileText(ItemsOf(lines)), loadedAt), systems[n].store, loadedAt)
  {
    Commits.QuietFileIsCurrent(actions, systems, n);
    Commits.AlwaysConsistent(actions, systems, n);
    var i := Commits.SnapshotWasTaken(actions, systems, n, systems[n].written);
    AlwaysInForce(actions, systems, i, loadedAt);
    DatedComesBack(lines, saved, savedAt, loadedAt);
    SameWinnersRestore(LoadText(FileText(ItemsOf(lines)), loadedAt), saved, systems[n].store, loadedAt);
  }
}
