/**
  How snapshots of the store reach the disk. A snapshot is numbered and taken in the critical section
  that changed the store; the write happens later, outside of it, and may fail or be overtaken.

  Main results, under every interleaving of store operations and writes, including failed ones: the
  file holds a state the store was in, namely the one with the number last written; that number never
  goes back; and once no write is outstanding and the newest one did not fail, the file holds the
  newest snapshot, whose winners are the store's present ones.
 */
module StoreCommit {
  import opened Basics
  import opened Learning

  datatype Snapshot<T> = Snapshot(number: nat, content: T)

  /** The counters and the file, as the program updates them. */
  class StrategyFile<T(==, !new)> {
    var nextNumber: nat
    var writtenNumber: nat
    var saveFailing: bool
    var content: Option<T>

    constructor (initial: Option<T>)
      ensures nextNumber == 0 && writtenNumber == 0 && !saveFailing && content == initial
    {
      nextNumber, writtenNumber, saveFailing, content := 0, 0, false, initial;
    }

    /** Taken while the store is locked. */
    method TakeSnapshot(state: T) returns (snapshot: Snapshot<T>)
      modifies this`nextNumber
      ensures nextNumber == old(nextNumber) + 1 && snapshot == Snapshot(nextNumber, state)
    {
      nextNumber := nextNumber + 1;
      snapshot := Snapshot(nextNumber, state);
    }

    /** The write, which `succeeds` or not; an overtaken snapshot is dropped. */
    method Commit(snapshot: Snapshot<T>, succeeds: bool)
      modifies this`writtenNumber, this`saveFailing, this`content
      ensures writtenNumber == AfterWrite(old(writtenNumber), snapshot.number, succeeds)
      ensures content ==
        if snapshot.number > old(writtenNumber) && succeeds then Some(snapshot.content) else old(content)
      ensures saveFailing == if snapshot.number <= old(writtenNumber) then old(saveFailing) else !succeeds
    {
      if snapshot.number <= writtenNumber { return; }
      if succeeds {
        content := Some(snapshot.content);
        writtenNumber := snapshot.number;
        saveFailing := false;
      } else {
        saveFailing := true;
      }
    }
  }

  function AfterWrite(written: nat, number: nat, succeeds: bool): nat {
    if number > written && succeeds then number else written
  }

  // ---- interleavings ----

  /**
    The store, the snapshots taken of it in the order of their numbers, the numbers of those whose
    write is outstanding or has failed, the number last written, and the file.
   */
  datatype System = System(
    store: State, taken: seq<State>, pending: set<nat>, failed: set<nat>, written: nat, file: Option<State>)

  datatype Action = Operate(event: Event, dirty: bool) | Commit(number: nat, succeeds: bool)

  /** A change of the store takes the next number in the same critical section, if it is to be saved. */
  predicate Recorded(y: System, y': System, dirty: bool) {
    y' == if dirty
          then y.(store := y'.store, taken := y.taken + [y'.store], pending := y.pending + {|y.taken| + 1})
          else y.(store := y'.store)
  }

  ghost predicate Next(y: System, action: Action, y': System) {
    match action
    case Operate(event, dirty) =>
      !event.Loaded? && Step(y.store, event, y'.store, dirty) && Recorded(y, y', dirty)
    case Commit(number, succeeds) =>
      && number in y.pending && 0 < number <= |y.taken|
      && y' == y.(pending := y.pending - {number},
                  failed := if number > y.written && !succeeds then y.failed + {number} else y.failed,
                  written := AfterWrite(y.written, number, succeeds),
                  file := if number > y.written && succeeds then Some(y.taken[number - 1]) else y.file)
  }

  /** A run of the system from a store that was just loaded. */
  ghost predicate Interleaving(actions: seq<Action>, systems: seq<System>) {
    && |systems| == |actions| + 1 && Bounded(systems[0].store)
    && systems[0] == System(systems[0].store, [], {}, {}, 0, systems[0].file)
    && forall i :: 0 <= i < |actions| ==> NextAt(actions, systems, i)
  }

  ghost predicate NextAt(actions: seq<Action>, systems: seq<System>, i: nat)
    requires i < |actions| && |systems| == |actions| + 1
  {
    Next(systems[i], actions[i], systems[i + 1])
  }

  /** What holds in every state: where each number is, what the file holds, and how fresh the last snapshot is. */
  ghost predicate Consistent(y: System, initial: System) {
    && Bounded(y.store) && y.written <= |y.taken|
    && (forall n :: n in y.pending ==> 0 < n <= |y.taken|)
    && (forall n :: 0 < n <= |y.taken| ==> n in y.pending || n in y.failed || n <= y.written)
    && (if y.written == 0 then y.file == initial.file else y.file == Some(y.taken[y.written - 1]))
    && Persisted(y.store) == Persisted(if y.taken == [] then initial.store else y.taken[|y.taken| - 1])
  }

  lemma {:induction false} RecordKeepsConsistent(y: System, y': System, dirty: bool, initial: System)
    requires Consistent(y, initial) && Recorded(y, y', dirty) && Bounded(y'.store)
    requires dirty || Persisted(y'.store) == Persisted(y.store)
    ensures Consistent(y', initial)
  {
    if dirty { assert y'.taken[..|y.taken|] == y.taken; }
  }

  lemma {:induction false} OperateKeepsConsistent(y: System, event: Event, dirty: bool, y': System, initial: System)
    requires Consistent(y, initial) && Next(y, Operate(event, dirty), y')
    ensures Consistent(y', initial)
  {
    OperateFacts(y.store, event, y'.store, dirty);
    RecordKeepsConsistent(y, y', dirty, initial);
  }

  lemma {:induction false} OperateFacts(s: State, event: Event, s': State, dirty: bool)
    requires Bounded(s) && !event.Loaded? && Step(s, event, s', dirty)
    ensures Bounded(s') && (dirty || Persisted(s') == Persisted(s))
  {
    StepKeepsBounds(s, event, s', dirty);
    ChangesAreSnapshotted(s, event, s', dirty);
  }

  lemma {:induction false} NextKeepsConsistent(y: System, action: Action, y': System, initial: System)
    requires Consistent(y, initial) && Next(y, action, y')
    ensures Consistent(y', initial)
  {
    if action.Operate? { OperateKeepsConsistent(y, action.event, action.dirty, y', initial); }
  }

  lemma {:induction false} WrittenGrows(y: System, action: Action, y': System)
    requires Next(y, action, y')
    ensures y.written <= y'.written
  {
  }

  lemma {:induction false} AlwaysConsistent(actions: seq<Action>, systems: seq<System>, n: nat)
    requires Interleaving(actions, systems) && n <= |actions|
    ensures Consistent(systems[n], systems[0])
  {
    if n > 0 {
      AlwaysConsistent(actions, systems, n - 1);
      assert NextAt(actions, systems, n - 1);
      NextKeepsConsistent(systems[n - 1], actions[n - 1], systems[n], systems[0]);
    }
  }

  /** The number last written never goes back. */
  lemma {:induction false} WrittenNeverGoesBack(actions: seq<Action>, systems: seq<System>, m: nat, n: nat)
    requires Interleaving(actions, systems) && m <= n <= |actions|
    ensures systems[m].written <= systems[n].written
  {
    if m < n {
      WrittenNeverGoesBack(actions, systems, m, n - 1);
      assert NextAt(actions, systems, n - 1);
      WrittenGrows(systems[n - 1], actions[n - 1], systems[n]);
    }
  }

  /** Every snapshot is a state the store was in. */
  lemma {:induction false} SnapshotWasTaken(
    actions: seq<Action>, systems: seq<System>, n: nat, number: nat) returns (i: nat)
    requires Interleaving(actions, systems) && n <= |actions| && 0 < number <= |systems[n].taken|
    ensures 0 < i <= n && systems[i].store == systems[n].taken[number - 1]
  {
    if n > 0 {
      assert NextAt(actions, systems, n - 1);
      var before := systems[n - 1].taken;
      if number <= |before| {
        i := SnapshotWasTaken(actions, systems, n - 1, number);
      } else {
        i := n;
      }
    }
  }

  /** The file holds what it held at first, or a state the store was in. */
  lemma {:induction false} FileWasAState(actions: seq<Action>, systems: seq<System>, n: nat) returns (i: nat)
    requires Interleaving(actions, systems) && n <= |actions|
    ensures i <= n && (systems[n].file == systems[0].file || systems[n].file == Some(systems[i].store))
  {
    AlwaysConsistent(actions, systems, n);
    i := 0;
    if systems[n].written > 0 { i := SnapshotWasTaken(actions, systems, n, systems[n].written); }
  }

  /** With no write outstanding and the newest one not failed, the file has the store's present winners. */
  lemma {:induction false} QuietFileIsCurrent(actions: seq<Action>, systems: seq<System>, n: nat)
    requires Interleaving(actions, systems) && n <= |actions|
    requires var y := systems[n]; y.taken != [] && y.pending == {} && |y.taken| !in y.failed
    ensures var y := systems[n];
      y.written == |y.taken| && y.file.Some? && Persisted(y.file.value) == Persisted(y.store)
  {
    AlwaysConsistent(actions, systems, n);
  }
}
