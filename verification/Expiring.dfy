/**
  Bounded tables of entries with a deadline, as the registries keep them: expired entries are swept
  first, and only a table full of live entries gives up the one closest to its deadline.
 */
module Expiring {
  import opened Collections

  datatype Timed<V> = Timed(value: V, expiresAt: nat)
  type Table<K, V> = map<K, Timed<V>>

  function Live<K, V>(m: Table<K, V>, now: nat): Table<K, V> {
    map k | k in m && m[k].expiresAt > now :: m[k]
  }

  predicate Submap<K, V(==)>(small: Table<K, V>, big: Table<K, V>) {
    forall k :: k in small ==> k in big && small[k] == big[k]
  }

  /** `k` is in `m` and no entry of `m` has an earlier deadline. */
  predicate Oldest<K, V>(m: Table<K, V>, k: K) {
    k in m && forall j :: j in m ==> m[k].expiresAt <= m[j].expiresAt
  }

  /** The entries `m` may lose to make room: expired ones, and one oldest entry of a full table. */
  ghost predicate Roomier<K, V>(m: Table<K, V>, m': Table<K, V>, now: nat, capacity: nat) {
    || m' == Live(m, now)
    || (|Live(m, now)| >= capacity && exists k :: k in m && Oldest(Live(m, now), k) && m' == Live(m, now) - {k})
  }

  /** `m'` is `m` with one entry written; it may lose expired entries, or the oldest of a full table. */
  ghost predicate Written<K(!new), V>(
    m: Table<K, V>, m': Table<K, V>, key: K, entry: Timed<V>, now: nat, capacity: nat)
  {
    && key in m' && m'[key] == entry
    && (forall k :: k in m' && k != key ==> k in m && m'[k] == m[k])
    && (forall lost :: lost in m && lost !in m' ==>
          || m[lost].expiresAt <= now
          || (|m| >= capacity && forall kept :: kept in m' && kept != key ==> m[lost].expiresAt <= m'[kept].expiresAt))
  }

  /** The entry a scan for the minimum deadline finds. */
  method FindOldest<K(==), V>(m: Table<K, V>) returns (oldest: K)
    requires m != map[]
    ensures Oldest(m, oldest)
  {
    var todo := m.Keys;
    oldest :| oldest in todo;
    todo := todo - {oldest};
    while todo != {}
      invariant todo <= m.Keys && oldest in m
      invariant forall j :: j in m && j !in todo ==> m[oldest].expiresAt <= m[j].expiresAt
      decreases |todo|
    {
      var k :| k in todo;
      todo := todo - {k};
      if m[k].expiresAt < m[oldest].expiresAt {
        oldest := k;
      }
    }
  }

  method MakeRoom<K(==), V(==)>(m: Table<K, V>, now: nat, capacity: nat) returns (m': Table<K, V>)
    requires capacity > 0 && |m| <= capacity
    ensures Roomier(m, m', now, capacity) && Submap(m', m) && |m'| < capacity
  {
    m' := Live(m, now);
    LiveIsSmaller(m, now);
    if |m'| >= capacity {
      var k := FindOldest(m');
      m' := m' - {k};
    }
  }

  lemma LiveIsSmaller<K, V>(m: Table<K, V>, now: nat)
    ensures Live(m, now).Keys <= m.Keys && |Live(m, now)| <= |m|
  {
    SubsetSize(Live(m, now).Keys, m.Keys);
  }

  /** Writes one entry, making room first when the key is new and the table is full. */
  method WriteBounded<K(==, !new), V(==)>(m: Table<K, V>, key: K, entry: Timed<V>, now: nat, capacity: nat)
    returns (m': Table<K, V>)
    requires capacity > 0 && |m| <= capacity
    ensures Written(m, m', key, entry, now, capacity) && |m'| <= capacity
  {
    m' := m;
    if |m| >= capacity && key !in m {
      m' := MakeRoom(m, now, capacity);
    }
    WriteSize(m', key, entry);
    m' := m'[key := entry];
  }

  /** A sweep just before the write loses nothing that the write may not lose. */
  lemma WrittenAfterSweep<K(!new), V>(
    m: Table<K, V>, swept: Table<K, V>, m': Table<K, V>, key: K, entry: Timed<V>, now: nat, capacity: nat)
    requires swept == m || swept == Live(m, now)
    requires Written(swept, m', key, entry, now, capacity)
    ensures Written(m, m', key, entry, now, capacity)
  {
    LiveIsSmaller(m, now);
  }
}
