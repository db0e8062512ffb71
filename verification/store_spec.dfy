/** store.memoryStore: capacity, byte accounting, expiry and the all-or-nothing batch write. */
module StoreSpec {
  import opened Types
  import opened Ttl

  datatype Entry<V> = Entry(value: V, expires: Expiry, lastAccess: int, accessCount: int)

  /** size stands for calculateMemoryUsage. */
  datatype StoreConfig<!V> =
    StoreConfig(maxSize: int, ttl: Config, maxMemory: int, tracking: bool, size: (Key, V) -> nat)

  datatype Store<!V> = Store(cfg: StoreConfig<V>, items: map<Key, Entry<V>>, usage: int)

  datatype StoreError = CapacityLimit | MemoryLimit

  function Empty<V>(cfg: StoreConfig<V>): Store<V> {
    Store(cfg, map[], 0)
  }

  // ---------------------------------------------------------------- the calls

  function Get<V>(s: Store<V>, k: Key, now: int): (Store<V>, Option<V>) {
    if k !in s.items then (s, None)
    else if IsExpired(s.items[k].expires, now) then (s.(items := s.items - {k}), None)
    else
      var e := s.items[k];
      (s.(items := s.items[k := e.(lastAccess := now, accessCount := e.accessCount + 1)]), Some(e.value))
  }

  function NewEntry<V>(s: Store<V>, v: V, ttl: int, now: int): Entry<V> {
    Entry(v, ExpirationTime(Normalize(ttl, s.cfg.ttl), s.cfg.ttl, now), now, 1)
  }

  function SetCheck<V>(s: Store<V>, k: Key, v: V): Option<StoreError> {
    if s.cfg.maxSize > 0 && k !in s.items && |s.items| >= s.cfg.maxSize then Some(CapacityLimit)
    else if s.cfg.tracking && s.cfg.maxMemory > 0 && s.usage + s.cfg.size(k, v) > s.cfg.maxMemory then Some(MemoryLimit)
    else None
  }

  /** The bytes an entry already stored under k accounts for. */
  function SizeAt<V>(s: Store<V>, k: Key): nat {
    if k in s.items then s.cfg.size(k, s.items[k].value) else 0
  }

  function Put<V>(s: Store<V>, k: Key, v: V, ttl: int, now: int): Store<V> {
    var usage := if s.cfg.tracking then s.usage - SizeAt(s, k) + s.cfg.size(k, v) else s.usage;
    s.(items := s.items[k := NewEntry(s, v, ttl, now)], usage := usage)
  }

  function Set<V>(s: Store<V>, k: Key, v: V, ttl: int, now: int): (Store<V>, Option<StoreError>) {
    if SetCheck(s, k, v).Some? then (s, SetCheck(s, k, v)) else (Put(s, k, v, ttl, now), None)
  }

  function Delete<V>(s: Store<V>, k: Key): Store<V> {
    s.(items := s.items - {k}, usage := if s.cfg.tracking then s.usage - SizeAt(s, k) else s.usage)
  }

  function Clear<V>(s: Store<V>): Store<V> {
    s.(items := map[], usage := if s.cfg.tracking then 0 else s.usage)
  }

  function Sweep<V>(s: Store<V>, now: int): Store<V> {
    s.(items := map k | k in s.items && !IsExpired(s.items[k].expires, now) :: s.items[k])
  }

  function NewKeys<V>(s: Store<V>, entries: map<Key, V>): set<Key> {
    entries.Keys - s.items.Keys
  }

  ghost function SetManyCheck<V>(s: Store<V>, entries: map<Key, V>): Option<StoreError> {
    if s.cfg.maxSize > 0 && |s.items| + |NewKeys(s, entries)| > s.cfg.maxSize then Some(CapacityLimit)
    else if s.cfg.tracking && s.cfg.maxMemory > 0
      && s.usage + Bytes(s.cfg.size, entries - s.items.Keys) > s.cfg.maxMemory then Some(MemoryLimit)
    else None
  }

  ghost function PutMany<V>(s: Store<V>, entries: map<Key, V>, ttl: int, now: int): Store<V> {
    var replaced := Contents(s.items) - (s.items.Keys - entries.Keys);
    s.(items := s.items + (map k | k in entries :: NewEntry(s, entries[k], ttl, now)),
       usage := if s.cfg.tracking then s.usage - Bytes(s.cfg.size, replaced) + Bytes(s.cfg.size, entries) else s.usage)
  }

  ghost function SetMany<V>(s: Store<V>, entries: map<Key, V>, ttl: int, now: int): (Store<V>, Option<StoreError>) {
    if SetManyCheck(s, entries).Some? then (s, SetManyCheck(s, entries)) else (PutMany(s, entries, ttl, now), None)
  }

  // ---------------------------------------------------------------- bytes

  ghost function Contents<V>(items: map<Key, Entry<V>>): (m: map<Key, V>)
    ensures m.Keys == items.Keys
  {
    map k | k in items :: items[k].value
  }

  /** The summed size of a map's entries. */
  ghost function Bytes<V>(size: (Key, V) -> nat, m: map<Key, V>): nat
    decreases |m|
  {
    if m == map[] then 0
    else
      var k :| k in m;
      size(k, m[k]) + Bytes(size, m - {k})
  }

  /** The sum does not depend on the order in which the entries are taken. */
  lemma {:induction false} BytesLess<V>(size: (Key, V) -> nat, m: map<Key, V>, k: Key)
    requires k in m
    ensures Bytes(size, m) == size(k, m[k]) + Bytes(size, m - {k})
    decreases |m|
  {
    var j :| j in m && Bytes(size, m) == size(j, m[j]) + Bytes(size, m - {j});
    if j != k {
      BytesLess(size, m - {j}, k);
      BytesLess(size, m - {k}, j);
      assert m - {j} - {k} == m - {k} - {j};
    }
  }

  lemma BytesPut<V>(size: (Key, V) -> nat, m: map<Key, V>, k: Key, v: V)
    ensures Bytes(size, m[k := v]) == Bytes(size, m - {k}) + size(k, v)
  {
    BytesLess(size, m[k := v], k);
    assert m[k := v] - {k} == m - {k};
  }

  lemma UnionLess<V>(a: map<Key, V>, b: map<Key, V>, k: Key)
    requires k in b && k !in a
    ensures (a + b) - {k} == a + (b - {k}) && (a + b)[k] == b[k] && k in a + b
  {}

  lemma {:induction false} BytesUnion<V>(size: (Key, V) -> nat, a: map<Key, V>, b: map<Key, V>)
    requires forall k :: k in a ==> k !in b
    ensures Bytes(size, a + b) == Bytes(size, a) + Bytes(size, b)
    decreases |b|
  {
    if b == map[] {
      assert a + b == a;
    } else {
      var k :| k in b;
      var ab := a + b;
      UnionLess(a, b, k);
      BytesLess(size, b, k);
      BytesLess(size, ab, k);
      BytesUnion(size, a, b - {k});
    }
  }

  /** The bytes held under the given keys and under the others add up to all bytes. */
  lemma BytesSplit<V>(size: (Key, V) -> nat, m: map<Key, V>, ks: set<Key>)
    ensures Bytes(size, m) == Bytes(size, m - ks) + Bytes(size, m - (m.Keys - ks))
  {
    assert m == (m - ks) + (m - (m.Keys - ks));
    BytesUnion(size, m - ks, m - (m.Keys - ks));
  }
}
