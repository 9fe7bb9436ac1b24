/** The Robin Hood table as its callers see it: a set of entries with pairwise different keys
    and the counters that decide growth and refusal. HashTable refines this machine. */
module TableModel {
  import opened Wrappers
  import opened RobinHood

  const INITIAL_CAP: nat := 31
  const LOAD_FACTOR: nat := 90

  /** Called with the stored and the offered value; gives the verdict and the value to keep. */
  type DuplicateCallback<!V> = (V, V) -> (bool, V)

  datatype Table<K(==), V(==)> = Table(stored: set<Entry<K, V>>, size: nat, cap: nat, canGrow: bool)

  /** The stored entries form a map: one entry for each key, under its own hash. */
  ghost predicate IsMap<K(!new), V>(ks: Keying<K>, stored: set<Entry<K, V>>) {
    && Lawful(ks)
    && (forall e | e in stored :: e.hash == HashOf(ks, e.key))
    && (forall e, f | e in stored && f in stored && ks.equal(e.key, f.key) :: e == f)
  }

  ghost predicate Valid<K(!new), V>(ks: Keying<K>, m: Table<K, V>) {
    IsMap(ks, m.stored) && 0 < m.cap && |m.stored| <= m.size <= m.cap
  }

  ghost function Lookup<K, V>(ks: Keying<K>, stored: set<Entry<K, V>>, key: K): Option<Entry<K, V>> {
    if e :| e in stored && ks.equal(key, e.key) then Some(e) else None
  }

  lemma LookupIs<K(!new), V>(ks: Keying<K>, stored: set<Entry<K, V>>, key: K, e: Entry<K, V>)
    requires IsMap(ks, stored) && e in stored && ks.equal(key, e.key)
    ensures Lookup(ks, stored, key) == Some(e)
  {
    var f := Lookup(ks, stored, key).value;
    assert ks.equal(f.key, key) && ks.equal(key, e.key);
  }

  ghost predicate Overloaded<K, V>(m: Table<K, V>) {
    m.size * 100 >= m.cap * LOAD_FACTOR
  }

  /** Insertion is refused outright: no growth allowed and the counter has reached the capacity. */
  ghost predicate Refuses<K, V>(m: Table<K, V>) {
    Overloaded(m) && !m.canGrow && m.size >= m.cap
  }

  /** The capacity an admitted insertion works with. */
  ghost function RoomyCap<K, V>(m: Table<K, V>): nat {
    if Overloaded(m) && m.canGrow then m.cap * 2 else m.cap
  }

  /** What placing a pair does to the stored entries and what it reports. */
  ghost function Put<K, V>(ks: Keying<K>, stored: set<Entry<K, V>>,
                           cb: Option<DuplicateCallback<V>>, key: K, value: V): (set<Entry<K, V>>, bool)
  {
    match Lookup(ks, stored, key)
    case None => (stored + {Entry(key, value, HashOf(ks, key))}, true)
    case Some(e) =>
      match cb
      case None => (stored, false)
      case Some(f) => (stored - {e} + {e.(value := f(e.value, value).1)}, f(e.value, value).0)
  }

  ghost function Insert<K, V>(ks: Keying<K>, cb: Option<DuplicateCallback<V>>, m: Table<K, V>,
                              key: K, value: V): (Table<K, V>, bool)
  {
    if Refuses(m) then (m, false)
    else
      var put := Put(ks, m.stored, cb, key, value);
      (Table(put.0, m.size + 1, RoomyCap(m), m.canGrow), put.1)
  }

  /** Placing a pair adds one entry for a new key and none for a stored one. */
  lemma PutCount<K(!new), V>(ks: Keying<K>, stored: set<Entry<K, V>>,
                             cb: Option<DuplicateCallback<V>>, key: K, value: V)
    requires IsMap(ks, stored)
    ensures var after := Put(ks, stored, cb, key, value).0;
            && IsMap(ks, after)
            && |after| == |stored| + if Lookup(ks, stored, key) == None then 1 else 0
  {
    var found := Lookup(ks, stored, key);
    if found.Some? {
      RemoveOne(stored, found.value);
      if cb.Some? {
        var e := found.value.(value := cb.value(found.value.value, value).1);
        assert ks.equal(e.key, found.value.key);
      }
    } else {
      var e := Entry(key, value, HashOf(ks, key));
      assert ks.equal(key, e.key) && e !in stored;
    }
  }

  /** Giving an entry another value keeps the map and the number of its entries. */
  lemma SetValueCount<K(!new), V>(ks: Keying<K>, stored: set<Entry<K, V>>, e: Entry<K, V>, value: V)
    requires IsMap(ks, stored) && e in stored
    ensures var after := stored - {e} + {e.(value := value)};
            IsMap(ks, after) && |after| == |stored|
  {
    var f := e.(value := value);
    assert ks.equal(e.key, f.key);
    RemoveOne(stored, e);
    assert f !in stored - {e};
  }

  /** A new key meets a table that may not grow: it is stored unless the counter is at capacity. */
  lemma InsertNew<K(!new), V>(ks: Keying<K>, cb: Option<DuplicateCallback<V>>, m: Table<K, V>, key: K, value: V)
    requires Valid(ks, m) && !m.canGrow && Lookup(ks, m.stored, key) == None
    ensures Refuses(m) <==> m.size == m.cap
    ensures var r, e := Insert(ks, cb, m, key, value), Entry(key, value, HashOf(ks, key));
            && r.1 == (m.size < m.cap) && r.0.cap == m.cap
            && r.0.size == (if r.1 then m.size + 1 else m.size)
            && r.0.stored == (if r.1 then m.stored + {e} else m.stored)
            && e !in m.stored && |m.stored + {e}| == |m.stored| + 1
  {
    var e := Entry(key, value, HashOf(ks, key));
    assert ks.equal(key, e.key);
  }

  /** The calls of the duplicate callback that placing a pair makes. */
  ghost function PutCalls<K, V>(ks: Keying<K>, stored: set<Entry<K, V>>,
                                cb: Option<DuplicateCallback<V>>, key: K, value: V): seq<(V, V)>
  {
    match Lookup(ks, stored, key)
    case None => []
    case Some(e) => if cb.Some? then [(e.value, value)] else []
  }

  ghost function InsertCalls<K, V>(ks: Keying<K>, cb: Option<DuplicateCallback<V>>, m: Table<K, V>,
                                   key: K, value: V): seq<(V, V)>
  {
    if Refuses(m) then [] else PutCalls(ks, m.stored, cb, key, value)
  }

  ghost function Delete<K(!new), V>(ks: Keying<K>, m: Table<K, V>, key: K): (Table<K, V>, bool)
    requires Valid(ks, m)
  {
    match Lookup(ks, m.stored, key)
    case None => (m, false)
    case Some(e) =>
      RemoveOne(m.stored, e);
      (m.(stored := m.stored - {e}, size := m.size - 1), true)
  }

  lemma RemoveOne<T>(s: set<T>, x: T)
    requires x in s
    ensures |s - {x}| + 1 == |s|
  {
    assert s == (s - {x}) + {x};
  }
}
