/** Whole runs of a table: what every sequence of insertions, lookups and deletions keeps, and
    the finite map (up to the comparator) that such a run maintains. */
module TableRuns {
  import opened Wrappers
  import opened RobinHood
  import opened TableModel

  datatype Op<K, V> = InsertOp(key: K, value: V) | FindOp(key: K) | DeleteOp(key: K)
  datatype Outcome<V> = Flag(ok: bool) | Found(value: Option<V>)

  /** What a table of this keying and callback does is fixed by the operations applied to it. */
  ghost function Step<K(!new), V>(ks: Keying<K>, cb: Option<DuplicateCallback<V>>, m: Table<K, V>,
                                  op: Op<K, V>): (Table<K, V>, Outcome<V>)
    requires Valid(ks, m)
  {
    match op
    case InsertOp(key, value) =>
      var r := Insert(ks, cb, m, key, value); (r.0, Flag(r.1))
    case FindOp(key) =>
      (m, Found(Get(ks, m.stored, key)))
    case DeleteOp(key) =>
      var r := Delete(ks, m, key); (r.0, Flag(r.1))
  }

  ghost function Get<K, V>(ks: Keying<K>, stored: set<Entry<K, V>>, key: K): Option<V> {
    match Lookup(ks, stored, key)
    case None => None
    case Some(e) => Some(e.value)
  }

  ghost function Run<K(!new), V>(ks: Keying<K>, cb: Option<DuplicateCallback<V>>, m: Table<K, V>,
                                 ops: seq<Op<K, V>>): Table<K, V>
    requires Valid(ks, m)
    ensures Valid(ks, Run(ks, cb, m, ops))
    decreases |ops|
  {
    if ops == [] then m
    else
      StepKeepsValid(ks, cb, m, ops[0]);
      Run(ks, cb, Step(ks, cb, m, ops[0]).0, ops[1..])
  }

  lemma StepKeepsValid<K(!new), V>(ks: Keying<K>, cb: Option<DuplicateCallback<V>>, m: Table<K, V>, op: Op<K, V>)
    requires Valid(ks, m)
    ensures Valid(ks, Step(ks, cb, m, op).0)
    ensures var n := Step(ks, cb, m, op).0;
            n.size - |n.stored| == m.size - |m.stored| + DuplicateHit(ks, m, op)
  {
    match op
    case InsertOp(key, value) => InsertKeepsValid(ks, cb, m, key, value);
    case FindOp(key) =>
    case DeleteOp(key) => DeleteKeepsValid(ks, m, key);
  }

  lemma InsertKeepsValid<K(!new), V>(ks: Keying<K>, cb: Option<DuplicateCallback<V>>, m: Table<K, V>, key: K, value: V)
    requires Valid(ks, m)
    ensures var n := Insert(ks, cb, m, key, value).0;
            && Valid(ks, n) && (Refuses(m) ==> n == m)
            && (!Refuses(m) ==> n.size == m.size + 1)
            && (!Refuses(m) ==> |n.stored| == |m.stored| + if Lookup(ks, m.stored, key) == None then 1 else 0)
  {
    PutCount(ks, m.stored, cb, key, value);
  }

  lemma DeleteKeepsValid<K(!new), V>(ks: Keying<K>, m: Table<K, V>, key: K)
    requires Valid(ks, m)
    ensures var n := Delete(ks, m, key).0;
            Valid(ks, n) && n.size - |n.stored| == m.size - |m.stored|
  {
    var found := Lookup(ks, m.stored, key);
    if found.Some? {
      RemoveOne(m.stored, found.value);
    }
  }

  /** One if the operation is an admitted insertion of a key that is already stored. */
  ghost function DuplicateHit<K, V>(ks: Keying<K>, m: Table<K, V>, op: Op<K, V>): nat {
    if op.InsertOp? && !Refuses(m) && Lookup(ks, m.stored, op.key).Some? then 1 else 0
  }

  ghost function DuplicateHits<K(!new), V>(ks: Keying<K>, cb: Option<DuplicateCallback<V>>, m: Table<K, V>,
                                           ops: seq<Op<K, V>>): nat
    requires Valid(ks, m)
    decreases |ops|
  {
    if ops == [] then 0
    else
      StepKeepsValid(ks, cb, m, ops[0]);
      DuplicateHit(ks, m, ops[0]) + DuplicateHits(ks, cb, Step(ks, cb, m, ops[0]).0, ops[1..])
  }

  /** In every run from an empty table the counter is the number of stored entries plus the
      number of admitted insertions that met their own key, and never exceeds the capacity. */
  lemma CounterOverRuns<K(!new), V>(ks: Keying<K>, cb: Option<DuplicateCallback<V>>, canGrow: bool, ops: seq<Op<K, V>>)
    requires Lawful(ks)
    ensures var m := Table({}, 0, INITIAL_CAP, canGrow);
            var n := Run(ks, cb, m, ops);
            && |n.stored| <= n.size <= n.cap && n.size == |n.stored| + DuplicateHits(ks, cb, m, ops)
            && (n.size == |n.stored| <==> DuplicateHits(ks, cb, m, ops) == 0)
  {
    CounterFrom(ks, cb, Table({}, 0, INITIAL_CAP, canGrow), ops);
  }

  lemma {:induction false} CounterFrom<K(!new), V>(ks: Keying<K>, cb: Option<DuplicateCallback<V>>, m: Table<K, V>,
                                                   ops: seq<Op<K, V>>)
    requires Valid(ks, m)
    ensures var n := Run(ks, cb, m, ops);
            n.size - |n.stored| == m.size - |m.stored| + DuplicateHits(ks, cb, m, ops)
    decreases |ops|
  {
    if ops == [] {
    } else {
      StepKeepsValid(ks, cb, m, ops[0]);
      CounterFrom(ks, cb, Step(ks, cb, m, ops[0]).0, ops[1..]);
    }
  }

  // ----- The finite map

  /** A map from keys to values that does not tell equal keys apart. */
  type KeyMap<!K, V> = K -> Option<V>

  function Update<K, V>(ks: Keying<K>, f: KeyMap<K, V>, key: K, v: Option<V>): KeyMap<K, V> {
    (x: K) => if ks.equal(key, x) then v else f(x)
  }

  /** What an operation does to the map if the table does not refuse it. */
  function MapStep<K, V>(ks: Keying<K>, cb: Option<DuplicateCallback<V>>, f: KeyMap<K, V>, op: Op<K, V>)
    : (KeyMap<K, V>, Outcome<V>)
  {
    match op
    case InsertOp(key, value) =>
      (match f(key)
       case None => (Update(ks, f, key, Some(value)), Flag(true))
       case Some(v) =>
         if cb.None? then (f, Flag(false))
         else (Update(ks, f, key, Some(cb.value(v, value).1)), Flag(cb.value(v, value).0)))
    case FindOp(key) => (f, Found(f(key)))
    case DeleteOp(key) => (Update(ks, f, key, None), Flag(f(key).Some?))
  }

  ghost predicate Represents<K(!new), V>(ks: Keying<K>, m: Table<K, V>, f: KeyMap<K, V>) {
    forall k :: Get(ks, m.stored, k) == f(k)
  }

  /** One table operation is one map operation, unless the table refuses an insertion; then
      it reports failure and changes nothing. */
  lemma StepIsMapStep<K(!new), V>(ks: Keying<K>, cb: Option<DuplicateCallback<V>>, m: Table<K, V>,
                                  f: KeyMap<K, V>, op: Op<K, V>)
    requires Valid(ks, m) && Represents(ks, m, f)
    ensures var n := Step(ks, cb, m, op);
            if op.InsertOp? && Refuses(m) then n.0 == m && n.1 == Flag(false)
            else Represents(ks, n.0, MapStep(ks, cb, f, op).0) && n.1 == MapStep(ks, cb, f, op).1
  {
    StepKeepsValid(ks, cb, m, op);
    assert Get(ks, m.stored, op.key) == f(op.key);
    match op
    case FindOp(_) =>
    case DeleteOp(key) =>
      forall k ensures Get(ks, Delete(ks, m, key).0.stored, k) == MapStep(ks, cb, f, op).0(k) {
        assert Get(ks, m.stored, k) == f(k);
        GetAfterDelete(ks, m, key, k);
      }
    case InsertOp(key, value) =>
      forall k ensures Get(ks, Put(ks, m.stored, cb, key, value).0, k) == MapStep(ks, cb, f, op).0(k) {
        assert Get(ks, m.stored, k) == f(k);
        GetAfterPut(ks, cb, m.stored, key, value, k);
        if ks.equal(key, k) {
          SameKey(ks, m.stored, key, k);
        }
      }
  }

  // ----- What the documentation promises of an insertion, and when it holds

  /** An insertion does what its documentation says exactly if the table has room for one more
      count, or the documented outcome is to report false and keep the value anyway. */
  lemma InsertIsMapInsertExactly<K(!new), V>(ks: Keying<K>, cb: Option<DuplicateCallback<V>>, m: Table<K, V>,
                                             f: KeyMap<K, V>, key: K, value: V)
    requires Valid(ks, m) && Represents(ks, m, f)
    ensures var n, g := Step(ks, cb, m, InsertOp(key, value)), MapStep(ks, cb, f, InsertOp(key, value));
            Represents(ks, n.0, g.0) && n.1 == g.1 <==>
              || m.canGrow || m.size < m.cap
              || (f(key).Some? && (cb.None? || cb.value(f(key).value, value) == (false, f(key).value)))
  {
    var n, g := Step(ks, cb, m, InsertOp(key, value)), MapStep(ks, cb, f, InsertOp(key, value));
    StepIsMapStep(ks, cb, m, f, InsertOp(key, value));
    if Refuses(m) {
      assert Get(ks, m.stored, key) == f(key) && ks.equal(key, key);
      assert Represents(ks, m, g.0) ==> Get(ks, m.stored, key) == g.0(key);
      if f(key).Some? && cb.Some? && cb.value(f(key).value, value) == (false, f(key).value) {
        forall k ensures Get(ks, m.stored, k) == g.0(k) {
          assert Get(ks, m.stored, k) == f(k);
          if ks.equal(key, k) {
            SameKey(ks, m.stored, key, k);
          }
        }
      }
    }
  }

  /** A present key has the offered value afterwards exactly if it had it before, or an
      admitted insertion made the callback leave it. */
  lemma InsertReplacesExactly<K(!new), V>(ks: Keying<K>, cb: Option<DuplicateCallback<V>>, m: Table<K, V>,
                                          key: K, value: V)
    requires Valid(ks, m) && Get(ks, m.stored, key).Some?
    ensures var was := Get(ks, m.stored, key).value;
            Get(ks, Insert(ks, cb, m, key, value).0.stored, key) == Some(value) <==>
              if Refuses(m) || cb.None? then was == value else cb.value(was, value).1 == value
  {
    GetAfterPut(ks, cb, m.stored, key, value, key);
    assert ks.equal(key, key);
  }

  /** Without a callback the second of two insertions of a key does not replace the first. */
  lemma SecondInsertIsIgnored<K(!new), V>(ks: Keying<K>, key: K, v: V, w: V, canGrow: bool)
    requires Lawful(ks)
    ensures var n := Run(ks, None, Table({}, 0, INITIAL_CAP, canGrow), [InsertOp(key, v), InsertOp(key, w)]);
            Get(ks, n.stored, key) == Some(v)
  {
    var m := Table({}, 0, INITIAL_CAP, canGrow);
    var ops := [InsertOp(key, v), InsertOp(key, w)];
    assert ks.equal(key, key) && Get(ks, m.stored, key) == None;
    StepKeepsValid(ks, None, m, ops[0]);
    var m1 := Step(ks, None, m, ops[0]).0;
    GetAfterPut(ks, None, m.stored, key, v, key);
    StepKeepsValid(ks, None, m1, ops[1]);
    GetAfterPut(ks, None, m1.stored, key, w, key);
    assert ops[1..] == [ops[1]] && ops[1..][1..] == [];
    assert Run(ks, None, m1, [ops[1]]) == Step(ks, None, m1, ops[1]).0;
  }

  /** Inserting one key over and over counts every insertion and stores one entry. */
  lemma {:induction false} RepeatedInsert<K(!new), V>(ks: Keying<K>, m: Table<K, V>, key: K, value: V, n: nat)
    requires Valid(ks, m) && !m.canGrow && m.stored == {Entry(key, value, HashOf(ks, key))} && m.size + n <= m.cap
    ensures Run(ks, None, m, seq(n, _ => InsertOp(key, value))) == m.(size := m.size + n)
    decreases n
  {
    var ops := seq(n, _ => InsertOp(key, value));
    if n == 0 {
    } else {
      var e := Entry(key, value, HashOf(ks, key));
      assert ks.equal(key, e.key) && e in m.stored;
      LookupIs(ks, m.stored, key, e);
      assert Step(ks, None, m, ops[0]).0 == m.(size := m.size + 1);
      assert ops[1..] == seq(n - 1, _ => InsertOp(key, value));
      RepeatedInsert(ks, m.(size := m.size + 1), key, value, n - 1);
    }
  }

  /** So the counter is not the number of entries: a table of one entry can be full, and an
      insertion of a new key fails although the table has thirty free slots. */
  lemma OneEntryCanFillTable<K(!new), V>(ks: Keying<K>, key: K, value: V, other: K)
    requires Lawful(ks) && !ks.equal(other, key)
    ensures var n := Run(ks, None, Table({}, 0, INITIAL_CAP, false), seq(INITIAL_CAP, _ => InsertOp(key, value)));
            && |n.stored| == 1 && n.size == n.cap == INITIAL_CAP
            && Get(ks, n.stored, other) == None && Step(ks, None, n, InsertOp(other, value)) == (n, Flag(false))
  {
    var m := Table({}, 0, INITIAL_CAP, false);
    var ops := seq(INITIAL_CAP, _ => InsertOp(key, value));
    var e := Entry(key, value, HashOf(ks, key));
    StepKeepsValid(ks, None, m, ops[0]);
    assert Step(ks, None, m, ops[0]).0 == Table({e}, 1, INITIAL_CAP, false);
    assert ops[1..] == seq(INITIAL_CAP - 1, _ => InsertOp(key, value));
    RepeatedInsert(ks, Table({e}, 1, INITIAL_CAP, false), key, value, INITIAL_CAP - 1);
  }

  // ----- Whole runs refine the map

  ghost function Outcomes<K(!new), V>(ks: Keying<K>, cb: Option<DuplicateCallback<V>>, m: Table<K, V>,
                                      ops: seq<Op<K, V>>): seq<Outcome<V>>
    requires Valid(ks, m)
    decreases |ops|
  {
    if ops == [] then []
    else
      StepKeepsValid(ks, cb, m, ops[0]);
      [Step(ks, cb, m, ops[0]).1] + Outcomes(ks, cb, Step(ks, cb, m, ops[0]).0, ops[1..])
  }

  /** Which operations of a run the table refuses. */
  ghost function Refusals<K(!new), V>(ks: Keying<K>, cb: Option<DuplicateCallback<V>>, m: Table<K, V>,
                                      ops: seq<Op<K, V>>): (r: seq<bool>)
    requires Valid(ks, m)
    ensures |r| == |ops|
    decreases |ops|
  {
    if ops == [] then []
    else
      StepKeepsValid(ks, cb, m, ops[0]);
      [ops[0].InsertOp? && Refuses(m)] + Refusals(ks, cb, Step(ks, cb, m, ops[0]).0, ops[1..])
  }

  /** A finite map with a counter and a capacity: all that outcomes depend on. */
  datatype Machine<!K, V> = Machine(f: KeyMap<K, V>, size: int, cap: nat, canGrow: bool)

  /** An insertion is refused at a full counter if the capacity is fixed, and counted otherwise;
      a deletion is counted if it finds its key. */
  function MachineStep<K, V>(ks: Keying<K>, cb: Option<DuplicateCallback<V>>, x: Machine<K, V>, op: Op<K, V>)
    : (Machine<K, V>, Outcome<V>)
  {
    var r := MapStep(ks, cb, x.f, op);
    match op
    case InsertOp(_, _) =>
      if !x.canGrow && x.size >= x.cap then (x, Flag(false))
      else
        var cap := if x.canGrow && x.size * 100 >= x.cap * LOAD_FACTOR then x.cap * 2 else x.cap;
        (Machine(r.0, x.size + 1, cap, x.canGrow), r.1)
    case FindOp(_) => (x, r.1)
    case DeleteOp(key) => (x.(f := r.0, size := if x.f(key).Some? then x.size - 1 else x.size), r.1)
  }

  function MachineRun<K, V>(ks: Keying<K>, cb: Option<DuplicateCallback<V>>, x: Machine<K, V>, ops: seq<Op<K, V>>)
    : (Machine<K, V>, seq<Outcome<V>>)
    decreases |ops|
  {
    if ops == [] then (x, [])
    else
      var step := MachineStep(ks, cb, x, ops[0]);
      var rest := MachineRun(ks, cb, step.0, ops[1..]);
      (rest.0, [step.1] + rest.1)
  }

  ghost predicate Agrees<K(!new), V>(ks: Keying<K>, m: Table<K, V>, x: Machine<K, V>) {
    Represents(ks, m, x.f) && m.size == x.size && m.cap == x.cap && m.canGrow == x.canGrow
  }

  lemma StepIsMachineStep<K(!new), V>(ks: Keying<K>, cb: Option<DuplicateCallback<V>>, m: Table<K, V>,
                                      x: Machine<K, V>, op: Op<K, V>)
    requires Valid(ks, m) && Agrees(ks, m, x)
    ensures var n, y := Step(ks, cb, m, op), MachineStep(ks, cb, x, op);
            Agrees(ks, n.0, y.0) && n.1 == y.1
  {
    StepIsMapStep(ks, cb, m, x.f, op);
    assert Get(ks, m.stored, op.key) == x.f(op.key);
  }

  /** Over every run the table reports what the machine reports, which never sees the table, and
      ends up holding its map. */
  lemma {:induction false} RunRefinesMap<K(!new), V>(ks: Keying<K>, cb: Option<DuplicateCallback<V>>,
                                                     m: Table<K, V>, x: Machine<K, V>, ops: seq<Op<K, V>>)
    requires Valid(ks, m) && Agrees(ks, m, x)
    ensures var r := MachineRun(ks, cb, x, ops);
            Agrees(ks, Run(ks, cb, m, ops), r.0) && Outcomes(ks, cb, m, ops) == r.1
    decreases |ops|
  {
    if ops == [] {
    } else {
      StepKeepsValid(ks, cb, m, ops[0]);
      StepIsMachineStep(ks, cb, m, x, ops[0]);
      RunRefinesMap(ks, cb, Step(ks, cb, m, ops[0]).0, MachineStep(ks, cb, x, ops[0]).0, ops[1..]);
    }
  }

  function MapRun<K, V>(ks: Keying<K>, cb: Option<DuplicateCallback<V>>, f: KeyMap<K, V>, ops: seq<Op<K, V>>)
    : (KeyMap<K, V>, seq<Outcome<V>>)
  {
    if ops == [] then (f, [])
    else
      var step := MapStep(ks, cb, f, ops[0]);
      var rest := MapRun(ks, cb, step.0, ops[1..]);
      (rest.0, [step.1] + rest.1)
  }

  /** With growth allowed nothing but the map is left of the machine. */
  lemma {:induction false} GrowingRunIsMapRun<K(!new), V>(ks: Keying<K>, cb: Option<DuplicateCallback<V>>,
                                                         m: Table<K, V>, f: KeyMap<K, V>, ops: seq<Op<K, V>>)
    requires Valid(ks, m) && Represents(ks, m, f) && m.canGrow
    ensures var r := MapRun(ks, cb, f, ops);
            Represents(ks, Run(ks, cb, m, ops), r.0) && Outcomes(ks, cb, m, ops) == r.1
    decreases |ops|
  {
    if ops == [] {
    } else {
      StepKeepsValid(ks, cb, m, ops[0]);
      StepIsMapStep(ks, cb, m, f, ops[0]);
      GrowingRunIsMapRun(ks, cb, Step(ks, cb, m, ops[0]).0, MapStep(ks, cb, f, ops[0]).0, ops[1..]);
    }
  }

  /** A table that may grow never refuses; one that may not refuses at a full counter only. */
  lemma {:induction false} GrowingNeverRefuses<K(!new), V>(ks: Keying<K>, cb: Option<DuplicateCallback<V>>,
                                                          m: Table<K, V>, ops: seq<Op<K, V>>)
    requires Valid(ks, m) && m.canGrow
    ensures forall i | 0 <= i < |ops| :: !Refusals(ks, cb, m, ops)[i]
    decreases |ops|
  {
    if ops == [] {
    } else {
      StepKeepsValid(ks, cb, m, ops[0]);
      GrowingNeverRefuses(ks, cb, Step(ks, cb, m, ops[0]).0, ops[1..]);
    }
  }

  /** A table that may grow doubles before the insertion that finds nine tenths of its capacity
      counted, the first time with the twenty-ninth; another one never does. */
  lemma GrowsAtNineTenths<K(!new), V>(ks: Keying<K>, m: Table<K, V>)
    requires Valid(ks, m)
    ensures RoomyCap(m) == if m.canGrow && 10 * m.size >= 9 * m.cap then 2 * m.cap else m.cap
    ensures m.canGrow && m.cap == INITIAL_CAP ==> RoomyCap(m) == if m.size >= 28 then 62 else 31
  {
  }

  lemma RefusesOnlyWhenFull<K(!new), V>(ks: Keying<K>, m: Table<K, V>)
    requires Valid(ks, m)
    ensures Refuses(m) <==> !m.canGrow && m.size == m.cap
  {
  }

  lemma GetAfterPut<K(!new), V>(ks: Keying<K>, cb: Option<DuplicateCallback<V>>, stored: set<Entry<K, V>>,
                                key: K, value: V, k: K)
    requires IsMap(ks, stored)
    ensures var after, was := Get(ks, Put(ks, stored, cb, key, value).0, k), Get(ks, stored, k);
            if !ks.equal(key, k) then after == was
            else if was == None then after == Some(value)
            else if cb == None then after == was
            else after == Some(cb.value(was.value, value).1)
  {
    PutCount(ks, stored, cb, key, value);
    var found := Lookup(ks, stored, key);
    if ks.equal(key, k) {
      SameKey(ks, stored, key, k);
    }
    if found == None {
      SameClass(ks, key, key, k);
      LookupWith(ks, stored, Entry(key, value, HashOf(ks, key)), k);
    } else if cb.Some? {
      var e := found.value;
      SameClass(ks, key, e.key, k);
      ReplaceValue(ks, stored, e, cb.value(e.value, value).1, k);
    }
  }

  /** The callback is called once, with the stored and the offered value, exactly by an admitted
      insertion of a present key. */
  lemma CalledOnce<K(!new), V>(ks: Keying<K>, cb: Option<DuplicateCallback<V>>, m: Table<K, V>, key: K, value: V)
    requires Valid(ks, m)
    ensures var calls, was := InsertCalls(ks, cb, m, key, value), Get(ks, m.stored, key);
            if !Refuses(m) && was.Some? && cb.Some? then |calls| == 1 && calls[0] == (was.value, value) else calls == []
  {
  }

  lemma ReplaceValue<K(!new), V>(ks: Keying<K>, stored: set<Entry<K, V>>, e: Entry<K, V>, v: V, k: K)
    requires IsMap(ks, stored) && e in stored
    ensures var after := stored - {e} + {e.(value := v)};
            Lookup(ks, after, k) == if ks.equal(k, e.key) then Some(e.(value := v)) else Lookup(ks, stored, k)
  {
    LookupWithout(ks, stored, e, k);
    assert IsMap(ks, stored - {e});
    assert ks.equal(e.key, e.key);
    LookupWith(ks, stored - {e}, e.(value := v), k);
  }

  lemma GetAfterDelete<K(!new), V>(ks: Keying<K>, m: Table<K, V>, key: K, k: K)
    requires Valid(ks, m)
    ensures Get(ks, Delete(ks, m, key).0.stored, k) == if ks.equal(key, k) then None else Get(ks, m.stored, k)
  {
    var found := Lookup(ks, m.stored, key);
    if found.Some? {
      LookupWithout(ks, m.stored, found.value, k);
      SameClass(ks, key, found.value.key, k);
    } else if ks.equal(key, k) {
      SameKey(ks, m.stored, key, k);
    }
  }

  lemma SameClass<K(!new)>(ks: Keying<K>, a: K, b: K, k: K)
    requires Lawful(ks) && ks.equal(a, b)
    ensures ks.equal(a, k) == ks.equal(k, a) == ks.equal(b, k) == ks.equal(k, b)
  {
  }

  lemma SameKey<K(!new), V>(ks: Keying<K>, stored: set<Entry<K, V>>, a: K, b: K)
    requires IsMap(ks, stored) && ks.equal(a, b)
    ensures Lookup(ks, stored, a) == Lookup(ks, stored, b)
  {
    forall e | e in stored ensures ks.equal(a, e.key) == ks.equal(b, e.key) {
      SameClass(ks, a, b, e.key);
    }
    var found := Lookup(ks, stored, a);
    if found.Some? {
      LookupIs(ks, stored, b, found.value);
    }
  }

  lemma LookupWith<K(!new), V>(ks: Keying<K>, stored: set<Entry<K, V>>, e: Entry<K, V>, k: K)
    requires IsMap(ks, stored + {e}) && e !in stored
    ensures Lookup(ks, stored + {e}, k) == if ks.equal(k, e.key) then Some(e) else Lookup(ks, stored, k)
  {
    if ks.equal(k, e.key) {
      LookupIs(ks, stored + {e}, k, e);
    } else {
      var found := Lookup(ks, stored, k);
      if found.Some? {
        LookupIs(ks, stored + {e}, k, found.value);
      }
    }
  }

  lemma LookupWithout<K(!new), V>(ks: Keying<K>, stored: set<Entry<K, V>>, e: Entry<K, V>, k: K)
    requires IsMap(ks, stored) && e in stored
    ensures Lookup(ks, stored - {e}, k) == if ks.equal(k, e.key) then None else Lookup(ks, stored, k)
  {
    var found := Lookup(ks, stored, k);
    if ks.equal(k, e.key) {
      LookupIs(ks, stored, k, e);
      assert forall f | f in stored - {e} :: !ks.equal(k, f.key) by {
        forall f | f in stored && ks.equal(k, f.key) ensures f == e {
          LookupIs(ks, stored, k, f);
        }
      }
    } else if found.Some? {
      assert IsMap(ks, stored - {e});
      LookupIs(ks, stored - {e}, k, found.value);
    }
  }
}
