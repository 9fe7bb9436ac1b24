/** The slot array of the Robin Hood table of src/include/a3/ht.h as a sequence: its layout
    invariant, what it stores, and the effect of one step of each of its loops. */
module RobinHood {
  import opened Wrappers

  /** One slot. A zero hash marks it as free, whatever key and value it still holds. */
  datatype Entry<K, V> = Entry(key: K, value: V, hash: nat)

  /** The hash function and comparator a table is instantiated with. */
  datatype Keying<!K> = Keying(hash: K -> nat, equal: (K, K) -> bool)

  /** The comparator is an equivalence and equal keys have equal hashes. */
  ghost predicate Lawful<K(!new)>(ks: Keying<K>) {
    && (forall a :: ks.equal(a, a))
    && (forall a, b :: ks.equal(a, b) ==> ks.equal(b, a) && ks.hash(a) == ks.hash(b))
    && (forall a, b, c :: ks.equal(a, b) && ks.equal(b, c) ==> ks.equal(a, c))
  }

  /** The stored hash of a key: its hash, but never the free mark. */
  function HashOf<K>(ks: Keying<K>, key: K): (h: nat)
    ensures h != 0 && (h != ks.hash(key) ==> ks.hash(key) == 0 && h == 1)
  {
    var h := ks.hash(key);
    if h != 0 then h else 1
  }

  // ----- Cyclic positions

  function Home(hash: nat, cap: nat): (i: nat)
    requires cap > 0
    ensures i < cap
  {
    hash % cap
  }

  function Next(i: nat, cap: nat): (j: nat)
    requires i < cap
    ensures j < cap && j == if i + 1 == cap then 0 else i + 1
  {
    if i + 1 < cap then SmallMod(i + 1, cap); (i + 1) % cap else (i + 1) % cap
  }

  lemma SmallMod(x: nat, cap: nat)
    requires x < cap
    ensures x % cap == x
  {
  }

  function Prev(i: nat, cap: nat): (j: nat)
    requires i < cap
    ensures j < cap && Next(j, cap) == i
  {
    if i == 0 then cap - 1 else i - 1
  }

  /** Forward steps from slot a to slot b. */
  function Dist(a: nat, b: nat, cap: nat): (d: nat)
    requires a < cap && b < cap
    ensures d < cap
  {
    if a <= b then b - a else b + cap - a
  }

  /** The slot p steps after a. */
  function Ahead(a: nat, p: nat, cap: nat): (i: nat)
    requires a < cap && p < cap
    ensures i < cap && Dist(a, i, cap) == p
  {
    if a + p < cap then a + p else a + p - cap
  }

  /** How far slot i is from the home slot of a hash. */
  function ProbeCount(i: nat, hash: nat, cap: nat): (d: nat)
    requires i < cap
    ensures d == Dist(Home(hash, cap), i, cap)
  {
    var h := hash % cap;
    if h <= i then WrapMod(i - h, cap); (i + cap - h) % cap
    else SmallMod(i + cap - h, cap); (i + cap - h) % cap
  }

  lemma WrapMod(x: nat, cap: nat)
    requires x < cap
    ensures (x + cap) % cap == x
  {
  }

  // ----- Layout

  predicate Used<K, V>(s: seq<Entry<K, V>>, i: nat)
    requires i < |s|
  {
    s[i].hash != 0
  }

  function Probe<K, V>(s: seq<Entry<K, V>>, i: nat): (d: nat)
    requires i < |s|
    ensures d < |s|
  {
    ProbeCount(i, s[i].hash, |s|)
  }

  /** A slot no probe or shift can continue past: free, or holding an entry at its home. */
  predicate Stop<K, V>(s: seq<Entry<K, V>>, i: nat)
    requires i < |s|
  {
    !Used(s, i) || Probe(s, i) == 0
  }

  /** The entry after slot i is at most one step poorer than the one in slot i. */
  predicate Chained<K, V>(s: seq<Entry<K, V>>, i: nat)
    requires i < |s|
  {
    var j := Next(i, |s|);
    Stop(s, j) || (Used(s, i) && Probe(s, j) <= Probe(s, i) + 1)
  }

  ghost predicate Layout<K, V>(s: seq<Entry<K, V>>) {
    && (forall i: nat | i < |s| :: Chained(s, i))
    && (exists i: nat :: i < |s| && Stop(s, i))
  }

  ghost predicate Keyed<K, V>(ks: Keying<K>, s: seq<Entry<K, V>>) {
    && (forall i: nat {:trigger Used(s, i)} | i < |s| && Used(s, i) :: s[i].hash == HashOf(ks, s[i].key))
    && (forall i: nat, j: nat {:trigger Used(s, i), Used(s, j)} |
          i < |s| && j < |s| && i != j && Used(s, i) && Used(s, j) ::
          !ks.equal(s[i].key, s[j].key))
  }

  ghost predicate HoldsKey<K, V>(ks: Keying<K>, s: seq<Entry<K, V>>, i: nat, key: K)
    requires i < |s|
  {
    Used(s, i) && ks.equal(key, s[i].key)
  }

  ghost predicate Absent<K, V>(ks: Keying<K>, s: seq<Entry<K, V>>, key: K) {
    forall i: nat | i < |s| && Used(s, i) :: !ks.equal(key, s[i].key)
  }

  /** The entries a table holds. */
  ghost function Stored<K, V>(s: seq<Entry<K, V>>): set<Entry<K, V>> {
    set i: nat | i < |s| && s[i].hash != 0 :: s[i]
  }

  ghost predicate Sound<K(!new), V>(ks: Keying<K>, s: seq<Entry<K, V>>) {
    |s| > 0 && Lawful(ks) && Layout(s) && Keyed(ks, s)
  }

  // ----- What lookups rely on

  /** Every slot between an entry's home and its place is used by an entry at least as far
      from its own home: a lookup that stops at a richer resident misses nothing. */
  lemma {:induction false} PathIsPoor<K, V>(s: seq<Entry<K, V>>, t: nat, p: nat)
    requires Layout(s) && t < |s| && Used(s, t) && p <= Probe(s, t)
    ensures var i := Ahead(Home(s[t].hash, |s|), p, |s|);
            Used(s, i) && Probe(s, i) >= p
    decreases Probe(s, t) - p
  {
    var home := Home(s[t].hash, |s|);
    if p == Probe(s, t) {
    } else {
      PathIsPoor(s, t, p + 1);
      var i := Ahead(home, p, |s|);
      assert Next(i, |s|) == Ahead(home, p + 1, |s|);
      assert Chained(s, i);
    }
  }

  // ----- What the table stores

  lemma StoreFree<K, V>(s: seq<Entry<K, V>>, i: nat, e: Entry<K, V>)
    requires i < |s| && e.hash != 0
    ensures !Used(s, i) ==> Stored(s[i := e]) == Stored(s) + {e}
    ensures Used(s, i) ==> Stored(s[i := e]) + {s[i]} == Stored(s) + {e}
  {
    var t := s[i := e];
    assert t[i] == e && e in Stored(t);
    forall x | x in Stored(s) && x != s[i] ensures x in Stored(t) {
      var j: nat :| j < |s| && s[j].hash != 0 && s[j] == x;
      assert t[j] == x;
    }
    if Used(s, i) {
      assert s[i] in Stored(s);
    } else {
      forall x | x in Stored(s) ensures x in Stored(t) {
        var j: nat :| j < |s| && s[j].hash != 0 && s[j] == x;
        assert t[j] == x;
      }
    }
  }

  lemma OnePlace<K(!new), V>(ks: Keying<K>, s: seq<Entry<K, V>>, i: nat, j: nat)
    requires Lawful(ks) && Keyed(ks, s) && i < |s| && j < |s| && Used(s, i) && s[i] == s[j]
    ensures i == j
  {
    assert Used(s, j) && ks.equal(s[i].key, s[j].key);
  }

  lemma StoreDistinct<K(!new), V>(ks: Keying<K>, s: seq<Entry<K, V>>, i: nat, e: Entry<K, V>)
    requires Lawful(ks) && Keyed(ks, s) && i < |s| && Used(s, i) && e.hash != 0
    ensures Stored(s[i := e]) == Stored(s) - {s[i]} + {e}
  {
    StoreFree(s, i, e);
    var t := s[i := e];
    assert t[i] == e && e in Stored(t);
    forall x | x in Stored(t) && x != e ensures x != s[i] {
      var j: nat :| j < |t| && t[j].hash != 0 && t[j] == x;
      if x == s[i] {
        OnePlace(ks, s, i, j);
      }
    }
  }

  lemma Unstore<K(!new), V>(ks: Keying<K>, s: seq<Entry<K, V>>, i: nat)
    requires Lawful(ks) && Keyed(ks, s) && i < |s| && Used(s, i)
    ensures Stored(s[i := s[i].(hash := 0)]) == Stored(s) - {s[i]}
  {
    var t := s[i := s[i].(hash := 0)];
    forall x | x in Stored(s) && x != s[i] ensures x in Stored(t) {
      var j: nat :| j < |s| && s[j].hash != 0 && s[j] == x;
      assert t[j] == x;
    }
    forall x | x in Stored(t) ensures x != s[i] {
      var j: nat :| j < |t| && t[j].hash != 0 && t[j] == x;
      if x == s[i] {
        OnePlace(ks, s, i, j);
      }
    }
  }

  lemma StoredLast<K, V>(s: seq<Entry<K, V>>)
    requires |s| > 0
    ensures var n := |s| - 1;
            Stored(s) == Stored(s[..n]) + if Used(s, n) then {s[n]} else {}
  {
    var n := |s| - 1;
    var r := s[..n];
    forall x | x in Stored(r) ensures x in Stored(s) {
      var j: nat :| j < n && r[j].hash != 0 && r[j] == x;
      assert s[j] == x;
    }
    forall x | x in Stored(s) && !(Used(s, n) && x == s[n]) ensures x in Stored(r) {
      var j: nat :| j < |s| && s[j].hash != 0 && s[j] == x;
      assert r[j] == x;
    }
    if Used(s, n) {
      assert s[n] in Stored(s);
    }
  }

  lemma PrefixKeyed<K(!new), V>(ks: Keying<K>, s: seq<Entry<K, V>>)
    requires Lawful(ks) && Keyed(ks, s) && |s| > 0
    ensures var n := |s| - 1;
            Keyed(ks, s[..n]) && |Stored(s)| == |Stored(s[..n])| + if Used(s, n) then 1 else 0
  {
    var n := |s| - 1;
    var r := s[..n];
    assert forall i: nat | i < n :: r[i] == s[i] && Used(r, i) == Used(s, i);
    StoredLast(s);
    forall x | Used(s, n) && x in Stored(r) ensures x != s[n] {
      var j: nat :| j < n && r[j].hash != 0 && r[j] == x;
      assert Used(s, j) && !ks.equal(s[n].key, s[j].key);
    }
  }

  /** Distinct keys: the table holds one entry for each slot exactly when it is full. */
  lemma {:induction false} FullCount<K(!new), V>(ks: Keying<K>, s: seq<Entry<K, V>>)
    requires Lawful(ks) && Keyed(ks, s)
    ensures |Stored(s)| <= |s|
    ensures |Stored(s)| == |s| <==> forall i: nat | i < |s| :: Used(s, i)
  {
    if s == [] {
    } else {
      var r := s[..|s| - 1];
      PrefixKeyed(ks, s);
      FullCount(ks, r);
      assert forall i: nat | i < |r| :: Used(r, i) == Used(s, i);
    }
  }

  // ----- Insertion: entry c is carried to slot i, p steps from its home

  ghost predicate Carrying<K(!new), V>(ks: Keying<K>, s: seq<Entry<K, V>>, c: Entry<K, V>, i: nat, p: nat) {
    && Sound(ks, s) && i < |s|
    && c.hash == HashOf(ks, c.key)
    && p == ProbeCount(i, c.hash, |s|)
    && (p > 0 ==> Used(s, Prev(i, |s|)) && p <= Probe(s, Prev(i, |s|)) + 1)
  }

  /** Slot z is free and the carried entry has not gone past it. */
  ghost predicate FreeAhead<K, V>(s: seq<Entry<K, V>>, c: Entry<K, V>, p: nat, z: nat) {
    z < |s| && !Used(s, z) && p <= Dist(Home(c.hash, |s|), z, |s|)
  }

  lemma PlaceInFree<K(!new), V>(ks: Keying<K>, s: seq<Entry<K, V>>, c: Entry<K, V>, i: nat, p: nat)
    requires Carrying(ks, s, c, i, p) && Absent(ks, s, c.key) && !Used(s, i)
    ensures Sound(ks, s[i := c]) && Stored(s[i := c]) == Stored(s) + {c}
  {
    var t := s[i := c];
    assert forall j: nat | j < |s| && j != i :: Used(t, j) == Used(s, j);
    StoreFree(s, i, c);
    assert Chained(s, i);
    assert Stop(t, Next(i, |s|));
    forall j: nat | j < |t| ensures Chained(t, j) {
      assert Chained(s, j);
    }
  }

  lemma SwapWithRicher<K(!new), V>(ks: Keying<K>, s: seq<Entry<K, V>>, c: Entry<K, V>, i: nat, p: nat, z: nat)
    requires Carrying(ks, s, c, i, p) && Absent(ks, s, c.key) && FreeAhead(s, c, p, z)
    requires Used(s, i) && Probe(s, i) < p
    ensures var t, d := s[i := c], s[i];
            && Carrying(ks, t, d, i, Probe(s, i)) && Absent(ks, t, d.key)
            && FreeAhead(t, d, Probe(s, i), z) && Used(t, i) && Probe(t, i) == p
            && Stored(t) + {d} == Stored(s) + {c}
  {
    var t := s[i := c];
    assert forall j: nat | j < |s| && j != i :: Used(t, j) == Used(s, j);
    StoreFree(s, i, c);
    forall j: nat | j < |t| ensures Chained(t, j) {
      assert Chained(s, j);
    }
    assert Chained(s, Prev(i, |s|));
    assert Stop(t, z);
  }

  lemma CarryOn<K(!new), V>(ks: Keying<K>, s: seq<Entry<K, V>>, c: Entry<K, V>, i: nat, p: nat, z: nat)
    requires Carrying(ks, s, c, i, p) && FreeAhead(s, c, p, z)
    requires Used(s, i) && Probe(s, i) >= p
    ensures Carrying(ks, s, c, Next(i, |s|), p + 1) && FreeAhead(s, c, p + 1, z)
    ensures Dist(Next(i, |s|), z, |s|) < Dist(i, z, |s|)
  {
    assert Prev(Next(i, |s|), |s|) == i;
  }

  /** A carried key that is already stored reaches its slot before it displaces anything. */
  lemma NotYetAtDuplicate<K(!new), V>(ks: Keying<K>, s: seq<Entry<K, V>>, c: Entry<K, V>, i: nat, p: nat, t: nat)
    requires Carrying(ks, s, c, i, p)
    requires t < |s| && Used(s, t) && ks.equal(c.key, s[t].key) && p <= Probe(s, t)
    ensures Used(s, i) && Probe(s, i) >= p
    ensures i != t ==> p < Probe(s, t)
    ensures i == t <==> (s[i].hash == c.hash && ks.equal(c.key, s[i].key))
  {
    PathIsPoor(s, t, p);
    assert Ahead(Home(c.hash, |s|), p, |s|) == i;
    if ks.equal(c.key, s[i].key) {
      assert ks.equal(s[i].key, c.key) && ks.equal(s[i].key, s[t].key);
    }
  }

  /** The state of an insertion of c0 into s0: the slots are s and c is carried to slot i. */
  ghost predicate Inserting<K(!new), V>(
    ks: Keying<K>, s0: seq<Entry<K, V>>, c0: Entry<K, V>,
    s: seq<Entry<K, V>>, c: Entry<K, V>, i: nat, p: nat, z: nat)
  {
    && Carrying(ks, s, c, i, p) && FreeAhead(s, c, p, z)
    && (Absent(ks, s0, c0.key) ==> Absent(ks, s, c.key) && Stored(s) + {c} == Stored(s0) + {c0})
    && (!Absent(ks, s0, c0.key) ==>
          && s == s0 && c == c0
          && forall t: nat | t < |s| && Used(s, t) && ks.equal(c.key, s[t].key) :: p <= Probe(s, t))
  }

  lemma InsertionMeetsFree<K(!new), V>(
    ks: Keying<K>, s0: seq<Entry<K, V>>, c0: Entry<K, V>,
    s: seq<Entry<K, V>>, c: Entry<K, V>, i: nat, p: nat, z: nat)
    requires Inserting(ks, s0, c0, s, c, i, p, z) && !Used(s, i)
    ensures Absent(ks, s0, c0.key)
    ensures Sound(ks, s[i := c]) && Stored(s[i := c]) == Stored(s0) + {c0}
  {
    if !Absent(ks, s0, c0.key) {
      var t: nat :| t < |s| && Used(s, t) && ks.equal(c.key, s[t].key);
      NotYetAtDuplicate(ks, s, c, i, p, t);
    }
    PlaceInFree(ks, s, c, i, p);
  }

  /** The duplicate branch is only taken by the key the caller offered, before any swap. */
  lemma InsertionMeetsDuplicate<K(!new), V>(
    ks: Keying<K>, s0: seq<Entry<K, V>>, c0: Entry<K, V>,
    s: seq<Entry<K, V>>, c: Entry<K, V>, i: nat, p: nat, z: nat)
    requires Inserting(ks, s0, c0, s, c, i, p, z) && Used(s, i) && ks.equal(c.key, s[i].key)
    ensures !Absent(ks, s0, c0.key) && s == s0 && c == c0
  {
  }

  /** Passing a used slot with another key, swapping with its entry if that is richer. */
  lemma InsertionMeetsOther<K(!new), V>(
    ks: Keying<K>, s0: seq<Entry<K, V>>, c0: Entry<K, V>,
    s: seq<Entry<K, V>>, c: Entry<K, V>, i: nat, p: nat, z: nat)
    requires Inserting(ks, s0, c0, s, c, i, p, z) && Used(s, i)
    requires !(c.hash == s[i].hash && ks.equal(c.key, s[i].key))
    ensures var j := Next(i, |s|);
            && Dist(j, z, |s|) < Dist(i, z, |s|)
            && if Probe(s, i) < p
               then Inserting(ks, s0, c0, s[i := c], s[i], j, Probe(s, i) + 1, z)
               else Inserting(ks, s0, c0, s, c, j, p + 1, z)
  {
    if Absent(ks, s0, c0.key) {
      if Probe(s, i) < p {
        SwapWithRicher(ks, s, c, i, p, z);
        CarryOn(ks, s[i := c], s[i], i, Probe(s, i), z);
      } else {
        CarryOn(ks, s, c, i, p, z);
      }
    } else {
      forall t: nat | t < |s| && Used(s, t) && ks.equal(c.key, s[t].key)
        ensures p + 1 <= Probe(s, t) && Probe(s, i) >= p
      {
        NotYetAtDuplicate(ks, s, c, i, p, t);
      }
      var t: nat :| t < |s| && Used(s, t) && ks.equal(c.key, s[t].key);
      NotYetAtDuplicate(ks, s, c, i, p, t);
      CarryOn(ks, s, c, i, p, z);
    }
  }

  /** The state after passing such a slot. */
  lemma InsertionGoesOn<K(!new), V>(
    ks: Keying<K>, s0: seq<Entry<K, V>>, c0: Entry<K, V>,
    s: seq<Entry<K, V>>, c: Entry<K, V>, i: nat, p: nat, z: nat)
    returns (s': seq<Entry<K, V>>, c': Entry<K, V>, i': nat, p': nat)
    requires Inserting(ks, s0, c0, s, c, i, p, z) && Used(s, i)
    requires !(c.hash == s[i].hash && ks.equal(c.key, s[i].key))
    ensures Inserting(ks, s0, c0, s', c', i', p', z)
    ensures |s'| == |s| && i' == Next(i, |s|) && Dist(i', z, |s|) < Dist(i, z, |s|)
    ensures if Probe(s, i) < p
            then s' == s[i := c] && c' == s[i] && p' == Probe(s, i) + 1
            else s' == s && c' == c && p' == p + 1
  {
    InsertionMeetsOther(ks, s0, c0, s, c, i, p, z);
    i' := Next(i, |s|);
    if Probe(s, i) < p {
      s', c', p' := s[i := c], s[i], Probe(s, i) + 1;
    } else {
      s', c', p' := s, c, p + 1;
    }
  }

  // ----- Deletion: slot e is a hole, its last occupant b steps from home

  ghost predicate Hole<K, V>(s: seq<Entry<K, V>>, e: nat, b: nat) {
    && e < |s| && !Used(s, e)
    && (forall j: nat | j < |s| && j != e :: Chained(s, j))
    && (var n := Next(e, |s|); Stop(s, n) || Probe(s, n) <= b + 1)
    && (var q := Prev(e, |s|); q != e && b > 0 ==> Used(s, q) && b <= Probe(s, q) + 1)
  }

  lemma MakeHole<K(!new), V>(ks: Keying<K>, s: seq<Entry<K, V>>, e: nat)
    requires Sound(ks, s) && e < |s| && Used(s, e)
    ensures var t := s[e := s[e].(hash := 0)];
            Hole(t, e, Probe(s, e)) && Keyed(ks, t) && Stored(t) == Stored(s) - {s[e]}
  {
    var t := s[e := s[e].(hash := 0)];
    assert forall j: nat | j < |s| && j != e :: Used(t, j) == Used(s, j);
    Unstore(ks, s, e);
    assert Chained(s, e) && Chained(s, Prev(e, |s|));
    forall j: nat | j < |t| && j != e ensures Chained(t, j) {
      assert Chained(s, j);
    }
  }

  function Shifted<K, V>(s: seq<Entry<K, V>>, e: nat): seq<Entry<K, V>>
    requires e < |s|
  {
    var i := Next(e, |s|);
    s[e := s[i]][i := s[i].(hash := 0)]
  }

  /** Moving the entry after the hole back into it moves the hole one slot forward. */
  lemma ShiftBack<K, V>(s: seq<Entry<K, V>>, e: nat, b: nat)
    requires Hole(s, e, b) && !Stop(s, Next(e, |s|))
    ensures var i, t := Next(e, |s|), Shifted(s, e);
            Hole(t, i, Probe(s, i)) && Used(t, e) && Probe(t, e) + 1 == Probe(s, i) <= b + 1
  {
    var i, t := Next(e, |s|), Shifted(s, e);
    assert Prev(i, |s|) == e;
    assert Chained(s, i);
    forall j: nat | j < |t| && j != i ensures Chained(t, j) {
      assert j != e ==> Chained(s, j);
      assert Next(j, |s|) == e ==> j == Prev(e, |s|);
    }
  }

  lemma ShiftKeepsEntries<K(!new), V>(ks: Keying<K>, s: seq<Entry<K, V>>, e: nat)
    requires Keyed(ks, s) && e < |s| && !Used(s, e) && Used(s, Next(e, |s|))
    ensures Keyed(ks, Shifted(s, e)) && Stored(Shifted(s, e)) == Stored(s)
  {
    var i, t := Next(e, |s|), Shifted(s, e);
    assert forall j: nat | j < |s| && j != e && j != i :: Used(t, j) == Used(s, j);
    forall x | x in Stored(s) ensures x in Stored(t) {
      var j: nat :| j < |s| && s[j].hash != 0 && s[j] == x;
      assert t[if j == i then e else j] == x;
    }
  }

  lemma CloseHole<K(!new), V>(ks: Keying<K>, s: seq<Entry<K, V>>, e: nat, b: nat)
    requires Lawful(ks) && Hole(s, e, b) && Keyed(ks, s) && Stop(s, Next(e, |s|))
    ensures Sound(ks, s)
  {
    assert Stop(s, e);
    assert Chained(s, e);
  }

  /** The state of deleting slot index of s0: the slots, with slot e emptied, are s. The loop
      ends at w, a slot of s0 that is free or holds an entry at its home. If that is the deleted
      slot itself, the first entry moved into it takes over that part. */
  ghost predicate Deleting<K(!new), V>(
    ks: Keying<K>, s0: seq<Entry<K, V>>, index: nat, s: seq<Entry<K, V>>, e: nat, b: nat, w: nat)
  {
    && |s| == |s0| && index < |s| && Used(s0, index) && w < |s| && Lawful(ks)
    && Hole(s, e, b) && Keyed(ks, s) && Stored(s) == Stored(s0) - {s0[index]}
    && Dist(index, e, |s|) < StepsTo(index, w, |s|)
    && (if w == index && e == index then b == 0 else Stop(s, w))
  }

  function StepsTo(a: nat, b: nat, cap: nat): (d: nat)
    requires a < cap && b < cap
    ensures d > 0
  {
    if a == b then cap else Dist(a, b, cap)
  }

  lemma BeginDeletion<K(!new), V>(ks: Keying<K>, s: seq<Entry<K, V>>, index: nat) returns (w: nat)
    requires Sound(ks, s) && index < |s| && Used(s, index)
    ensures Deleting(ks, s, index, s[index := s[index].(hash := 0)], index, Probe(s, index), w)
  {
    MakeHole(ks, s, index);
    w :| w < |s| && Stop(s, w);
  }

  lemma DeletionShifts<K(!new), V>(
    ks: Keying<K>, s0: seq<Entry<K, V>>, index: nat, s: seq<Entry<K, V>>, e: nat, b: nat, w: nat)
    requires Deleting(ks, s0, index, s, e, b, w) && !Stop(s, Next(e, |s|))
    ensures var i := Next(e, |s|);
            && Deleting(ks, s0, index, Shifted(s, e), i, Probe(s, i), w)
            && Dist(index, i, |s|) == Dist(index, e, |s|) + 1
  {
    var i := Next(e, |s|);
    var t := Shifted(s, e);
    ShiftBack(s, e, b);
    ShiftKeepsEntries(ks, s, e);
    assert i != w by {
      assert w == index == e || Stop(s, w);
    }
    StepTowards(index, e, w, |s|);
    if w == e {
      assert Probe(t, e) == 0;
    } else {
      assert t[w] == s[w] && Stop(t, w) == Stop(s, w);
    }
  }

  lemma StepTowards(a: nat, e: nat, w: nat, cap: nat)
    requires a < cap && e < cap && w < cap && Dist(a, e, cap) < StepsTo(a, w, cap) && Next(e, cap) != w
    ensures Dist(a, Next(e, cap), cap) == Dist(a, e, cap) + 1 < StepsTo(a, w, cap)
  {
  }

  /** The slots with slot e emptied, whatever stale entry it still holds. */
  function Emptied<K, V>(a: seq<Entry<K, V>>, e: nat): seq<Entry<K, V>>
    requires e < |a|
  {
    a[e := a[e].(hash := 0)]
  }

  /** One pass of the shift loop, on slots where slot e still holds a stale entry. */
  lemma DeletionGoesOn<K(!new), V>(
    ks: Keying<K>, s0: seq<Entry<K, V>>, index: nat, a: seq<Entry<K, V>>, e: nat, b: nat, w: nat)
    returns (a': seq<Entry<K, V>>, e': nat, b': nat)
    requires e < |a| && Deleting(ks, s0, index, Emptied(a, e), e, b, w)
    requires var i := Next(e, |a|); !Stop(a, i) && (i == e ==> !Used(a, e))
    ensures e' == Next(e, |a|) && e' != e && a' == a[e := a[e']]
    ensures Deleting(ks, s0, index, Emptied(a', e'), e', b', w)
    ensures Dist(index, e', |a|) == Dist(index, e, |a|) + 1
  {
    var s := Emptied(a, e);
    e' := Next(e, |a|);
    assert s[e'] == a[e'];
    DeletionShifts(ks, s0, index, s, e, b, w);
    a', b' := a[e := a[e']], Probe(a, e');
    assert Emptied(a', e') == Shifted(s, e);
  }

  lemma DeletionEnds<K(!new), V>(
    ks: Keying<K>, s0: seq<Entry<K, V>>, index: nat, a: seq<Entry<K, V>>, e: nat, b: nat, w: nat)
    requires e < |a| && Deleting(ks, s0, index, Emptied(a, e), e, b, w)
    requires Stop(a, Next(e, |a|))
    ensures Sound(ks, Emptied(a, e)) && Stored(Emptied(a, e)) == Stored(s0) - {s0[index]}
  {
    var i, s := Next(e, |a|), Emptied(a, e);
    assert i != e ==> s[i] == a[i];
    CloseHole(ks, s, e, b);
  }

  // ----- Lookup: slot i, p steps from the home of the key, is about to be inspected

  ghost predicate Searching<K(!new), V>(ks: Keying<K>, s: seq<Entry<K, V>>, key: K, i: nat, p: nat) {
    && Sound(ks, s) && i < |s| && p <= |s|
    && (var home := Home(HashOf(ks, key), |s|);
        && i == (if p == |s| then home else Ahead(home, p, |s|))
        && (forall t: nat | t < |s| && Used(s, t) && ks.equal(key, s[t].key) :: p <= Probe(s, t))
        && (forall w: nat | w < |s| && Stop(s, w) :: p <= Dist(home, w, |s|) || (w == home && Used(s, w))))
  }

  lemma SearchEnds<K(!new), V>(ks: Keying<K>, s: seq<Entry<K, V>>, key: K, i: nat, p: nat)
    requires Searching(ks, s, key, i, p) && (!Used(s, i) || Probe(s, i) < p)
    ensures Absent(ks, s, key)
  {
    forall t: nat | t < |s| && Used(s, t) ensures !ks.equal(key, s[t].key) {
      if ks.equal(key, s[t].key) {
        PathIsPoor(s, t, p);
      }
    }
  }

  lemma SearchGoesOn<K(!new), V>(ks: Keying<K>, s: seq<Entry<K, V>>, key: K, i: nat, p: nat)
    requires Searching(ks, s, key, i, p) && Used(s, i) && Probe(s, i) >= p
    requires !(HashOf(ks, key) == s[i].hash && ks.equal(key, s[i].key))
    ensures p < |s| && Searching(ks, s, key, Next(i, |s|), p + 1)
  {
  }

  // ----- Replacing a value in place

  /** The slots with the entry in slot i taken up with an offered value. */
  function Merged<K, V>(s: seq<Entry<K, V>>, i: nat, cb: Option<(V, V) -> (bool, V)>, value: V): seq<Entry<K, V>>
    requires i < |s|
  {
    match cb
    case None => s
    case Some(f) => s[i := s[i].(value := f(s[i].value, value).1)]
  }

  /** What the insertion then reports. */
  function Verdict<K, V>(s: seq<Entry<K, V>>, i: nat, cb: Option<(V, V) -> (bool, V)>, value: V): bool
    requires i < |s|
  {
    cb.Some? && cb.value(s[i].value, value).0
  }

  function MergeCalls<K, V>(s: seq<Entry<K, V>>, i: nat, cb: Option<(V, V) -> (bool, V)>, value: V): seq<(V, V)>
    requires i < |s|
  {
    if cb.Some? then [(s[i].value, value)] else []
  }

  lemma SetValue<K(!new), V>(ks: Keying<K>, s: seq<Entry<K, V>>, i: nat, v: V)
    requires Sound(ks, s) && i < |s| && Used(s, i)
    ensures var t := s[i := s[i].(value := v)];
            Sound(ks, t) && Stored(t) == Stored(s) - {s[i]} + {s[i].(value := v)}
  {
    var t := s[i := s[i].(value := v)];
    assert forall j: nat | j < |s| :: Used(t, j) == Used(s, j);
    StoreDistinct(ks, s, i, s[i].(value := v));
    forall j: nat | j < |t| ensures Chained(t, j) && Stop(t, j) == Stop(s, j) {
      assert Chained(s, j);
    }
  }

  lemma FreshSound<K(!new), V>(ks: Keying<K>, s: seq<Entry<K, V>>)
    requires Lawful(ks) && |s| > 0 && forall i: nat | i < |s| :: !Used(s, i)
    ensures Sound(ks, s) && Stored(s) == {}
  {
    assert Stop(s, 0);
    assert forall i: nat | i < |s| :: Used(s, i) == (s[i].hash != 0);
  }

  // ----- Re-inserting the entries of s one after the other

  lemma PrefixSound<K(!new), V>(ks: Keying<K>, s: seq<Entry<K, V>>, i: nat)
    requires Lawful(ks) && Keyed(ks, s) && i <= |s|
    ensures Keyed(ks, s[..i]) && |Stored(s[..i])| <= i
  {
    var r := s[..i];
    assert forall j: nat | j < i :: r[j] == s[j] && Used(r, j) == Used(s, j);
    FullCount(ks, r);
  }

  lemma Reinserting<K(!new), V>(ks: Keying<K>, s: seq<Entry<K, V>>, i: nat)
    requires Lawful(ks) && Keyed(ks, s) && i < |s|
    ensures Stored(s[..i + 1]) == Stored(s[..i]) + if Used(s, i) then {s[i]} else {}
    ensures Used(s, i) ==> Absent(ks, s[..i], s[i].key)
  {
    StoredLast(s[..i + 1]);
    assert s[..i + 1][..i] == s[..i];
    assert forall j: nat | j < i :: Used(s[..i], j) == Used(s, j);
  }
}
