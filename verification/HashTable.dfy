/** The type-generic hash table of src/include/a3/ht.h, with its probe, swap and shift loops
    over one slot array. */
module HashTable {
  import opened Wrappers
  import opened RobinHood
  import TM = TableModel
  import TR = TableRuns

  class HashTable<K(!new), V> {
    const keying: Keying<K>
    const zero: Entry<K, V>  // what calloc leaves in a slot
    var canGrow: bool
    var size: nat
    var cap: nat
    var duplicateCb: Option<TM.DuplicateCallback<V>>
    var entries: array<Entry<K, V>>
    ghost var dupLog: seq<(V, V)>  // the calls of duplicateCb, in order

    ghost predicate Intact()
      reads this`cap, this`entries, entries
    {
      cap == entries.Length && zero.hash == 0 && Sound(keying, entries[..])
    }

    ghost predicate Valid()
      reads this, entries
    {
      Intact() && |Stored(entries[..])| <= size <= cap
    }

    ghost function Contents(): set<Entry<K, V>>
      reads this`entries, entries
    {
      Stored(entries[..])
    }

    ghost function Model(): TM.Table<K, V>
      reads this, entries
    {
      TM.Table(Contents(), size, cap, canGrow)
    }

    ghost predicate HasFreeSlot()
      reads this`entries, entries
    {
      exists z: nat :: z < entries.Length && !Used(entries[..], z)
    }

    constructor (keying: Keying<K>, zero: Entry<K, V>, canGrow: bool)
      requires Lawful(keying) && zero.hash == 0
      ensures Valid() && fresh(entries) && this.keying == keying
      ensures Model() == TM.Table({}, 0, TM.INITIAL_CAP, canGrow) && duplicateCb == None && dupLog == []
    {
      this.keying, this.zero, this.canGrow := keying, zero, canGrow;
      size, cap, duplicateCb, dupLog := 0, TM.INITIAL_CAP, None, [];
      entries := new Entry<K, V>[TM.INITIAL_CAP](_ => zero);
      new;
      FreshSound(keying, entries[..]);
    }

    /** The branch of A3_HT_INSERT_AT for an entry with the key that is being inserted. */
    method MeetDuplicate(i: nat, value: V) returns (r: bool)
      requires Intact() && i < cap && Used(entries[..], i)
      modifies this`dupLog, entries
      ensures Intact() && entries[..] == Merged(old(entries[..]), i, duplicateCb, value)
      ensures r == Verdict(old(entries[..]), i, duplicateCb, value)
      ensures dupLog == old(dupLog) + MergeCalls(old(entries[..]), i, duplicateCb, value)
    {
      if duplicateCb.None? {
        return false;
      }
      ghost var s := entries[..];
      var current := entries[i];
      var (verdict, kept) := duplicateCb.value(current.value, value);
      SetValue(keying, s, i, kept);
      entries[i] := current.(value := kept);
      dupLog := dupLog + [(current.value, value)];
      assert entries[..] == s[i := current.(value := kept)];
      return verdict;
    }

    /** A new key is added, wherever entries move; for a stored one nothing changes but its value. */
    method InsertAt(hash0: nat, key0: K, value0: V) returns (r: bool)
      requires Intact() && HasFreeSlot() && hash0 == HashOf(keying, key0)
      modifies this`dupLog, entries
      ensures Intact()
      ensures Absent(keying, old(entries[..]), key0) ==>
                r && Contents() == old(Contents()) + {Entry(key0, value0, hash0)} && dupLog == old(dupLog)
      ensures forall t: nat | t < cap && HoldsKey(keying, old(entries[..]), t, key0) ::
                && entries[..] == Merged(old(entries[..]), t, duplicateCb, value0)
                && r == Verdict(old(entries[..]), t, duplicateCb, value0)
                && dupLog == old(dupLog) + MergeCalls(old(entries[..]), t, duplicateCb, value0)
    {
      ghost var s0 := entries[..];
      ghost var c0 := Entry(key0, value0, hash0);
      ghost var z: nat :| z < |s0| && !Used(s0, z);
      var key, value, hash: nat := key0, value0, hash0;
      var i: nat, probeCount: nat := hash % cap, 0;
      ghost var s, c, j, p := s0, c0, i, probeCount;
      assert Inserting(keying, s0, c0, s, c, j, p, z);
      while true
        invariant Inserting(keying, s0, c0, s, c, j, p, z)
        invariant entries[..] == s && dupLog == old(dupLog) && |s| == cap
        invariant c == Entry(key, value, hash) && i == j && probeCount == p
        decreases Dist(j, z, |s|)
      {
        var current := entries[i];
        assert current == s[j];
        if current.hash == 0 {
          InsertionMeetsFree(keying, s0, c0, s, c, j, p, z);
          entries[i] := Entry(key, value, hash);
          assert entries[..] == s[j := c];
          return true;
        }
        assert Used(s, j);
        if hash == current.hash && keying.equal(key, current.key) {
          InsertionMeetsDuplicate(keying, s0, c0, s, c, j, p, z);
          OnlySlot(keying, s0, key0, j);
          r := MeetDuplicate(i, value);
          return r;
        }
        s, c, j, p := InsertionGoesOn(keying, s0, c0, s, c, j, p, z);
        if ProbeCount(i, current.hash, cap) < probeCount {
          entries[i] := Entry(key, value, hash);
          key, value, hash := current.key, current.value, current.hash;
          probeCount := ProbeCount(i, hash, cap);
        }
        i, probeCount := Next(i, cap), probeCount + 1;
      }
    }

    /** The slot of a key, or -1. The loop inspects at most cap + 1 slots. */
    method FindIndex(key: K) returns (r: int, ghost inspected: nat)
      requires Intact()
      ensures -1 <= r < cap && inspected <= cap + 1
      ensures r == -1 <==> Absent(keying, entries[..], key)
      ensures r >= 0 ==> entries[r].hash != 0 && keying.equal(key, entries[r].key)
    {
      ghost var s := entries[..];
      var hash: nat := HashOf(keying, key);
      var i: nat, probeCount: nat := hash % cap, 0;
      inspected := 1;
      while true
        invariant Searching(keying, s, key, i, probeCount) && inspected == probeCount + 1
        decreases cap - probeCount
      {
        var current := entries[i];
        if current.hash == 0 || ProbeCount(i, current.hash, cap) < probeCount {
          SearchEnds(keying, s, key, i, probeCount);
          return -1, inspected;
        }
        if hash == current.hash && keying.equal(key, current.key) {
          assert Used(s, i);
          return i, inspected;
        }
        SearchGoesOn(keying, s, key, i, probeCount);
        i, probeCount := Next(i, cap), probeCount + 1;
        inspected := inspected + 1;
      }
    }

    /** The pointer to the value of a key, as the slot it points into. */
    method Find(key: K) returns (r: Option<nat>)
      requires Intact()
      ensures match r
              case None => TM.Lookup(keying, Contents(), key) == None
              case Some(i) =>
                i < cap && Used(entries[..], i) && TM.Lookup(keying, Contents(), key) == Some(entries[i])
    {
      ContentsLookup(keying, entries[..], key);
      var i, _ := FindIndex(key);
      if i < 0 {
        return None;
      }
      assert Used(entries[..], i);
      return Some(i);
    }

    /** What a caller may do with that pointer: the key now has the written value, and no slot
        but that one changes. */
    method WriteValue(i: nat, value: V)
      requires Intact() && i < cap && Used(entries[..], i)
      modifies entries
      ensures Intact() && entries[..] == old(entries[..])[i := old(entries[i]).(value := value)]
      ensures Contents() == old(Contents()) - {old(entries[i])} + {old(entries[i]).(value := value)}
      ensures |Contents()| == |old(Contents())|
    {
      SetValue(keying, entries[..], i, value);
      ContentsIsMap(keying, entries[..]);
      assert entries[i] in Contents();
      TM.SetValueCount(keying, Contents(), entries[i], value);
      ghost var s := entries[..];
      entries[i] := entries[i].(value := value);
      assert entries[..] == s[i := s[i].(value := value)];
    }

    /** The body of the shift loop: the entry in slot i also goes to slot e. */
    method MoveBack(e: nat, i: nat)
      requires e < entries.Length && i < entries.Length && e != i
      modifies entries
      ensures entries[..] == old(entries[..])[e := old(entries[i])]
    {
      entries[e] := entries[e].(hash := 0);
      entries[e] := entries[i];
    }

    method DeleteIndex(index: nat) returns (r: bool)
      requires Intact() && index < cap && entries[index].hash != 0 && size > 0
      modifies this`size, entries
      ensures Intact() && r && size == old(size) - 1
      ensures Contents() == old(Contents()) - {old(entries[index])}
    {
      ghost var s0 := entries[..];
      ghost var w := BeginDeletion(keying, s0, index);
      var e := index;
      entries[e] := entries[e].(hash := 0);
      size := size - 1;
      var i := Next(index, cap);
      ghost var a, d: nat, b: nat := Emptied(s0, e), index, Probe(s0, index);
      assert entries[..] == a == Emptied(a, e);
      while entries[i].hash != 0 && ProbeCount(i, entries[i].hash, cap) != 0
        invariant d < |a| && Deleting(keying, s0, index, Emptied(a, d), d, b, w)
        invariant entries[..] == a && |a| == cap && size == old(size) - 1
        invariant e == d && i == Next(d, |a|) && (i == e ==> !Used(a, d))
        decreases cap - Dist(index, d, |a|)
      {
        a, d, b := DeletionGoesOn(keying, s0, index, a, d, b, w);
        MoveBack(e, i);
        e := i;
        i := Next(i, cap);
      }
      DeletionEnds(keying, s0, index, a, d, b, w);
      entries[e] := entries[e].(hash := 0);
      assert entries[..] == Emptied(a, d);
      return true;
    }

    method Delete(key: K) returns (r: bool)
      requires Valid()
      modifies this`size, entries
      ensures Valid()
      ensures TM.Valid(keying, old(Model()))
      ensures Model() == TM.Delete(keying, old(Model()), key).0
      ensures r == TM.Delete(keying, old(Model()), key).1
    {
      ContentsIsMap(keying, entries[..]);
      ContentsLookup(keying, entries[..], key);
      var i, _ := FindIndex(key);
      if i < 0 {
        return false;
      }
      assert Used(entries[..], i) && entries[i] in Contents();
      TM.RemoveOne(Contents(), entries[i]);
      r := DeleteIndex(i);
    }

    lemma FreeSlotExists()
      requires Intact() && |Contents()| < cap
      ensures HasFreeSlot()
    {
      FullCount(keying, entries[..]);
    }

    lemma PutFits(key: K, value: V)
      requires Intact()
      ensures |TM.Put(keying, Contents(), duplicateCb, key, value).0| <= |Contents()| + 1
    {
      ContentsIsMap(keying, entries[..]);
      TM.PutCount(keying, Contents(), duplicateCb, key, value);
    }

    method Resize(newCap: nat)
      requires Intact() && newCap > cap
      modifies this`cap, this`entries, this`dupLog
      ensures Intact() && fresh(entries) && cap == newCap
      ensures Contents() == old(Contents()) && dupLog == old(dupLog)
    {
      var prevEntries, prevCap := entries, cap;
      ghost var prev := prevEntries[..];
      cap := newCap;
      entries := new Entry<K, V>[newCap](_ => zero);
      FreshSound(keying, entries[..]);
      for i := 0 to prevCap
        invariant fresh(entries) && prevEntries[..] == prev
        invariant Intact() && cap == newCap && dupLog == old(dupLog)
        invariant Contents() == Stored(prev[..i])
      {
        PrefixSound(keying, prev, i);
        Reinserting(keying, prev, i);
        var current := prevEntries[i];
        if current.hash != 0 {
          assert Used(prev, i);
          ContentsLookup(keying, prev[..i], current.key);
          FreeSlotExists();
          var _ := InsertAt(current.hash, current.key, current.value);
        }
      }
      assert prev[..prevCap] == prev;
    }

    method Grow() returns (r: bool)
      requires Intact()
      modifies this`cap, this`entries, this`dupLog
      ensures Intact() && r == canGrow && (if r then fresh(entries) else entries == old(entries))
      ensures cap == if r then old(cap) * 2 else old(cap)
      ensures Contents() == old(Contents()) && dupLog == old(dupLog)
    {
      if !canGrow {
        return false;
      }
      Resize(cap * 2);
      return true;
    }

    /** The admission test that opens A3_HT_INSERT. */
    method Admit() returns (ok: bool)
      requires Valid()
      modifies this`cap, this`entries, this`dupLog
      ensures Valid() && ok == !TM.Refuses(old(Model())) && (ok ==> size < cap)
      ensures entries == old(entries) || (ok && canGrow && fresh(entries))
      ensures Model() == old(Model()).(cap := if ok then TM.RoomyCap(old(Model())) else old(cap))
      ensures dupLog == old(dupLog)
    {
      if size * 100 >= cap * TM.LOAD_FACTOR {
        var grown := Grow();
        if !grown && size >= cap {
          return false;
        }
      }
      return true;
    }

    /** What A3_HT_INSERT does once it has admitted the pair. */
    method CountAndPut(key: K, value: V) returns (r: bool)
      requires Valid() && size < cap
      modifies this`size, this`dupLog, entries
      ensures Valid() && size == old(size) + 1
      ensures Contents() == TM.Put(keying, old(Contents()), duplicateCb, key, value).0
      ensures r == TM.Put(keying, old(Contents()), duplicateCb, key, value).1
      ensures dupLog == old(dupLog) + TM.PutCalls(keying, old(Contents()), duplicateCb, key, value)
      ensures forall t: nat | t < cap && HoldsKey(keying, old(entries[..]), t, key) ::
                entries[..] == Merged(old(entries[..]), t, duplicateCb, value)
    {
      PutBySlots(keying, entries[..], duplicateCb, key, value);
      size := size + 1;
      PutFits(key, value);
      FreeSlotExists();
      r := InsertAt(HashOf(keying, key), key, value);
    }

    method Insert(key: K, value: V) returns (r: bool)
      requires Valid()
      modifies this`size, this`cap, this`entries, this`dupLog, entries
      ensures Valid() && (entries == old(entries) || (canGrow && fresh(entries)))
      ensures TM.Refuses(old(Model())) ==> entries[..] == old(entries[..])
      ensures Model() == TM.Insert(keying, duplicateCb, old(Model()), key, value).0
      ensures r == TM.Insert(keying, duplicateCb, old(Model()), key, value).1
      ensures dupLog == old(dupLog) + TM.InsertCalls(keying, duplicateCb, old(Model()), key, value)
      ensures entries == old(entries) && !TM.Refuses(old(Model())) ==>
                forall t: nat | t < cap && HoldsKey(keying, old(entries[..]), t, key) ::
                  entries[..] == Merged(old(entries[..]), t, duplicateCb, value)
    {
      var ok := Admit();
      if !ok {
        return false;
      }
      r := CountAndPut(key, value);
    }

    lemma InsertNewKey(key: K, value: V)
      requires Valid() && !canGrow && TM.Lookup(keying, Contents(), key) == None
      ensures TM.Refuses(Model()) <==> size == cap
      ensures var r, e := TM.Insert(keying, duplicateCb, Model(), key, value), Entry(key, value, HashOf(keying, key));
              && r.1 == (size < cap) && r.0.cap == cap
              && r.0.size == (if r.1 then size + 1 else size)
              && r.0.stored == (if r.1 then Contents() + {e} else Contents())
              && |Contents() + {e}| == |Contents()| + 1
    {
      ContentsIsMap(keying, entries[..]);
      TM.InsertNew(keying, duplicateCb, Model(), key, value);
    }

    lemma InsertPresentKey(key: K, value: V)
      requires Valid() && !canGrow && duplicateCb == None && TM.Lookup(keying, Contents(), key).Some?
      ensures TM.Refuses(Model()) <==> size == cap
      ensures var r := TM.Insert(keying, duplicateCb, Model(), key, value);
              && !r.1 && r.0.cap == cap && r.0.size == (if size < cap then size + 1 else size)
      ensures exists t: nat :: t < |entries[..]| && HoldsKey(keying, entries[..], t, key)
    {
      ContentsLookup(keying, entries[..], key);
      var t: nat :| t < entries.Length && Used(entries[..], t) && keying.equal(key, entries[t].key);
      assert HoldsKey(keying, entries[..], t, key);
    }

    lemma FindsStored(key: K, e: Entry<K, V>)
      requires Intact() && e in Contents() && keying.equal(key, e.key)
      ensures TM.Lookup(keying, Contents(), key) == Some(e)
    {
      ContentsIsMap(keying, entries[..]);
      TM.LookupIs(keying, Contents(), key, e);
    }

    method SetDuplicateCb(cb: Option<TM.DuplicateCallback<V>>)
      modifies this`duplicateCb
      ensures duplicateCb == cb
    {
      duplicateCb := cb;
    }

    /** The first used slot from index on, or -1. */
    method NextEntry(index: nat) returns (r: int)
      requires Intact()
      ensures -1 <= r < cap
      ensures r == -1 ==> forall i: nat | index <= i < cap :: entries[i].hash == 0
      ensures r >= 0 ==> index <= r && entries[r].hash != 0 && forall i: nat | index <= i < r :: entries[i].hash == 0
    {
      var i := index;
      while i < cap
        invariant index <= i && (i <= cap || i == index)
        invariant forall j: nat | index <= j < i :: j < cap ==> entries[j].hash == 0
      {
        if entries[i].hash != 0 {
          return i;
        }
        i := i + 1;
      }
      return -1;
    }

    /** Visiting every entry, as A3_HT_FOR_EACH does. */
    method ForEach() returns (visited: seq<Entry<K, V>>)
      requires Intact()
      ensures multiset(visited) == multiset(Contents())
    {
      ghost var s := entries[..];
      visited := [];
      var i := NextEntry(0);
      ghost var next: nat := if i < 0 then cap else i;
      SkipFree(s, 0, next);
      while i >= 0
        invariant -1 <= i < cap && next <= cap && next == (if i < 0 then cap else i)
        invariant i >= 0 ==> entries[i].hash != 0
        invariant multiset(visited) == multiset(Stored(s[..next]))
        decreases cap - next
      {
        PrefixSound(keying, s, i);
        Reinserting(keying, s, i);
        assert Used(s, i);
        ContentsLookup(keying, s[..i], s[i].key);
        NotStored(keying, s[..i], s[i]);
        visited := visited + [entries[i]];
        ghost var from := i + 1;
        i := NextEntry(i + 1);
        next := if i < 0 then cap else i;
        SkipFree(s, from, next);
      }
      assert s[..cap] == s;
    }

    /** Any sequence of operations on the table itself is the run of its model. */
    method Perform(ops: seq<TR.Op<K, V>>) returns (outcomes: seq<TR.Outcome<V>>)
      requires Valid()
      modifies this`size, this`cap, this`entries, this`dupLog, entries
      ensures Valid() && (entries == old(entries) || fresh(entries))
      ensures TM.Valid(keying, old(Model()))
      ensures Model() == TR.Run(keying, duplicateCb, old(Model()), ops)
      ensures outcomes == TR.Outcomes(keying, duplicateCb, old(Model()), ops)
      decreases |ops|
    {
      ContentsIsMap(keying, entries[..]);
      if ops == [] {
        return [];
      }
      var first: TR.Outcome<V>;
      ghost var m := Model();
      match ops[0] {
        case InsertOp(key, value) =>
          var r := Insert(key, value);
          first := TR.Flag(r);
        case FindOp(key) =>
          var r := Find(key);
          first := TR.Found(if r.Some? then Some(entries[r.value].value) else None);
        case DeleteOp(key) =>
          var r := Delete(key);
          first := TR.Flag(r);
      }
      assert Model() == TR.Step(keying, duplicateCb, m, ops[0]).0;
      assert first == TR.Step(keying, duplicateCb, m, ops[0]).1;
      var rest := Perform(ops[1..]);
      outcomes := [first] + rest;
    }
  }

  lemma NotStored<K(!new), V>(ks: Keying<K>, s: seq<Entry<K, V>>, e: Entry<K, V>)
    requires Lawful(ks) && Absent(ks, s, e.key)
    ensures e !in Stored(s)
  {
    forall x | x in Stored(s) ensures x != e {
      var i: nat :| i < |s| && s[i].hash != 0 && s[i] == x;
      assert Used(s, i);
    }
  }

  lemma SkipFree<K, V>(s: seq<Entry<K, V>>, i: nat, j: nat)
    requires i <= j <= |s| && forall k: nat | i <= k < j :: s[k].hash == 0
    ensures Stored(s[..i]) == Stored(s[..j])
    decreases j - i
  {
    if i == j {
    } else {
      SkipFree(s, i, j - 1);
      StoredLast(s[..j]);
      assert s[..j][..j - 1] == s[..j - 1];
    }
  }

  lemma ContentsIsMap<K(!new), V>(ks: Keying<K>, s: seq<Entry<K, V>>)
    requires Lawful(ks) && Keyed(ks, s)
    ensures TM.IsMap(ks, Stored(s))
  {
    forall e, f | e in Stored(s) && f in Stored(s) && ks.equal(e.key, f.key) ensures e == f {
      var i: nat :| i < |s| && s[i].hash != 0 && s[i] == e;
      var j: nat :| j < |s| && s[j].hash != 0 && s[j] == f;
      assert Used(s, i) && Used(s, j);
    }
    forall e | e in Stored(s) ensures e.hash == HashOf(ks, e.key) {
      var i: nat :| i < |s| && s[i].hash != 0 && s[i] == e;
      assert Used(s, i);
    }
  }

  lemma OnlySlot<K(!new), V>(ks: Keying<K>, s: seq<Entry<K, V>>, key: K, i: nat)
    requires Lawful(ks) && Keyed(ks, s) && i < |s| && HoldsKey(ks, s, i, key)
    ensures !Absent(ks, s, key)
    ensures forall t: nat | t < |s| && HoldsKey(ks, s, t, key) :: t == i
  {
    forall t: nat | t < |s| && HoldsKey(ks, s, t, key) ensures t == i {
      assert ks.equal(s[t].key, key) && ks.equal(s[t].key, s[i].key);
    }
  }

  /** Placing a pair in the set of entries, from what it does to the slots. */
  lemma PutBySlots<K(!new), V>(ks: Keying<K>, s: seq<Entry<K, V>>, cb: Option<TM.DuplicateCallback<V>>,
                               key: K, value: V)
    requires Sound(ks, s)
    ensures var put, calls := TM.Put(ks, Stored(s), cb, key, value), TM.PutCalls(ks, Stored(s), cb, key, value);
            && (Absent(ks, s, key) ==>
                  put.0 == Stored(s) + {Entry(key, value, HashOf(ks, key))} && put.1 && calls == [])
            && (!Absent(ks, s, key) ==>
                  exists t: nat :: t < |s| && HoldsKey(ks, s, t, key)
                    && put.0 == Stored(Merged(s, t, cb, value)) && put.1 == Verdict(s, t, cb, value)
                    && calls == MergeCalls(s, t, cb, value))
  {
    ContentsLookup(ks, s, key);
    if !Absent(ks, s, key) {
      var t: nat :| t < |s| && Used(s, t) && ks.equal(key, s[t].key);
      assert HoldsKey(ks, s, t, key);
      if cb.Some? {
        SetValue(ks, s, t, cb.value(s[t].value, value).1);
      }
    }
  }

  /** Looking a key up in the stored entries is searching the slots for it. */
  lemma ContentsLookup<K(!new), V>(ks: Keying<K>, s: seq<Entry<K, V>>, key: K)
    requires Lawful(ks) && Keyed(ks, s)
    ensures Absent(ks, s, key) <==> TM.Lookup(ks, Stored(s), key) == None
    ensures forall t: nat | t < |s| && Used(s, t) && ks.equal(key, s[t].key) ::
              TM.Lookup(ks, Stored(s), key) == Some(s[t])
  {
    ContentsIsMap(ks, s);
    forall t: nat | t < |s| && Used(s, t) && ks.equal(key, s[t].key)
      ensures TM.Lookup(ks, Stored(s), key) == Some(s[t])
    {
      assert s[t] in Stored(s);
      TM.LookupIs(ks, Stored(s), key, s[t]);
    }
    if TM.Lookup(ks, Stored(s), key).Some? {
      var e := TM.Lookup(ks, Stored(s), key).value;
      var t: nat :| t < |s| && s[t].hash != 0 && s[t] == e;
      assert Used(s, t);
    }
  }
}
