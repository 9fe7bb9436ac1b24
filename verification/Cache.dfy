/** The pseudo-LRU cache of src/include/a3/cache.h: a table that may not grow, and a bitmap of
    recently used slots that decides which entry makes room. */
module Cache {
  import opened Wrappers
  import opened Bits
  import opened RobinHood
  import HT = HashTable
  import TM = TableModel
  import TR = TableRuns

  const PER_BLOCK: nat := WORD_BITS
  const BLOCK_FULL: nat := WORD - 1

  /** No block of the bitmap is all ones: every block has an unaccessed slot. */
  predicate HasRoom(acc: seq<nat>) {
    forall b | 0 <= b < |acc| :: acc[b] < BLOCK_FULL
  }

  predicate NoMarks(acc: seq<nat>) {
    forall b | 0 <= b < |acc| :: acc[b] == 0
  }

  predicate IsAccessed(acc: seq<nat>, i: nat)
    requires i < |acc| * PER_BLOCK
  {
    Bit(acc[i / PER_BLOCK], i % PER_BLOCK)
  }

  /** Mark slot i; a block about to be filled forgets its other marks. */
  function MarkAccess(acc: seq<nat>, i: nat): seq<nat>
    requires i < |acc| * PER_BLOCK
  {
    var b, bit := i / PER_BLOCK, Pow2(i % PER_BLOCK);
    acc[b := if Or(acc[b], bit) == BLOCK_FULL then Or(0, bit) else Or(acc[b], bit)]
  }

  /** All bits of a block but k are set. */
  predicate OthersSet(word: nat, k: nat) {
    forall j: nat | j < PER_BLOCK && j != k :: Bit(word, j)
  }

  lemma SetBit(word: nat, k: nat, j: nat)
    requires OthersSet(word, k) && j < PER_BLOCK && j != k
    ensures Bit(word, j)
  {
  }

  /** Whether marking bit k would fill the block: exactly if all its other bits are set. */
  lemma FillsExactly(word: nat, k: nat)
    requires word < BLOCK_FULL && k < PER_BLOCK
    ensures Or(word, Pow2(k)) <= BLOCK_FULL && Pow2(k) < BLOCK_FULL
    ensures Or(word, Pow2(k)) == BLOCK_FULL <==> OthersSet(word, k)
  {
    var bit, marked := Pow2(k), Or(word, Pow2(k));
    WordIsPow2();
    Pow2Monotone(k, PER_BLOCK - 1);
    OrBound(word, bit, PER_BLOCK);
    if marked == BLOCK_FULL {
      forall j: nat | j < PER_BLOCK && j != k ensures Bit(word, j) {
        OnesBit(PER_BLOCK, j);
        OrBit(word, bit, j);
        Pow2Bit(k, j);
      }
    } else {
      var missing := MissingBit(marked, PER_BLOCK);
      OrBit(word, bit, missing);
      Pow2Bit(k, missing);
      if OthersSet(word, k) {
        SetBit(word, k, missing);
      }
    }
  }

  /** One block with bit k marked: exactly that bit and those set before are set, unless they
      would fill the block; then it alone is set. */
  lemma MarkWord(word: nat, k: nat)
    requires word < BLOCK_FULL && k < PER_BLOCK
    ensures var marked := Or(word, Pow2(k));
            var after := if marked == BLOCK_FULL then Or(0, Pow2(k)) else marked;
            && after < BLOCK_FULL
            && (forall j: nat :: Bit(after, j) <==> j == k || (Bit(word, j) && !OthersSet(word, k)))
  {
    FillsExactly(word, k);
    forall j: nat
      ensures (Bit(Pow2(k), j) <==> j == k) && (Bit(Or(word, Pow2(k)), j) <==> Bit(word, j) || j == k)
    {
      Pow2Bit(k, j);
      OrBit(word, Pow2(k), j);
    }
  }

  /** The marks after slot i has been marked: its own and those there were before, but in its
      block only its own if all the others there were set. */
  ghost predicate OneMarked(acc: seq<nat>, after: seq<nat>, i: nat) {
    && i < |acc| * PER_BLOCK && |after| == |acc|
    && forall j: nat | j < |acc| * PER_BLOCK :: IsAccessed(after, j) <==>
         j == i || (IsAccessed(acc, j) && !(j / PER_BLOCK == i / PER_BLOCK && BlockFills(acc, i)))
  }

  /** All slots in the block of slot i but i itself are marked. */
  predicate BlockFills(acc: seq<nat>, i: nat)
    requires i < |acc| * PER_BLOCK
  {
    OthersSet(acc[i / PER_BLOCK], i % PER_BLOCK)
  }

  /** Marking a slot does that and keeps every block from filling up. */
  lemma MarkAccessMarks(acc: seq<nat>, i: nat)
    requires HasRoom(acc) && i < |acc| * PER_BLOCK
    ensures HasRoom(MarkAccess(acc, i)) && OneMarked(acc, MarkAccess(acc, i), i)
  {
    var b, k := i / PER_BLOCK, i % PER_BLOCK;
    MarkWord(acc[b], k);
    var after := MarkAccess(acc, i);
    forall j: nat | j < |acc| * PER_BLOCK
      ensures IsAccessed(after, j) <==>
                j == i || (IsAccessed(acc, j) && !(j / PER_BLOCK == b && BlockFills(acc, i)))
    {
      if j / PER_BLOCK == b {
        assert j == i <==> j % PER_BLOCK == k;
        assert IsAccessed(after, j) == Bit(after[b], j % PER_BLOCK) && IsAccessed(acc, j) == Bit(acc[b], j % PER_BLOCK);
      } else {
        assert after[j / PER_BLOCK] == acc[j / PER_BLOCK];
      }
    }
  }

  /** With no marks before, marking a slot makes its mark the only one. */
  lemma OnlyMark(acc: seq<nat>, after: seq<nat>, i: nat)
    requires NoMarks(acc) && OneMarked(acc, after, i)
    ensures forall j: nat | j < |after| * PER_BLOCK :: IsAccessed(after, j) <==> j == i
  {
    ZeroHasRoom(acc);
  }

  // ----- The choice of a victim

  predicate Candidate<K, V>(s: seq<Entry<K, V>>, acc: seq<nat>, i: nat)
    requires |s| == |acc| * PER_BLOCK && i < |s|
  {
    Used(s, i) && !IsAccessed(acc, i)
  }

  /** Slot v is the first used, unaccessed slot in cyclic order from start. */
  ghost predicate IsVictim<K, V>(s: seq<Entry<K, V>>, acc: seq<nat>, start: nat, v: nat) {
    && |s| == |acc| * PER_BLOCK && start < |s| && v < |s| && Candidate(s, acc, v)
    && forall i: nat | i < |s| && Dist(start, i, |s|) < Dist(start, v, |s|) :: !Candidate(s, acc, i)
  }

  /** A full table always has an unaccessed entry, so eviction cannot fail. */
  lemma FullTableHasCandidate<K(!new), V>(ks: Keying<K>, s: seq<Entry<K, V>>, acc: seq<nat>)
    requires Sound(ks, s) && |s| == |acc| * PER_BLOCK && HasRoom(acc)
    ensures |Stored(s)| == |s| ==> exists v: nat :: v < |s| && Candidate(s, acc, v)
  {
    FullCount(ks, s);
    WordIsPow2();
    var k := MissingBit(acc[0], PER_BLOCK);
    if |Stored(s)| == |s| {
      assert Used(s, k) && !IsAccessed(acc, k);
      assert Candidate(s, acc, k);
    }
  }

  lemma {:induction false} ZeroHasRoom(acc: seq<nat>)
    requires NoMarks(acc)
    ensures HasRoom(acc) && forall i: nat | i < |acc| * PER_BLOCK :: !IsAccessed(acc, i)
  {
    forall i: nat | i < |acc| * PER_BLOCK ensures !IsAccessed(acc, i) {
      ZeroBit(i % PER_BLOCK);
    }
  }

  /** Once all marks are gone, any entry will do as a victim. */
  lemma UnmarkedEntryIsCandidate<K(!new), V>(s: seq<Entry<K, V>>, acc: seq<nat>)
    requires |s| == |acc| * PER_BLOCK && NoMarks(acc)
    ensures Stored(s) != {} ==> exists v: nat :: v < |s| && Candidate(s, acc, v)
  {
    ZeroHasRoom(acc);
    if Stored(s) != {} {
      var e :| e in Stored(s);
      var v: nat :| v < |s| && s[v].hash != 0 && s[v] == e;
      assert Candidate(s, acc, v);
    }
  }

  lemma CandidateExists<K(!new), V>(ks: Keying<K>, s: seq<Entry<K, V>>, acc: seq<nat>)
    requires Sound(ks, s) && |s| == |acc| * PER_BLOCK && HasRoom(acc)
    ensures |Stored(s)| == |s| || (NoMarks(acc) && Stored(s) != {}) ==>
              exists v: nat :: v < |s| && Candidate(s, acc, v)
  {
    FullTableHasCandidate(ks, s, acc);
    if NoMarks(acc) {
      UnmarkedEntryIsCandidate(s, acc);
    }
  }

  /** The bitmap has a block for every slot exactly if the capacity is a multiple of 64: for any
      other one, marking the last slot would write behind the bitmap. */
  lemma EverySlotHasBlock(capacity: nat)
    requires capacity > 0
    ensures (forall i: nat | i < capacity :: BlockOf(i) < capacity / PER_BLOCK) <==> capacity % PER_BLOCK == 0
  {
    var blocks := capacity / PER_BLOCK;
    if capacity % PER_BLOCK != 0 {
      assert BlockOf(capacity - 1) >= blocks;
    }
  }

  function BlockOf(i: nat): nat {
    i / PER_BLOCK
  }

  lemma VictimUnique<K, V>(s: seq<Entry<K, V>>, acc: seq<nat>, start: nat, v: nat, w: nat)
    requires IsVictim(s, acc, start, v) && IsVictim(s, acc, start, w)
    ensures v == w
  {
    assert Dist(start, v, |s|) == Dist(start, w, |s|);
  }

  /** Evicting makes an insertion of the key possible: there is a victim, and if the key is
      present, the victim is that key. */
  ghost predicate MakesRoom<K(!new), V>(ks: Keying<K>, s: seq<Entry<K, V>>, acc: seq<nat>, start: nat, key: K) {
    exists v: nat :: IsVictim(s, acc, start, v)
      && (TM.Lookup(ks, Stored(s), key) == None || ks.equal(key, s[v].key))
  }

  /** An accessed key is never the victim. */
  lemma RecentIsNoVictim<K(!new), V>(ks: Keying<K>, s: seq<Entry<K, V>>, acc: seq<nat>, key: K, start: nat, v: nat)
    requires Lawful(ks) && Keyed(ks, s) && IsVictim(s, acc, start, v)
    requires exists i: nat :: i < |s| && Used(s, i) && ks.equal(key, s[i].key) && IsAccessed(acc, i)
    ensures !ks.equal(key, s[v].key)
  {
    var i: nat :| i < |s| && Used(s, i) && ks.equal(key, s[i].key) && IsAccessed(acc, i);
    assert ks.equal(s[i].key, key) && !ks.equal(s[i].key, s[v].key);
  }

  /** A marked key is present, and evicting does not make room for it. */
  lemma RecentStaysIn<K(!new), V>(ks: Keying<K>, s: seq<Entry<K, V>>, acc: seq<nat>, start: nat, key: K)
    requires Sound(ks, s) && |s| == |acc| * PER_BLOCK
    requires exists i: nat :: i < |s| && Used(s, i) && ks.equal(key, s[i].key) && IsAccessed(acc, i)
    ensures TM.Lookup(ks, Stored(s), key).Some? && !MakesRoom(ks, s, acc, start, key)
  {
    HT.ContentsLookup(ks, s, key);
    forall v: nat | IsVictim(s, acc, start, v) ensures !ks.equal(key, s[v].key) {
      RecentIsNoVictim(ks, s, acc, key, start, v);
    }
  }

  /** Whether the key is missing once the victim is gone. */
  lemma WithoutVictim<K(!new), V>(ks: Keying<K>, s: seq<Entry<K, V>>, acc: seq<nat>, start: nat, v: nat, key: K)
    requires Sound(ks, s) && IsVictim(s, acc, start, v)
    ensures s[v] in Stored(s)
    ensures TM.Lookup(ks, Stored(s) - {s[v]}, key) == None <==> MakesRoom(ks, s, acc, start, key)
  {
    assert Used(s, v) && s[v] in Stored(s);
    HT.ContentsIsMap(ks, s);
    TR.LookupWithout(ks, Stored(s), s[v], key);
    forall w: nat | IsVictim(s, acc, start, w) ensures w == v {
      VictimUnique(s, acc, start, v, w);
    }
  }

  // ----- The keys of entries, for the balance of what went in and what came out

  ghost function KeysOf<K, V>(stored: set<Entry<K, V>>): set<K> {
    set e | e in stored :: e.key
  }

  function KeyList<K, V>(calls: seq<Entry<K, V>>): seq<K> {
    seq(|calls|, i requires 0 <= i < |calls| => calls[i].key)
  }

  lemma KeysAdd<K(!new), V>(ks: Keying<K>, stored: set<Entry<K, V>>, e: Entry<K, V>)
    requires Lawful(ks) && TM.Lookup(ks, stored, e.key) == None
    ensures multiset(KeysOf(stored + {e})) == multiset(KeysOf(stored)) + multiset{e.key}
  {
    assert KeysOf(stored + {e}) == KeysOf(stored) + {e.key};
    assert e.key !in KeysOf(stored) by {
      assert forall f | f in stored :: !ks.equal(e.key, f.key);
      assert ks.equal(e.key, e.key);
    }
  }

  lemma KeysRemove<K(!new), V>(ks: Keying<K>, stored: set<Entry<K, V>>, e: Entry<K, V>)
    requires TM.IsMap(ks, stored) && e in stored
    ensures multiset(KeysOf(stored)) == multiset(KeysOf(stored - {e})) + multiset{e.key}
  {
    assert forall f | f in stored && f != e :: !ks.equal(e.key, f.key) && f.key != e.key by {
      assert ks.equal(e.key, e.key);
    }
    assert KeysOf(stored) == KeysOf(stored - {e}) + {e.key};
    assert e.key !in KeysOf(stored - {e});
  }

  lemma KeysKept<K, V>(stored: set<Entry<K, V>>, e: Entry<K, V>, value: V)
    requires e in stored
    ensures KeysOf(stored - {e} + {e.(value := value)}) == KeysOf(stored)
  {
    var after := stored - {e} + {e.(value := value)};
    forall k | k in KeysOf(stored) ensures k in KeysOf(after) {
      var f :| f in stored && f.key == k;
      assert (if f == e then e.(value := value) else f) in after;
    }
  }

  lemma KeyListAppend<K, V>(calls: seq<Entry<K, V>>, e: Entry<K, V>)
    ensures KeyList(calls + [e]) == KeyList(calls) + [e.key]
  {
  }

  /** The cache with the callback's calls and the insertions on record. */
  class Cache<K(!new), V> {
    var evictionIndex: nat
    const hasCallback: bool
    var accessed: array<nat>
    const table: HT.HashTable<K, V>
    ghost var calls: seq<Entry<K, V>>  // what the eviction callback was called with
    ghost var inserted: seq<K>         // the keys inserted since the start
    ghost var recent: Option<K>        // the key found or inserted last

    ghost predicate Valid()
      reads this, accessed, table, table.entries
    {
      && TableFits()
      && accessed as object != table.entries as object
      && accessed.Length * PER_BLOCK == table.cap
      && HasRoom(accessed[..]) && evictionIndex < table.cap
      && (if hasCallback then Conserved() else calls == [])
      && (recent.Some? ==> IsRecent(recent.value))
    }

    /** The keys inserted are those stored and those passed to the callback, each as often. */
    ghost predicate Conserved()
      reads this`inserted, this`calls, table`entries, table.entries
    {
      multiset(inserted) == multiset(KeysOf(table.Contents())) + multiset(KeyList(calls))
    }

    /** The table below may not grow and keeps values of present keys. */
    ghost predicate TableFits()
      reads table, table.entries
    {
      table.Valid() && !table.canGrow && table.duplicateCb == None
    }

    /** The counter of the table is exact, as it is unless a present key was inserted. */
    ghost predicate Counted()
      reads table`size, table`entries, table.entries
    {
      table.size == |table.Contents()|
    }

    ghost predicate Missing(key: K)
      reads table`entries, table.entries
    {
      TM.Lookup(table.keying, table.Contents(), key) == None
    }

    /** The table takes the key without an eviction. */
    ghost predicate Fits(key: K)
      reads table`size, table`cap, table`entries, table.entries
    {
      Missing(key) && table.size < table.cap
    }

    /** The slot of the key is marked as accessed. */
    ghost predicate IsRecent(key: K)
      requires accessed.Length * PER_BLOCK == table.entries.Length
      reads this`accessed, accessed, table`entries, table.entries
    {
      exists i: nat :: i < table.entries.Length && Used(table.entries[..], i)
        && table.keying.equal(key, table.entries[i].key) && IsAccessed(accessed[..], i)
    }

    ghost predicate IsFull()
      reads table`cap, table`entries, table.entries
    {
      |table.Contents()| == table.cap
    }

    constructor (keying: Keying<K>, zero: Entry<K, V>, capacity: nat, hasCallback: bool)
      requires Lawful(keying) && zero.hash == 0 && capacity > TM.INITIAL_CAP
      ensures (Valid() <==> capacity % PER_BLOCK == 0) && TableFits() && Counted()
      ensures fresh(table) && fresh(table.entries) && fresh(accessed)
      ensures accessed.Length == capacity / PER_BLOCK && NoMarks(accessed[..])
      ensures table.keying == keying && table.cap == capacity && table.Contents() == {}
      ensures evictionIndex == 0 && this.hasCallback == hasCallback && inserted == [] && calls == [] && recent == None
    {
      var t := new HT.HashTable<K, V>(keying, zero, false);
      t.Resize(capacity);
      evictionIndex, this.hasCallback := 0, hasCallback;
      accessed := new nat[capacity / PER_BLOCK](_ => 0);
      table := t;
      calls, inserted, recent := [], [], None;
      new;
    }

    method Access(index: nat)
      requires index < accessed.Length * PER_BLOCK
      modifies accessed
      ensures accessed[..] == MarkAccess(old(accessed[..]), index)
      ensures HasRoom(old(accessed[..])) ==>
                HasRoom(accessed[..]) && OneMarked(old(accessed[..]), accessed[..], index)
    {
      if HasRoom(accessed[..]) {
        MarkAccessMarks(accessed[..], index);
      }
      var b, bit := index / PER_BLOCK, Pow2(index % PER_BLOCK);
      if Or(accessed[b], bit) == BLOCK_FULL {
        accessed[b] := 0;
      }
      accessed[b] := Or(accessed[b], bit);
    }

    method Accessed(index: nat) returns (r: bool)
      requires index < accessed.Length * PER_BLOCK
      ensures r == IsAccessed(accessed[..], index)
    {
      TestBit(accessed[index / PER_BLOCK], index % PER_BLOCK);
      return And(accessed[index / PER_BLOCK], Pow2(index % PER_BLOCK)) != 0;
    }

    /** The pointer to the value of a key, as the slot it points into, which is now marked. */
    method Find(key: K) returns (r: Option<nat>)
      requires Valid()
      modifies this`recent, accessed
      ensures Valid() && table.Contents() == old(table.Contents())
      ensures match r
              case None =>
                && TM.Lookup(table.keying, table.Contents(), key) == None
                && recent == old(recent) && accessed[..] == old(accessed[..])
              case Some(i) =>
                && i < table.cap && TM.Lookup(table.keying, table.Contents(), key) == Some(table.entries[i])
                && recent == Some(key) && accessed[..] == MarkAccess(old(accessed[..]), i)
                && OneMarked(old(accessed[..]), accessed[..], i)
    {
      HT.ContentsLookup(table.keying, table.entries[..], key);
      var i, _ := table.FindIndex(key);
      if i < 0 {
        return None;
      }
      assert Used(table.entries[..], i);
      Access(i);
      recent := Some(key);
      return Some(i);
    }

    /** Advance evictionIndex to the first used, unaccessed slot, if there is one. */
    method Seek() returns (found: bool)
      requires Valid()
      modifies this`evictionIndex
      ensures evictionIndex < table.cap
      ensures found ==> IsVictim(table.entries[..], accessed[..], old(evictionIndex), evictionIndex)
      ensures !found ==> evictionIndex == old(evictionIndex)
      ensures !found ==> forall i: nat | i < table.cap :: !Candidate(table.entries[..], accessed[..], i)
    {
      var start := evictionIndex;
      ghost var steps: nat := 0;
      while true
        invariant steps < table.cap && evictionIndex == Ahead(start, steps, table.cap)
        invariant forall i: nat | i < table.cap && Dist(start, i, table.cap) < steps ::
                    !Candidate(table.entries[..], accessed[..], i)
        decreases table.cap - steps
      {
        var marked := Accessed(evictionIndex);
        if !marked && table.entries[evictionIndex].hash != 0 {
          return true;
        }
        forall i: nat | i < table.cap && Dist(start, i, table.cap) == steps
          ensures !Candidate(table.entries[..], accessed[..], i)
        {
          assert i == evictionIndex;
        }
        evictionIndex := Next(evictionIndex, table.cap);
        if evictionIndex == start {
          return false;
        }
        steps := steps + 1;
      }
    }

    method DeleteVictim()
      requires TableFits() && evictionIndex < table.cap && table.entries[evictionIndex].hash != 0
      modifies table`size, table.entries
      ensures TableFits() && table.size == old(table.size) - 1
      ensures table.Contents() == old(table.Contents()) - {old(table.entries[evictionIndex])}
      ensures |table.Contents()| == |old(table.Contents())| - 1
      ensures multiset(KeysOf(old(table.Contents()))) ==
              multiset(KeysOf(table.Contents())) + multiset{old(table.entries[evictionIndex]).key}
    {
      ghost var victim := table.entries[evictionIndex];
      assert Used(table.entries[..], evictionIndex) && victim in table.Contents();
      TM.RemoveOne(table.Contents(), victim);
      HT.ContentsIsMap(table.keying, table.entries[..]);
      KeysRemove(table.keying, table.Contents(), victim);
      var _ := table.DeleteIndex(evictionIndex);
    }

    method ClearMarks()
      modifies accessed
      ensures HasRoom(accessed[..]) && NoMarks(accessed[..])
    {
      forall b | 0 <= b < accessed.Length {
        accessed[b] := 0;
      }
    }

    /** Hand the entry at evictionIndex to the callback, delete it and forget all accesses. */
    method Discard()
      requires Valid() && table.entries[evictionIndex].hash != 0
      modifies this`calls, this`recent, accessed, table`size, table.entries
      ensures Valid() && recent == None && table.size == old(table.size) - 1
      ensures table.Contents() == old(table.Contents()) - {old(table.entries[evictionIndex])}
      ensures |table.Contents()| == |old(table.Contents())| - 1
      ensures calls == if hasCallback then old(calls) + [old(table.entries[evictionIndex])] else []
      ensures NoMarks(accessed[..])
    {
      KeyListAppend(calls, table.entries[evictionIndex]);
      if hasCallback {
        calls := calls + [table.entries[evictionIndex]];
      }
      DeleteVictim();
      ClearMarks();
      recent := None;
    }

    /** Panics exactly if no slot is used and unaccessed. */
    method Evict() returns (panicked: bool)
      requires Valid()
      modifies this`evictionIndex, this`calls, this`recent, accessed, table`size, table.entries
      ensures panicked <==>
                forall i: nat | i < table.cap :: !Candidate(old(table.entries[..]), old(accessed[..]), i)
      ensures !panicked ==>
                && Valid() && recent == None && table.size == old(table.size) - 1
                && IsVictim(old(table.entries[..]), old(accessed[..]), old(evictionIndex), evictionIndex)
      ensures !panicked ==> table.Contents() == old(table.Contents()) - {old(table.entries[..])[evictionIndex]}
      ensures !panicked ==> |table.Contents()| == |old(table.Contents())| - 1
      ensures !panicked ==> calls == if hasCallback then old(calls) + [old(table.entries[..])[evictionIndex]] else []
      ensures old(IsFull()) ==> !panicked
      ensures !panicked ==> NoMarks(accessed[..])
      ensures NoMarks(old(accessed[..])) && old(table.Contents()) != {} ==> !panicked
      ensures !panicked && old(recent).Some? ==>
                !table.keying.equal(old(recent).value, old(table.entries[..])[evictionIndex].key)
    {
      ghost var s, acc := table.entries[..], accessed[..];
      CandidateExists(table.keying, s, acc);
      var found := Seek();
      assert s == table.entries[..] && acc == accessed[..];
      if !found {
        return true;
      }
      assert Used(s, evictionIndex);
      if recent.Some? {
        RecentIsNoVictim(table.keying, s, acc, recent.value, old(evictionIndex), evictionIndex);
      }
      Discard();
      return false;
    }

    /** The table insertion: it fails exactly if the key is present or the counter is at capacity,
        and counts unless it is there. */
    method TableInsert(key: K, value: V) returns (ok: bool)
      requires TableFits()
      modifies table`size, table`cap, table`entries, table`dupLog, table.entries
      ensures TableFits() && table.cap == old(table.cap) && table.entries == old(table.entries)
      ensures ok == old(Fits(key))
      ensures table.size == old(table.size) + if old(table.size) < table.cap then 1 else 0
      ensures !ok ==> table.entries[..] == old(table.entries[..])
      ensures ok ==> table.Contents() == old(table.Contents()) + {NewEntry(key, value)}
      ensures ok ==> |table.Contents()| == |old(table.Contents())| + 1
      ensures ok ==> TM.Lookup(table.keying, table.Contents(), key) == Some(NewEntry(key, value))
    {
      if Missing(key) {
        table.InsertNewKey(key, value);
      } else {
        table.InsertPresentKey(key, value);
      }
      ok := table.Insert(key, value);
      assert table.Contents() == table.Model().stored;
      if ok {
        table.FindsStored(key, NewEntry(key, value));
      }
    }

    /** That insertion on record; the access marks stay where they are. */
    method TryInsert(key: K, value: V) returns (ok: bool)
      requires Valid()
      modifies this`inserted, this`recent
      modifies table`size, table`cap, table`entries, table`dupLog, table.entries
      ensures Valid() && table.cap == old(table.cap) && table.entries == old(table.entries)
      ensures ok == old(Fits(key))
      ensures table.size == old(table.size) + if old(table.size) < table.cap then 1 else 0
      ensures !ok ==> inserted == old(inserted) && recent == old(recent) && table.entries[..] == old(table.entries[..])
      ensures ok ==> recent == None && inserted == old(inserted) + [key]
      ensures ok ==> table.Contents() == old(table.Contents()) + {NewEntry(key, value)}
      ensures ok ==> |table.Contents()| == |old(table.Contents())| + 1
      ensures ok ==> TM.Lookup(table.keying, table.Contents(), key) == Some(NewEntry(key, value))
    {
      if Missing(key) {
        KeysAdd(table.keying, table.Contents(), NewEntry(key, value));
      }
      ok := TableInsert(key, value);
      if ok {
        recent := None;
        inserted := inserted + [key];
      }
    }

    ghost function NewEntry(key: K, value: V): Entry<K, V> {
      Entry(key, value, HashOf(table.keying, key))
    }

    /** The first candidate of slots s and marks acc from start on is gone, and was handed to the
        callback; entry e is stored. The victim is not the key used last. */
    ghost predicate Replaced(s: seq<Entry<K, V>>, acc: seq<nat>, start: nat, calls0: seq<Entry<K, V>>,
                             recent0: Option<K>, e: Entry<K, V>)
      reads this`evictionIndex, this`calls, table`entries, table.entries
    {
      && IsVictim(s, acc, start, evictionIndex)
      && var victim := s[evictionIndex];
         && calls == (if hasCallback then calls0 + [victim] else [])
         && table.Contents() == Stored(s) - {victim} + {e}
         && (recent0.Some? ==> !table.keying.equal(recent0.value, victim.key))
    }

    /** The branch of Insert for a failed insertion: evict, then insert. */
    method EvictAndInsert(key: K, value: V) returns (panicked: bool)
      requires Valid()
      modifies this`evictionIndex, this`calls, this`inserted, this`recent, accessed
      modifies table`size, table`cap, table`entries, table`dupLog, table.entries
      ensures panicked <==>
                !MakesRoom(table.keying, old(table.entries[..]), old(accessed[..]), old(evictionIndex), key)
      ensures old(Missing(key)) && old(IsFull()) ==> !panicked
      ensures !panicked ==> Valid() && table.cap == old(table.cap) && table.entries == old(table.entries)
      ensures !panicked ==> table.size == old(table.size) && |table.Contents()| == |old(table.Contents())|
      ensures !panicked ==> inserted == old(inserted) + [key]
      ensures !panicked ==> TM.Lookup(table.keying, table.Contents(), key) == Some(NewEntry(key, value))
      ensures !panicked ==>
                Replaced(old(table.entries[..]), old(accessed[..]), old(evictionIndex), old(calls), old(recent),
                         NewEntry(key, value))
      ensures !panicked ==> NoMarks(accessed[..])
    {
      ghost var s, acc, start := table.entries[..], accessed[..], evictionIndex;
      panicked := Evict();
      if panicked {
        return;
      }
      WithoutVictim(table.keying, s, acc, start, evictionIndex, key);
      var ok := TryInsert(key, value);
      panicked := !ok;
    }

    lemma RecentBlocks(key: K)
      requires Valid() && recent == Some(key)
      ensures !Missing(key) && !MakesRoom(table.keying, table.entries[..], accessed[..], evictionIndex, key)
    {
      RecentStaysIn(table.keying, table.entries[..], accessed[..], evictionIndex, key);
    }

    /** Insert up to its last line, which finds the new key. */
    method Place(key: K, value: V) returns (panicked: bool)
      requires Valid()
      modifies this`evictionIndex, this`calls, this`inserted, this`recent, accessed
      modifies table`size, table`cap, table`entries, table`dupLog, table.entries
      ensures !panicked ==> Valid() && table.cap == old(table.cap) && table.entries == old(table.entries)
      ensures !panicked ==> TM.Lookup(table.keying, table.Contents(), key) == Some(NewEntry(key, value))
      ensures !panicked ==> inserted == old(inserted) + [key]
      ensures old(recent) == Some(key) ==> panicked
      ensures !panicked ==> table.size == old(table.size) + if old(table.size) < table.cap then 1 else 0
      ensures old(Fits(key)) ==>
                && !panicked && calls == old(calls) && evictionIndex == old(evictionIndex)
                && table.Contents() == old(table.Contents()) + {NewEntry(key, value)}
                && |table.Contents()| == |old(table.Contents())| + 1
                && accessed[..] == old(accessed[..])
      ensures !old(Fits(key)) ==>
                && (panicked <==>
                    !MakesRoom(table.keying, old(table.entries[..]), old(accessed[..]), old(evictionIndex), key))
                && (old(Missing(key)) && old(IsFull()) ==> !panicked)
      ensures !old(Fits(key)) && !panicked ==>
                && |table.Contents()| == |old(table.Contents())|
                && NoMarks(accessed[..])
                && Replaced(old(table.entries[..]), old(accessed[..]), old(evictionIndex), old(calls), old(recent),
                         NewEntry(key, value))
    {
      if recent == Some(key) {
        RecentBlocks(key);
      }
      panicked := false;
      var ok := TryInsert(key, value);
      if !ok {
        panicked := EvictAndInsert(key, value);
      }
    }

    /** The last line of Insert: the new entry is found and marked. */
    method Finish(key: K, ghost e: Entry<K, V>) returns (ghost slot: nat)
      requires Valid() && TM.Lookup(table.keying, table.Contents(), key) == Some(e)
      modifies this`recent, accessed
      ensures Valid() && recent == Some(key) && slot < table.cap && table.entries[slot] == e
      ensures OneMarked(old(accessed[..]), accessed[..], slot)
      ensures NoMarks(old(accessed[..])) ==>
                forall j: nat | j < table.cap :: IsAccessed(accessed[..], j) <==> j == slot
    {
      ghost var marks := accessed[..];
      var found := Find(key);
      slot := found.value;
      if NoMarks(marks) {
        OnlyMark(marks, accessed[..], slot);
      }
    }

    /** With an exact counter a missing key is always stored: a full cache first loses its victim,
        never the key found or inserted last. Else the insertion panics exactly if evicting does
        not make room: if no slot is used and unmarked, or the victim is not the key that is
        present. So it always panics for the key found or inserted last. The new entry is marked:
        after an eviction as the only one, and else beside the marks there were. */
    method Insert(key: K, value: V) returns (panicked: bool, ghost slot: nat)
      requires Valid()
      modifies this`evictionIndex, this`calls, this`inserted, this`recent, accessed
      modifies table`size, table`cap, table`entries, table`dupLog, table.entries
      ensures old(Missing(key)) && old(Counted()) ==> !panicked && Counted()
      ensures !old(Fits(key)) ==>
                (panicked <==>
                 !MakesRoom(table.keying, old(table.entries[..]), old(accessed[..]), old(evictionIndex), key))
      ensures old(recent) == Some(key) ==> panicked
      ensures !panicked ==> Valid() && recent == Some(key)
      ensures !panicked ==> table.cap == old(table.cap) && table.entries == old(table.entries)
      ensures !panicked ==> TM.Lookup(table.keying, table.Contents(), key) == Some(NewEntry(key, value))
      ensures !panicked ==> inserted == old(inserted) + [key] && |table.Contents()| <= table.cap
      ensures !panicked && hasCallback ==> Conserved()
      ensures old(Fits(key)) ==>
                && !panicked && calls == old(calls) && evictionIndex == old(evictionIndex)
                && table.Contents() == old(table.Contents()) + {NewEntry(key, value)}
      ensures !old(Fits(key)) && !panicked ==>
                Replaced(old(table.entries[..]), old(accessed[..]), old(evictionIndex), old(calls), old(recent),
                         NewEntry(key, value))
      ensures !panicked ==> slot < table.cap && table.entries[slot] == NewEntry(key, value)
      ensures old(Fits(key)) ==>
                OneMarked(old(accessed[..]), accessed[..], slot)
      ensures !old(Fits(key)) && !panicked ==>
                forall j: nat | j < table.cap :: IsAccessed(accessed[..], j) <==> j == slot
    {
      slot := 0;
      panicked := Place(key, value);
      if panicked {
        return;
      }
      slot := Finish(key, NewEntry(key, value));
    }

    /** Inserting a key twice in a row panics. */
    method InsertTwice(key: K, first: V, second: V) returns (panicked: bool)
      requires Valid() && Counted() && Missing(key)
      modifies this`evictionIndex, this`calls, this`inserted, this`recent, accessed
      modifies table`size, table`cap, table`entries, table`dupLog, table.entries
      ensures panicked
    {
      var _, _ := Insert(key, first);
      var again, _ := Insert(key, second);
      panicked := again;
    }

    /** What a caller may do with the pointer that Find returns. */
    method WriteValue(i: nat, value: V)
      requires Valid() && i < table.cap && Used(table.entries[..], i)
      modifies table.entries
      ensures Valid() && table.Contents() ==
                old(table.Contents()) - {old(table.entries[i])} + {old(table.entries[i]).(value := value)}
      ensures table.entries[..] == old(table.entries[..])[i := old(table.entries[i]).(value := value)]
      ensures |table.Contents()| == |old(table.Contents())|
    {
      assert table.entries[i] in table.Contents();
      KeysKept(table.Contents(), table.entries[i], value);
      ghost var s := table.entries[..];
      table.WriteValue(i, value);
      if recent.Some? {
        assert forall j: nat | j < |s| ::
            Used(table.entries[..], j) == Used(s, j) && table.entries[..][j].key == s[j].key;
      }
    }
  }
}
