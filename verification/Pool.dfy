/** The pool allocator of src/pool.c: a free list threaded through the storage it hands out.
    Storage is one array of cells; a pointer occupies the first cell of a slot header. */
module Pool {
  import opened Bits
  import opened Sequences

  const SLOT_SIZE: nat := 8   // sizeof(A3PoolSlot)
  const SLOT_ALIGN: nat := 8  // alignof(A3PoolSlot)

  function AlignDown(v: nat, align: nat): nat
    requires 0 < align <= WORD
  {
    And(v, WORD - align)
  }

  function AlignUp(v: nat, align: nat): nat
    requires 0 < align <= WORD
  {
    AlignDown(v + align - 1, align)
  }

  ghost predicate IsLeastMultiple(r: nat, v: nat, align: nat)
    requires align > 0
  {
    v <= r < v + align && r % align == 0 && forall m: nat | m % align == 0 && v <= m :: r <= m
  }

  /** For a power of two and no overflow, rounding up gives the least multiple not below v. */
  lemma AlignUpIsLeast(v: nat, align: nat, k: nat)
    requires align == Pow2(k) && k <= WORD_BITS && align <= WORD
    requires v + align - 1 < WORD
    ensures IsLeastMultiple(AlignUp(v, align), v, align)
  {
    var r := AlignUp(v, align);
    RoundingDown(v + align - 1, align, k);
    forall m: nat | m % align == 0 && v <= m ensures r <= m {
      if m < r {
        MultiplesApart(m, r, align);
      }
    }
  }

  lemma RoundingDown(x: nat, align: nat, k: nat)
    requires align == Pow2(k) && k <= WORD_BITS && align <= WORD && x < WORD
    ensures var r := AlignDown(x, align); r <= x < r + align && r % align == 0
  {
    var down := AlignDown(x, align);
    assert down == x - x % align by {
      WordIsPow2();
      ClearLow(x, WORD_BITS, k);
    }
    MultipleBelow(x, align);
  }

  lemma MultipleBelow(x: nat, align: nat)
    requires align > 0
    ensures var r := x - x % align; r <= x < r + align && r % align == 0
  {
    var low := x % align;
    assert x == (x / align) * align + low;
    ModUnique(x - low, align, x / align, 0);
  }

  /** A multiple below another one is below it by at least the factor. */
  lemma MultiplesApart(m: nat, r: nat, align: nat)
    requires align > 0 && m % align == 0 && r % align == 0 && m < r
    ensures m + align <= r
  {
    var d := r / align - m / align;
    assert d * align == r - m by {
      assert r == (r / align) * align && m == (m / align) * align;
    }
    PositiveFactor(d, align);
  }

  lemma PositiveFactor(d: int, m: nat)
    requires d * m > 0
    ensures d * m >= m
  {
  }

  // ----- Blocks

  /** Where the slot header of an object of this size lies behind it. */
  function SlotOffset(objSize: nat): nat {
    AlignUp(objSize, SLOT_ALIGN)
  }

  function BlockSize(objSize: nat, align: nat): nat
    requires 0 < align <= WORD
  {
    AlignUp(SlotOffset(objSize) + SLOT_SIZE, align)
  }

  /** The sizes a pool can be made of: an alignment that is a power of two, no overflow. */
  ghost predicate Sizes(objSize: nat, align: nat, k: nat) {
    && align == Pow2(k) && k <= WORD_BITS && align <= WORD
    && objSize + 2 * SLOT_SIZE + align < WORD
  }

  /** An object and its header are disjoint and lie inside one block; blocks keep the
      alignment, and headers keep theirs. */
  lemma BlockLayout(objSize: nat, align: nat, k: nat)
    requires Sizes(objSize, align, k)
    ensures var offset, size := SlotOffset(objSize), BlockSize(objSize, align);
            && objSize <= offset < objSize + SLOT_ALIGN && offset % SLOT_ALIGN == 0
            && offset + SLOT_SIZE <= size < offset + SLOT_SIZE + align
            && size % align == 0 && size % SLOT_ALIGN == 0
  {
    EightIsPow2();
    AlignUpIsLeast(objSize, SLOT_ALIGN, 3);
    AlignUpIsLeast(SlotOffset(objSize) + SLOT_SIZE, align, k);
    PowersDivide(SlotOffset(objSize), BlockSize(objSize, align), align, k);
  }

  lemma EightIsPow2()
    ensures Pow2(3) == SLOT_ALIGN
  {
    assert Pow2(1) == 2 && Pow2(2) == 4;
  }

  /** The header alignment divides a larger power of two, and a smaller one divides it. */
  lemma PowersDivide(offset: nat, size: nat, align: nat, k: nat)
    requires align == Pow2(k) && offset % SLOT_ALIGN == 0 && IsLeastMultiple(size, offset + SLOT_SIZE, align)
    ensures size % SLOT_ALIGN == 0
  {
    EightIsPow2();
    if k >= 3 {
      Pow2Add(k - 3, 3);
      MultipleOfMultiple(size, align, SLOT_ALIGN, Pow2(k - 3));
    } else {
      Pow2Add(3 - k, k);
      MultipleOfMultiple(offset + SLOT_SIZE, SLOT_ALIGN, align, Pow2(3 - k));
    }
  }

  /** If the storage is aligned, so are all objects, and all headers if the alignment is at least
      theirs or the storage happens to meet theirs as well. */
  lemma AddressesAligned(base: nat, objSize: nat, align: nat, k: nat, b: nat)
    requires Sizes(objSize, align, k) && base % align == 0
    ensures var obj := base + b * BlockSize(objSize, align);
            var slot := obj + SlotOffset(objSize);
            obj % align == 0 && (k >= 3 || base % SLOT_ALIGN == 0 ==> slot % SLOT_ALIGN == 0)
  {
    BlockLayout(objSize, align, k);
    if k >= 3 {
      EightIsPow2();
      Pow2Add(k - 3, 3);
      MultipleOfMultiple(base, align, SLOT_ALIGN, Pow2(k - 3));
    }
    var size := BlockSize(objSize, align);
    SumOfMultiples(base, b, size, 0, align);
    if base % SLOT_ALIGN == 0 {
      SumOfMultiples(base, b, size, SlotOffset(objSize), SLOT_ALIGN);
    }
  }

  lemma SumOfMultiples(x: nat, b: nat, y: nat, z: nat, m: nat)
    requires m > 0 && x % m == 0 && y % m == 0 && z % m == 0
    ensures (x + b * y + z) % m == 0
  {
    var p, q, r := x / m, y / m, z / m;
    assert x == p * m && y == q * m && z == r * m;
    assert b * (q * m) == (b * q) * m;
    assert x + b * y + z == (p + b * q + r) * m;
    ModUnique(x + b * y + z, m, p + b * q + r, 0);
  }

  lemma MultipleOfMultiple(x: nat, m: nat, d: nat, f: nat)
    requires m > 0 && d > 0 && m == f * d && x % m == 0
    ensures x % d == 0
  {
    var q := x / m;
    assert x == q * m == q * (f * d) == (q * f) * d;
    ModUnique(x, d, q * f, 0);
  }

  /** Block b of a row of blocks ends where later ones begin at the earliest. */
  lemma BlocksApart(b: nat, c: nat, size: nat)
    requires b < c
    ensures b * size + size <= c * size
  {
    assert (c - b) * size == c * size - b * size;
    assert (c - b) * size >= size by {
      assert (c - b - 1) * size >= 0;
    }
  }

  lemma RowOfBlocks(starts: seq<nat>, blocks: nat, size: nat)
    requires |starts| == blocks && forall b: nat | b < blocks :: starts[b] == b * size
    ensures forall b: nat | b < blocks :: starts[b] + size <= blocks * size
    ensures forall b: nat, c: nat | b < c < blocks :: starts[b] + size <= starts[c]
  {
    forall b: nat | b < blocks ensures starts[b] + size <= blocks * size {
      BlocksApart(b, blocks, size);
    }
    forall b: nat, c: nat | b < c < blocks ensures starts[b] + size <= starts[c] {
      BlocksApart(b, c, size);
    }
  }

  class Pool {
    const base: nat             // the address of the storage
    const blocks: nat
    const objSize: nat
    const blockSize: nat
    const offset: nat           // from an object to its slot header
    const zeroBlocks: bool
    const mem: array<nat>
    var free: nat               // the address of the first free slot header, or 0
    ghost const starts: seq<nat>     // the first cell of each block
    ghost var freeList: seq<nat>     // the free blocks in list order
    ghost var outstanding: set<nat>  // the blocks handed out

    /** Blocks follow one another, each with room for an object and then a header. */
    ghost predicate Geometry() {
      && base > 0 && objSize <= offset && offset + SLOT_SIZE <= blockSize && |starts| == blocks
      && (forall b: nat | b < blocks :: starts[b] + blockSize <= mem.Length)
      && (forall b: nat, c: nat | b < c < blocks :: starts[b] + blockSize <= starts[c])
    }

    /** The address of the header of the k-th free block, null past the last. */
    ghost function Pointer(k: nat): nat
      requires k < |freeList| ==> freeList[k] < |starts|
      reads this`freeList
    {
      if k < |freeList| then base + Header(freeList[k]) else 0
    }

    ghost predicate ZeroedObject(b: nat)
      requires b < |starts|
      reads mem
    {
      forall c: nat | starts[b] <= c < starts[b] + objSize :: c < mem.Length && mem[c] == 0
    }

    /** The cell of the slot header of block b. */
    ghost function Header(b: nat): nat
      requires b < |starts|
    {
      starts[b] + offset
    }

    /** The header of the k-th free block points to that of the next. */
    ghost predicate Linked(k: nat)
      requires k < |freeList| && freeList[k] < |starts| && Header(freeList[k]) < mem.Length
      requires k + 1 < |freeList| ==> freeList[k + 1] < |starts|
      reads this`freeList, mem
    {
      mem[Header(freeList[k])] == Pointer(k + 1)
    }

    /** The object of the k-th free block is zeroed. */
    ghost predicate Clean(k: nat)
      requires k < |freeList| && freeList[k] < |starts| && starts[freeList[k]] + objSize <= mem.Length
      reads this`freeList, mem
    {
      forall c: nat | starts[freeList[k]] <= c < starts[freeList[k]] + objSize :: mem[c] == 0
    }

    /** The free list visits each free block once, and every block is either on it or out. */
    ghost predicate Valid()
      reads this, mem
    {
      && Geometry()
      && (forall k: nat | k < |freeList| :: freeList[k] < blocks)
      && (forall b | b in outstanding :: b < blocks)
      && Distinct(freeList)
      && (forall b: nat | b < blocks :: (b in freeList) != (b in outstanding))
      && free == Pointer(0)
      && (forall k: nat | k < |freeList| :: Linked(k))
      && (zeroBlocks ==> forall k: nat | k < |freeList| :: Clean(k))
    }

    lemma EveryBlockAccounted()
      requires Valid()
      ensures |freeList| + |outstanding| == blocks
    {
      Partition(freeList, outstanding, blocks);
    }

    /** Storage as the allocator returned it, zeroed; the loop leaves the last header null. */
    constructor (objSize: nat, blocks: nat, align: nat, ghost order: nat, base: nat, zeroBlocks: bool)
      requires Sizes(objSize, align, order) && blocks > 0 && base > 0 && base % align == 0
      ensures Valid() && fresh(mem) && this.blocks == blocks && this.base == base && this.objSize == objSize
      ensures this.zeroBlocks == zeroBlocks && forall b: nat | b < blocks :: ZeroedObject(b)
      ensures offset == SlotOffset(objSize) && blockSize == BlockSize(objSize, align)
      ensures mem.Length == blocks * blockSize && forall b: nat | b < blocks :: starts[b] == b * blockSize
      ensures freeList == seq(blocks, i => i) && outstanding == {}
    {
      var size := BlockSize(objSize, align);
      this.objSize, this.blocks, this.base, this.zeroBlocks := objSize, blocks, base, zeroBlocks;
      blockSize, offset := size, SlotOffset(objSize);
      mem := new nat[blocks * size](_ => 0);
      free := base + SlotOffset(objSize);
      starts := seq(blocks, b requires b >= 0 => b * size);
      freeList, outstanding := seq(blocks, i => i), {};
      new;
      PrepareGeometry(align, order);
      LinkBlocks();
    }

    lemma PrepareGeometry(align: nat, order: nat)
      requires Sizes(objSize, align, order) && base > 0
      requires offset == SlotOffset(objSize) && blockSize == BlockSize(objSize, align)
      requires mem.Length == blocks * blockSize && |starts| == blocks
      requires forall b: nat | b < blocks :: starts[b] == b * blockSize
      ensures Geometry()
    {
      BlockLayout(objSize, align, order);
      RowOfBlocks(starts, blocks, blockSize);
    }

    /** The chain of the first i blocks is linked, and nothing else is written yet. */
    ghost predicate Linking(i: nat)
      reads this, mem
    {
      && Geometry() && i < blocks && freeList == seq(blocks, i => i)
      && (forall b: nat | b < blocks :: starts[b] == b * blockSize)
      && (forall k: nat | k < i :: Linked(k))
      && (forall k: nat | i <= k < blocks :: mem[Header(k)] == 0)
      && (forall k: nat | k < blocks :: Clean(k))
    }

    method LinkBlock(i: nat)
      requires Linking(i) && i + 1 < blocks
      modifies mem
      ensures Linking(i + 1)
    {
      var slot := i * blockSize + offset;
      var next := (i + 1) * blockSize + offset;
      assert slot == Header(i) && next == Header(i + 1);
      mem[slot] := base + next;
      assert Linked(i);
      forall k: nat | k < i ensures Linked(k) {
        assert old(Linked(k)) && starts[k] + blockSize <= starts[i];
      }
      forall k: nat | k < blocks ensures Clean(k) {
        assert old(Clean(k)) && (k < i ==> starts[k] + blockSize <= starts[i]);
      }
    }

    /** The loop of a3_pool_new over zeroed storage. */
    method LinkBlocks()
      requires Geometry() && blocks > 0 && freeList == seq(blocks, i => i) && outstanding == {}
      requires free == base + offset
      requires forall b: nat | b < blocks :: starts[b] == b * blockSize
      requires forall c: nat | c < mem.Length :: mem[c] == 0
      modifies mem
      ensures Valid() && forall b: nat | b < blocks :: ZeroedObject(b)
    {
      for i := 0 to blocks - 1
        invariant Linking(i)
      {
        LinkBlock(i);
      }
      ChainIsValid();
      forall b: nat | b < blocks ensures ZeroedObject(b) {
        assert Clean(b);
      }
    }

    lemma ChainIsValid()
      requires Geometry() && blocks > 0 && freeList == seq(blocks, i => i) && outstanding == {}
      requires free == base + offset && starts[0] == 0
      requires forall k: nat | k < blocks - 1 :: Linked(k)
      requires mem[Header(blocks - 1)] == 0
      requires forall k: nat | k < blocks :: Clean(k)
      ensures Valid()
    {
      assert Linked(blocks - 1);
      forall b: nat | b < blocks ensures b in freeList {
        assert freeList[b] == b;
      }
    }

    /** Null exactly when every block is out; otherwise a block that was not out. A pool that
        zeroes its blocks hands out a zeroed object. */
    method AllocBlock() returns (obj: nat)
      requires Valid()
      modifies this`free, this`freeList, this`outstanding, mem
      ensures Valid()
      ensures obj == 0 <==> forall b: nat | b < blocks :: b in old(outstanding)
      ensures obj == 0 ==> freeList == old(freeList) && outstanding == old(outstanding)
      ensures obj != 0 ==> |old(freeList)| > 0 && old(freeList)[0] < |starts| && obj == base + starts[old(freeList)[0]]
      ensures obj != 0 ==> freeList == old(freeList)[1..] && outstanding == old(outstanding) + {old(freeList)[0]}
      ensures obj != 0 && zeroBlocks ==>
                forall c: nat | obj - base <= c < obj - base + objSize :: c < mem.Length && mem[c] == 0
      ensures forall c: nat | c < mem.Length ::
                mem[c] == if obj != 0 && c == obj - base + offset then 0 else old(mem[c])
    {
      if free == 0 {
        return 0;
      }
      ghost var b := freeList[0];
      assert Linked(0) && (zeroBlocks ==> Clean(0));
      var slot := free;
      free := mem[slot - base];
      mem[slot - base] := 0;
      obj := slot - offset;
      freeList, outstanding := freeList[1..], outstanding + {b};
      forall k: nat | k < |freeList| ensures Linked(k) {
        assert old(Linked(k + 1)) && freeList[k] != b;
      }
      forall k: nat | zeroBlocks && k < |freeList| ensures Clean(k) {
        assert old(Clean(k + 1)) && freeList[k] != b;
      }
    }

    /** The memset of a freed block. */
    method ZeroObject(ghost b: nat, start: nat)
      requires Valid() && b in outstanding && start == starts[b]
      modifies mem
      ensures Valid()
      ensures forall c: nat | c < mem.Length ::
                mem[c] == if start <= c < start + objSize then 0 else old(mem[c])
    {
      for i := 0 to objSize
        invariant forall c: nat | c < mem.Length :: mem[c] == if start <= c < start + i then 0 else old(mem[c])
      {
        mem[start + i] := 0;
      }
      forall k: nat | k < |freeList| ensures Linked(k) {
        assert old(Linked(k)) && freeList[k] != b;
      }
      forall k: nat | zeroBlocks && k < |freeList| ensures Clean(k) {
        assert old(Clean(k)) && freeList[k] != b;
      }
    }

    /** Put block b in front of the free list. */
    method PushFree(slot: nat, ghost b: nat)
      requires Valid() && b in outstanding && slot == base + Header(b)
      requires zeroBlocks ==> forall c: nat | starts[b] <= c < starts[b] + objSize :: mem[c] == 0
      modifies this`free, this`freeList, this`outstanding, mem
      ensures Valid() && freeList == [b] + old(freeList) && outstanding == old(outstanding) - {b}
      ensures forall c: nat | c < mem.Length && c != Header(b) :: mem[c] == old(mem[c])
    {
      mem[slot - base] := free;
      free := slot;
      freeList, outstanding := [b] + freeList, outstanding - {b};
      forall k: nat | k < |freeList| ensures Linked(k) {
        assert k > 0 ==> old(Linked(k - 1)) && freeList[k] != b;
      }
      forall k: nat | zeroBlocks && k < |freeList| ensures Clean(k) {
        assert k > 0 ==> old(Clean(k - 1)) && freeList[k] != b;
      }
    }

    /** Give block b back. No cell outside the block changes. */
    method FreeBlock(obj: nat, ghost b: nat)
      requires Valid() && b in outstanding && obj == base + starts[b]
      modifies this`free, this`freeList, this`outstanding, mem
      ensures Valid()
      ensures freeList == [b] + old(freeList) && outstanding == old(outstanding) - {b}
      ensures forall c: nat | c < mem.Length && !(starts[b] <= c < starts[b] + blockSize) :: mem[c] == old(mem[c])
      ensures zeroBlocks ==> forall c: nat | starts[b] <= c < starts[b] + objSize :: mem[c] == 0
      ensures !zeroBlocks ==> forall c: nat | c < mem.Length && c != Header(b) :: mem[c] == old(mem[c])
    {
      if zeroBlocks {
        ZeroObject(b, obj - base);
      }
      PushFree(obj + offset, b);
    }

    /** What the user of block b may do to it keeps the free list intact. */
    method WriteObject(ghost b: nat, cell: nat, value: nat)
      requires Valid() && b in outstanding && starts[b] <= cell < starts[b] + objSize
      modifies mem
      ensures Valid() && mem[cell] == value
      ensures forall c: nat | c < mem.Length && c != cell :: mem[c] == old(mem[c])
    {
      mem[cell] := value;
      forall k: nat | k < |freeList| ensures Linked(k) {
        assert old(Linked(k)) && freeList[k] != b;
      }
      forall k: nat | zeroBlocks && k < |freeList| ensures Clean(k) {
        assert old(Clean(k)) && freeList[k] != b;
      }
    }

    /** The walk of a3_pool_free with a callback: every free block is visited exactly once. */
    method WalkFree() returns (visited: seq<nat>)
      requires Valid()
      ensures |visited| == |freeList|
      ensures forall k: nat | k < |freeList| :: visited[k] == base + starts[freeList[k]]
    {
      visited := [];
      var current := free;
      while current != 0
        invariant |visited| <= |freeList| && current == Pointer(|visited|)
        invariant forall k: nat | k < |visited| :: visited[k] == base + starts[freeList[k]]
        decreases |freeList| - |visited|
      {
        assert Linked(|visited|);
        visited := visited + [current - offset];
        current := mem[current - base];
      }
    }
  }

  /** The free list and the blocks out always make up the whole pool. */
  lemma Partition(freeList: seq<nat>, outstanding: set<nat>, blocks: nat)
    requires Distinct(freeList) && (forall k: nat | k < |freeList| :: freeList[k] < blocks)
    requires forall b | b in outstanding :: b < blocks
    requires forall b: nat | b < blocks :: (b in freeList) != (b in outstanding)
    ensures |freeList| + |outstanding| == blocks
  {
    DistinctCount(freeList);
    assert Elements(freeList) !! outstanding;
    assert Elements(freeList) + outstanding == Below(blocks);
  }

  ghost function Below(n: nat): (r: set<nat>)
    ensures |r| == n && forall b: nat :: b in r <==> b < n
  {
    if n == 0 then {} else Below(n - 1) + {n - 1}
  }
}
