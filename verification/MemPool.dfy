/** The item pool (deps/common/mm/mem_pool.cpp). */
module MemPool {
  import opened Wrappers

  /** A pointer: the start of the index-th item of one of the blocks, or any other address. */
  datatype Pointer = Item(block: nat, index: nat) | Foreign(address: int)

  /** First and one past the last byte of an item in its block. */
  function Start(p: Pointer, itemSize: int): int
    requires p.Item?
  {
    p.index * itemSize
  }

  predicate Overlap(p: Pointer, q: Pointer, itemSize: int)
    requires p.Item? && q.Item?
  {
    && p.block == q.block
    && Start(p, itemSize) < Start(q, itemSize) + itemSize
    && Start(q, itemSize) < Start(p, itemSize) + itemSize
  }

  /** Different items of a block never share a byte, and stay inside the block. */
  lemma ItemsDisjoint(p: Pointer, q: Pointer, itemSize: int, itemNum: int)
    requires p.Item? && q.Item? && itemSize > 0 && p.index < itemNum && q.index < itemNum
    ensures p != q ==> !Overlap(p, q, itemSize)
    ensures 0 <= Start(p, itemSize) && Start(p, itemSize) + itemSize <= itemNum * itemSize
  {
    Apart(p.index, itemNum, itemSize);
    if p.index < q.index { Apart(p.index, q.index, itemSize); }
    if q.index < p.index { Apart(q.index, p.index, itemSize); }
  }

  // ---------------------------------------------------------------- clearing

  /** A byte of a block. */
  datatype Address = Address(block: nat, offset: int)

  /** `memset(buffer, 0, sizeof(item_size))`: the size of the variable, four bytes, whatever its value. */
  function Cleared(memory: map<Address, int>, p: Pointer, itemSize: int): map<Address, int>
    requires p.Item?
  {
    var b, s := p.block, Start(p, itemSize);
    memory[Address(b, s) := 0][Address(b, s + 1) := 0][Address(b, s + 2) := 0][Address(b, s + 3) := 0]
  }

  predicate InItem(a: Address, p: Pointer, itemSize: int)
    requires p.Item?
  {
    a.block == p.block && Start(p, itemSize) <= a.offset < Start(p, itemSize) + itemSize
  }

  predicate IsCleared(a: Address, p: Pointer, itemSize: int)
    requires p.Item?
  {
    a.block == p.block && Start(p, itemSize) <= a.offset < Start(p, itemSize) + 4
  }

  /** Clearing writes zeros to those four bytes and nothing else. */
  lemma ClearedMeans(memory: map<Address, int>, p: Pointer, itemSize: int, a: Address)
    requires p.Item?
    ensures var after := Cleared(memory, p, itemSize);
            if IsCleared(a, p, itemSize) then a in after && after[a] == 0
            else (a in after <==> a in memory) && (a in memory ==> after[a] == memory[a])
  {
  }

  /** The clearing stays inside its item exactly for items of four bytes or more, and covers it exactly
      for items of four bytes or less; in a smaller item it runs into the next one, or past the block. */
  lemma ClearingFitsIff(p: Pointer, itemSize: int, itemNum: int)
    requires p.Item? && itemSize > 0 && p.index < itemNum
    ensures (forall a :: IsCleared(a, p, itemSize) ==> InItem(a, p, itemSize)) <==> itemSize >= 4
    ensures (forall a :: InItem(a, p, itemSize) ==> IsCleared(a, p, itemSize)) <==> itemSize <= 4
    ensures itemSize < 4 ==>
              var beyond := Address(p.block, Start(p, itemSize) + itemSize);
              && IsCleared(beyond, p, itemSize)
              && if p.index + 1 < itemNum then InItem(beyond, Item(p.block, p.index + 1), itemSize)
                 else beyond.offset == itemNum * itemSize
  {
    var s := Start(p, itemSize);
    OneMore(p.index, itemSize);
    assert IsCleared(Address(p.block, s + 3), p, itemSize);
    assert InItem(Address(p.block, s + itemSize - 1), p, itemSize);
  }

  lemma Apart(i: int, j: int, s: int)
    requires i < j && s > 0
    ensures i * s + s <= j * s
  {
    AtLeastOnce(j - i - 1, s);
    assert j * s == i * s + s + (j - i - 1) * s;
  }

  lemma AtLeastOnce(d: nat, s: nat)
    ensures d * s >= 0
  {
  }

  lemma OneMore(n: int, m: int)
    ensures (n + 1) * m == n * m + m
  {
  }

  /** The items of a new block behind the free list: still no duplicates, and nothing but those items added. */
  lemma NewItems(before: seq<Pointer>, after: seq<Pointer>, block: nat, n: int)
    requires n >= 0 && |after| == |before| + n && before <= after
    requires forall k | 0 <= k < n :: after[|before| + k] == Item(block, k)
    requires forall i, j | 0 <= i < j < |before| :: before[i] != before[j]
    requires forall p | p in before :: p.Item? ==> p.block != block
    ensures forall i, j | 0 <= i < j < |after| :: after[i] != after[j]
    ensures forall p: Pointer :: p in after <==> p in before || (p.Item? && p.block == block && p.index < n)
  {
    forall p: Pointer | p.Item? && p.block == block && p.index < n ensures p in after {
      assert after[|before| + p.index] == p;
    }
    forall i | 0 <= i < |before| ensures after[i] == before[i] && before[i] in before { }
    forall i | 0 <= i < |after|
      ensures after[i] in before || (after[i].Item? && after[i].block == block && after[i].index < n)
    {
      if i >= |before| { assert after[|before| + (i - |before|)] == Item(block, i - |before|); }
    }
    forall i, j | 0 <= i < j < |after| ensures after[i] != after[j] {
      if i >= |before| {
        assert after[|before| + (i - |before|)] == Item(block, i - |before|);
      }
      if j >= |before| {
        assert after[|before| + (j - |before|)] == Item(block, j - |before|);
      }
    }
  }

  lemma TakeFirst(frees: seq<Pointer>, used: set<Pointer>)
    requires frees != [] && (forall p | p in frees :: p !in used)
    requires forall i, j | 0 <= i < j < |frees| :: frees[i] != frees[j]
    ensures forall i, j | 0 <= i < j < |frees[1..]| :: frees[1..][i] != frees[1..][j]
    ensures forall p | p in frees[1..] :: p !in used + {frees[0]}
    ensures forall p :: p in used + {frees[0]} || p in frees[1..] <==> p in used || p in frees
    ensures |used + {frees[0]}| + |frees[1..]| == |used| + |frees|
  {
    assert forall p :: p in frees <==> p == frees[0] || p in frees[1..];
  }

  ghost predicate SameByte(before: map<Address, int>, after: map<Address, int>, a: Address) {
    (a in after <==> a in before) && (a in before ==> after[a] == before[a])
  }

  /** The bytes of the items are what they were. */
  ghost predicate KeepsBytes(before: map<Address, int>, after: map<Address, int>, items: set<Pointer>, itemSize: int) {
    forall q, a | q in items && q.Item? && InItem(a, q, itemSize) :: SameByte(before, after, a)
  }

  class MemPoolItem {
    var itemSize: int
    var itemNumPerPool: int
    var dynamic: bool
    var size: int
    var pools: seq<nat>
    var used: set<Pointer>
    var frees: seq<Pointer>
    var nextBlock: nat           // malloc hands out a new block every time
    var memory: map<Address, int>

    /** A pointer to an item of one of the pools. */
    ghost predicate IsItem(p: Pointer)
      reads this`pools, this`itemNumPerPool
    {
      p.Item? && p.block in pools && p.index < itemNumPerPool
    }

    /** Free items are listed once and not in use; together with the used ones they are all items of
        all pools. */
    ghost predicate Partition()
      reads this`pools, this`itemNumPerPool, this`used, this`frees
    {
      && (forall i, j | 0 <= i < j < |frees| :: frees[i] != frees[j])
      && (forall p | p in frees :: p !in used)
      && (forall p :: p in used || p in frees <==> IsItem(p))
    }

    ghost predicate Valid()
      reads this`pools, this`itemNumPerPool, this`used, this`frees, this`nextBlock, this`size, this`itemSize
    {
      && (forall i, j | 0 <= i < j < |pools| :: pools[i] != pools[j])
      && (forall i | 0 <= i < |pools| :: pools[i] < nextBlock)
      && Partition()
      && |used| + |frees| == size == |pools| * itemNumPerPool
      && itemNumPerPool >= 0 && (pools != [] ==> itemSize > 0 && itemNumPerPool > 0)
    }

    constructor ()
      ensures Valid() && pools == [] && used == {} && frees == [] && memory == map[]
      ensures !dynamic && itemSize == 0 && itemNumPerPool == 0 && size == 0
    {
      itemSize, itemNumPerPool, dynamic, size, pools, used, frees := 0, 0, false, 0, [], {}, [];
      nextBlock, memory := 0, map[];
    }

    /** `extend`: one more block, all its items free; or nothing, when growing is disabled or malloc
        fails. */
    method Extend(mallocSucceeds: bool) returns (rc: int)
      requires Valid() && itemSize > 0 && itemNumPerPool > 0
      modifies this`size, this`pools, this`frees, this`nextBlock
      ensures Valid() && rc == (if dynamic && mallocSucceeds then 0 else -1)
      ensures rc == 0 ==> && pools == old(pools) + [old(nextBlock)] && size == old(size) + itemNumPerPool
                          && old(frees) <= frees && |frees| == |old(frees)| + itemNumPerPool
                          && (forall k | 0 <= k < itemNumPerPool :: frees[|old(frees)| + k] == Item(old(nextBlock), k))
      ensures rc != 0 ==> pools == old(pools) && size == old(size) && frees == old(frees)
    {
      if !dynamic { return -1; }
      if !mallocSucceeds { return -1; }
      ghost var before := frees;
      ItemsAreOld();
      OneMore(|pools|, itemNumPerPool);
      var pool := nextBlock;
      nextBlock := nextBlock + 1;
      pools := pools + [pool];
      size := size + itemNumPerPool;
      var i := 0;
      while i < itemNumPerPool
        invariant 0 <= i <= itemNumPerPool
        invariant |frees| == |before| + i && before <= frees
        invariant forall k | 0 <= k < i :: frees[|before| + k] == Item(pool, k)
        modifies this`frees
      {
        frees := frees + [Item(pool, i)];
        i := i + 1;
      }
      NewItems(before, frees, pool, itemNumPerPool);
      assert forall b :: b in pools <==> b in old(pools) || b == pool;
      rc := 0;
    }

    lemma ItemsAreOld()
      requires Valid()
      ensures forall p | p in used || p in frees :: p.Item? && p.block < nextBlock
    {
      assert forall p | p in used || p in frees :: IsItem(p);
    }

    /** Two items in use never share a byte. */
    lemma LiveItemsApart(p: Pointer, q: Pointer)
      requires Valid() && p in used && q in used && p != q
      ensures p.Item? && q.Item? && !Overlap(p, q, itemSize)
    {
      assert IsItem(p) && IsItem(q);
      ItemsDisjoint(p, q, itemSize, itemNumPerPool);
    }

    /** `cleanup`: no pools, no items. */
    method Cleanup()
      requires Valid()
      modifies this`used, this`frees, this`size, this`pools
      ensures Valid() && pools == [] && used == {} && frees == [] && size == 0
    {
      if pools == [] {
        Empty();
        return;
      }
      used, frees, size, pools := {}, [], 0, [];
    }

    lemma Empty()
      requires Valid() && pools == []
      ensures used == {} && frees == [] && size == 0
    {
    }

    /** `init`: the asked number of blocks, or none when one cannot be had; a second call, or one with
        bad arguments, changes nothing. A failed call leaves growing enabled. */
    method Init(itemSize: int, dynamic: bool, poolNum: int, itemNumPerPool: int, mallocs: seq<bool>) returns (rc: int)
      requires Valid() && poolNum <= |mallocs|
      modifies this
      ensures Valid()
      ensures old(pools) != [] ==> rc == 0 && pools == old(pools) && used == old(used) && frees == old(frees)
                                   && this.itemSize == old(this.itemSize) && this.dynamic == old(this.dynamic)
      ensures old(pools) == [] && (itemSize <= 0 || poolNum <= 0 || itemNumPerPool <= 0) ==> rc == -1 && pools == []
      ensures old(pools) == [] && itemSize > 0 && poolNum > 0 && itemNumPerPool > 0 ==>
                if forall i | 0 <= i < poolNum :: mallocs[i]
                then rc == 0 && |pools| == poolNum && used == {} && |frees| == poolNum * itemNumPerPool
                     && this.dynamic == dynamic && this.itemSize == itemSize && this.itemNumPerPool == itemNumPerPool
                else rc == -1 && pools == [] && this.dynamic
    {
      if pools != [] { return 0; }
      if itemSize <= 0 || poolNum <= 0 || itemNumPerPool <= 0 { return -1; }
      Empty();
      this.itemSize, this.itemNumPerPool, this.dynamic := itemSize, itemNumPerPool, true;
      for i := 0 to poolNum
        invariant Valid() && |pools| == i && used == {} && this.dynamic
        invariant this.itemSize == itemSize && this.itemNumPerPool == itemNumPerPool
        invariant forall k | 0 <= k < i :: mallocs[k]
      {
        rc := Extend(mallocs[i]);
        if rc < 0 {
          Cleanup();
          return -1;
        }
      }
      this.dynamic := dynamic;
      rc := 0;
    }

    /** The part of `alloc` that hands out the oldest free item. */
    method TakeFront() returns (buffer: Pointer)
      requires Valid() && frees != []
      modifies this`used, this`frees
      ensures Valid() && buffer == old(frees)[0] && buffer.Item? && IsItem(buffer) && buffer !in old(used)
      ensures used == old(used) + {buffer} && frees == old(frees)[1..]
    {
      buffer := frees[0];
      assert buffer in frees;
      TakeFirst(frees, used);
      frees := frees[1..];
      used := used + {buffer};
    }

    /** Items of four bytes or more: clearing one leaves the bytes of all others alone. */
    lemma ClearingSparesOthers(p: Pointer, others: set<Pointer>)
      requires Valid() && itemSize >= 4 && p in used && p !in others && others <= used
      ensures IsItem(p) && KeepsBytes(memory, Cleared(memory, p, itemSize), others, itemSize)
    {
      assert IsItem(p);
      forall q, a | q in others && q.Item? && InItem(a, q, itemSize)
        ensures SameByte(memory, Cleared(memory, p, itemSize), a)
      {
        LiveItemsApart(p, q);
        ClearedMeans(memory, p, itemSize, a);
      }
    }

    /** The end of `alloc`: the oldest free item, cleared. */
    method TakeAndClear() returns (buffer: Pointer)
      requires Valid() && frees != []
      modifies this`used, this`frees, this`memory
      ensures Valid() && buffer == old(frees)[0] && buffer.Item? && IsItem(buffer) && buffer !in old(used)
      ensures used == old(used) + {buffer} && frees == old(frees)[1..]
      ensures memory == Cleared(old(memory), buffer, itemSize)
      ensures itemSize >= 4 ==> KeepsBytes(old(memory), memory, old(used), itemSize)
    {
      hide Valid, IsItem, Cleared, KeepsBytes;
      buffer := TakeFront();
      if itemSize >= 4 { ClearingSparesOthers(buffer, old(used)); }
      memory := Cleared(memory, buffer, itemSize);
    }

    /** `alloc`: the oldest free item, after growing when there is none and growing is allowed. Items of
        four bytes or more keep their contents while another one is handed out. */
    method Alloc(mallocSucceeds: bool) returns (r: Option<Pointer>)
      requires Valid() && itemSize > 0 && itemNumPerPool > 0
      modifies this`used, this`frees, this`size, this`pools, this`nextBlock, this`memory
      ensures Valid()
      ensures r.None? <==> old(frees) == [] && !(dynamic && mallocSucceeds)
      ensures r.Some? ==> r.value.Item? && IsItem(r.value) && r.value !in old(used) && used == old(used) + {r.value}
      ensures r.None? ==> used == old(used)
      ensures old(frees) != [] ==> r == Some(old(frees)[0]) && frees == old(frees)[1..]
      ensures memory == if r.Some? then Cleared(old(memory), r.value, itemSize) else old(memory)
      ensures itemSize >= 4 ==> KeepsBytes(old(memory), memory, old(used), itemSize)
    {
      hide Valid, IsItem, Cleared;
      if frees == [] {
        if !dynamic { return None; }
        var rc := Extend(mallocSucceeds);
        if rc < 0 { return None; }
      }
      hide KeepsBytes;
      var buffer := TakeAndClear();
      r := Some(buffer);
    }

    /** `free`: a used item goes to the end of the free list; any other pointer, and one freed already,
        changes nothing. */
    method Free(p: Pointer)
      requires Valid()
      modifies this`used, this`frees
      ensures Valid()
      ensures used == old(used) - {p} && frees == if p in old(used) then old(frees) + [p] else old(frees)
    {
      if p !in used { return; }
      used := used - {p};
      frees := frees + [p];
    }
  }
}
