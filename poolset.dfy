/**
 * The pool set `pool_set` (memory_pool.hpp:74-152): an array of block pools
 * whose block sizes double from 4 bytes, a request router that picks the
 * smallest class holding a request, and a deallocator that finds the pool
 * owning an address by probing the pools' ranges in order.
 */
module PoolSets {
  import opened Bits
  import opened BlockPools

  /** Block size in bytes of pool i: 4 << i. */
  function ClassSize(i: nat): nat
  {
    4 * Pow2(i)
  }

  /**
   * The pool `alloc` picks for a request already rounded up to a multiple of
   * four: integer_log of it, less two, in u32.
   */
  function PoolIndex(rounded: bv32): (i: nat)
    ensures i < 0x1_0000_0000
  {
    (IntegerLog(rounded) as int - 2) % 0x1_0000_0000
  }

  /** A request that rounds to zero (size 0, or one that wraps) gets an index no pool set can reach. */
  lemma PoolIndexOfZero()
    ensures PoolIndex(0) == 0xFFFF_FFFE
  {
    IntegerLogOfZero();
  }

  /** A non-zero multiple of four is at least four. */
  lemma RoundedAtLeastFour(r: bv32)
    requires r != 0 && r & 3 == 0
    ensures r as int >= 4
  {
    assert r >= 4;
  }

  /**
   * A rounded size r >= 4 whose ceiling log is k lies in class
   * i = (k - 2) mod 2^32 and not in the class below it.
   */
  lemma ClassOfLog(r: int, k: int, i: int)
    requires r >= 4 && 0 <= k <= 32 && i == (k - 2) % 0x1_0000_0000
    requires r <= Pow2(k) && (k == 0 || Pow2(k - 1) < r)
    ensures i == k - 2 && i <= 30
    ensures r <= ClassSize(i)
    ensures i == 0 || ClassSize(i - 1) < r
  {
    Pow2Monotone(k, 1);
    assert Pow2(1) == 2;
  }

  /**
   * Any other request gets an index of at most 30 whose class holds the
   * rounded size while the class below it does not.
   */
  lemma PoolIndexFits(r: bv32)
    requires r != 0 && r & 3 == 0
    ensures PoolIndex(r) <= 30
    ensures r as int <= ClassSize(PoolIndex(r))
    ensures PoolIndex(r) == 0 || ClassSize(PoolIndex(r) - 1) < r as int
  {
    RoundedAtLeastFour(r);
    IntegerLogBounds(r);
    ClassOfLog(r as int, IntegerLog(r) as int, PoolIndex(r));
  }

  /** A size between class I - 1 and class I fits class i exactly when I <= i. */
  lemma ClassIsLeast(r: int, ci: nat, i: nat)
    requires r <= ClassSize(ci) && (ci == 0 || ClassSize(ci - 1) < r)
    ensures r <= ClassSize(i) <==> ci <= i
  {
    Pow2Monotone(ci, i);
    if ci >= 1 {
      Pow2Monotone(ci - 1, i);
    }
  }

  /** The chosen class is the least one that holds the rounded size. */
  lemma PoolIndexIsLeast(r: bv32, i: nat)
    requires r != 0 && r & 3 == 0
    ensures r as int <= ClassSize(i) <==> PoolIndex(r) <= i
  {
    PoolIndexFits(r);
    ClassIsLeast(r as int, PoolIndex(r), i);
  }

  // ---------------------------------------------------------------------
  // Layout of the pools' buffers

  /** Bytes taken by the buffers of pools 0 .. k-1, pool i holding counts[i] blocks of ClassSize(i) bytes. */
  function Carved(counts: seq<nat>, k: nat): nat
    requires k <= |counts|
  {
    if k == 0 then 0 else Carved(counts, k - 1) + 4 * LinkIndex(counts[k - 1], Pow2(k - 1))
  }

  /** A quarter of four times w is w. */
  lemma QuarterOf(w: nat)
    ensures (4 * w) % 4 == 0 && (4 * w) / 4 == w
  {
  }

  /** Later pools start no earlier than earlier pools end. */
  lemma {:induction false} CarvedGrows(counts: seq<nat>, i: nat, k: nat)
    requires i <= k <= |counts|
    ensures Carved(counts, i) <= Carved(counts, k)
    decreases k
  {
    if i < k {
      CarvedGrows(counts, i, k - 1);
    }
  }

  /** Address p lies in the buffer of pool k of a set laid out from `start`. */
  predicate InPool(counts: seq<nat>, start: nat, k: nat, p: nat)
    requires k < |counts|
  {
    start + Carved(counts, k) <= p < start + Carved(counts, k + 1)
  }

  /** The buffers of distinct pools do not overlap, so at most one pool owns an address. */
  lemma OwnerIsUnique(counts: seq<nat>, start: nat, k: nat, k': nat, p: nat)
    requires k < |counts| && k' < |counts|
    requires InPool(counts, start, k, p) && InPool(counts, start, k', p)
    ensures k == k'
  {
    if k < k' {
      CarvedGrows(counts, k + 1, k');
    } else if k' < k {
      CarvedGrows(counts, k' + 1, k);
    }
  }

  /** Block pool b is pool i of a set laid out from `base`: valid, with 4 << i byte blocks and `count` of them. */
  ghost predicate Shaped(b: BlockPool, i: nat, base: nat, count: nat)
    reads b, b.buffer
  {
    b.Valid() && b.wordsPerBlock == Pow2(i) && b.bufferAddr == base && b.blockCount == count
  }

  /**
   * The loop of `pool_set::init` (memory_pool.hpp:86-90): pool p is
   * initialised with blockCounts[p] blocks of `block_size` bytes, and
   * `block_size` doubles, from 4, after each pool.  Pool p's buffer is the
   * next piece of the arena after pool p - 1's.
   */
  method MakePools(blockCounts: seq<nat>, start: nat) returns (made: seq<BlockPool>, ghost footprint: set<object>)
    requires start >= 1
    ensures |made| == |blockCounts| && fresh(footprint)
    ensures forall i {:trigger made[i]} :: 0 <= i < |made| ==>
      made[i] in footprint && made[i].buffer in footprint &&
      Shaped(made[i], i, start + Carved(blockCounts, i), blockCounts[i]) && made[i].free == AllBlocks(blockCounts[i])
    ensures forall i, k :: 0 <= i < k < |made| ==> made[i] != made[k] && made[i].buffer != made[k].buffer
  {
    var blockSize := 4;
    var addr := start;
    made := [];
    footprint := {};
    var p := 0;
    while p < |blockCounts|
      invariant p <= |blockCounts| && |made| == p && fresh(footprint)
      invariant blockSize == ClassSize(p) && addr == start + Carved(blockCounts, p)
      invariant forall i {:trigger made[i]} :: 0 <= i < p ==>
        made[i] in footprint && made[i].buffer in footprint &&
        Shaped(made[i], i, start + Carved(blockCounts, i), blockCounts[i]) && made[i].free == AllBlocks(blockCounts[i])
      invariant forall i, k :: 0 <= i < k < p ==> made[i] != made[k] && made[i].buffer != made[k].buffer
    {
      var b := NewPool(blockCounts, start, p, blockSize, addr);
      made := made + [b];
      footprint := footprint + {b, b.buffer};
      addr := b.endBuffer;
      blockSize := blockSize * 2;
      p := p + 1;
    }
  }

  /** Pool p of the loop of `pool_set::init` (memory_pool.hpp:88): its blocks are 4 << p bytes, its buffer the next piece of the arena. */
  method NewPool(blockCounts: seq<nat>, start: nat, p: nat, blockSize: nat, addr: nat) returns (b: BlockPool)
    requires start >= 1 && p < |blockCounts|
    requires blockSize == ClassSize(p) && addr == start + Carved(blockCounts, p)
    ensures fresh(b) && fresh(b.buffer)
    ensures Shaped(b, p, addr, blockCounts[p]) && b.free == AllBlocks(blockCounts[p])
    ensures b.endBuffer == start + Carved(blockCounts, p + 1)
  {
    QuarterOf(Pow2(p));
    b := new BlockPool(blockSize, blockCounts[p], addr);
  }

  /** An array holding the pools made, in order. */
  method PoolArray(made: seq<BlockPool>) returns (a: array<BlockPool>)
    ensures fresh(a) && a[..] == made
  {
    a := new BlockPool[|made|](i requires 0 <= i < |made| => made[i]);
  }

  class PoolSet {
    const poolCount: nat
    const pools: array<BlockPool>

    /** The block_counts init was given. */
    ghost const counts: seq<nat>
    /** Address of pool 0's buffer; the others follow it. */
    ghost const start: nat
    /** The pools array, the pools and their buffers. */
    ghost const Repr: set<object>

    ghost predicate Valid()
      reads Repr
    {
      pools in Repr && start >= 1 &&
      poolCount == pools.Length == |counts| && poolCount <= 30 &&
      (forall i {:trigger pools[i]} :: 0 <= i < pools.Length ==>
        pools[i] in Repr && pools[i].buffer in Repr && Shaped(pools[i], i, start + Carved(counts, i), counts[i])) &&
      (forall i, k :: 0 <= i < k < pools.Length ==> pools[i] != pools[k] && pools[i].buffer != pools[k].buffer)
    }

    /**
     * The default constructor followed by `init(block_counts, pool_count)`
     * (memory_pool.hpp:78, :81-91), with the pools' buffers carved from the
     * fixed arena one after another from `start`.
     */
    constructor (blockCounts: seq<nat>, start: nat)
      requires start >= 1 && |blockCounts| <= 30
      ensures Valid() && fresh(Repr)
      ensures poolCount == |blockCounts| && counts == blockCounts && this.start == start
      ensures forall i {:trigger pools[i]} :: 0 <= i < pools.Length ==> pools[i].free == AllBlocks(blockCounts[i])
    {
      var made, footprint := MakePools(blockCounts, start);
      var a := PoolArray(made);
      poolCount := |made|;
      pools := a;
      counts := blockCounts;
      this.start := start;
      Repr := {a} + footprint;
      new;
      forall i {:trigger pools[i]} | 0 <= i < pools.Length
        ensures pools[i] in Repr && pools[i].buffer in Repr
        ensures Shaped(pools[i], i, start + Carved(counts, i), counts[i]) && pools[i].free == AllBlocks(blockCounts[i])
      {
        assert pools[i] == made[i];
      }
      forall i, k | 0 <= i < k < pools.Length
        ensures pools[i] != pools[k] && pools[i].buffer != pools[k].buffer
      {
        assert pools[i] == made[i] && pools[k] == made[k];
      }
    }

    /** The address of block j of pool i. */
    ghost function BlockOf(i: nat, j: nat): nat
      requires i <= |counts|
    {
      BlockAddress(start + Carved(counts, i), Pow2(i), j)
    }

    /**
     * `alloc` (memory_pool.hpp:100-108): the request is rounded up to a
     * multiple of four and sent to pool integer_log(size) - 2 when there is
     * such a pool; the answer is that pool's head block, or null when there
     * is no such pool or it has no free block.  Only that pool changes, and
     * it loses exactly the block handed out.
     */
    method Alloc(size: bv32) returns (p: nat)
      requires Valid()
      modifies pools[..]
      ensures Valid()
      ensures var i := PoolIndex(RoundUp4(size));
        if i < poolCount && old(pools[i].free) != [] then
          p == BlockOf(i, old(pools[i].free[0])) && pools[i].free == old(pools[i].free[1..])
        else
          p == 0
      ensures forall m {:trigger pools[m]} :: 0 <= m < poolCount && (m != PoolIndex(RoundUp4(size)) || old(pools[m].free) == []) ==>
        pools[m].free == old(pools[m].free) && pools[m].nextBlock == old(pools[m].nextBlock)
    {
      var r := RoundUp4(size);
      var i := PoolIndex(r);
      p := 0;
      if i < poolCount {
        p := AllocFrom(i);
      }
    }

    /** Pool i's `alloc`, seen from the set. */
    method AllocFrom(i: nat) returns (p: nat)
      requires Valid() && i < poolCount
      modifies pools[i]
      ensures Valid()
      ensures if old(pools[i].free) != [] then
          p == BlockOf(i, old(pools[i].free[0])) && pools[i].free == old(pools[i].free[1..])
        else
          p == 0 && pools[i].free == old(pools[i].free) && pools[i].nextBlock == old(pools[i].nextBlock)
    {
      p := pools[i].Alloc();
    }

    /** Every pool whose range holds p has p as one of its blocks that is handed out. */
    ghost predicate Returnable(p: nat)
      reads pools, pools[..]
    {
      forall k {:trigger pools[k]} :: 0 <= k < pools.Length && k < |counts| && InPool(counts, start, k, p) ==>
        exists j :: j in pools[k].Allocated() && p == BlockOf(k, j)
    }

    /**
     * `dealloc` (memory_pool.hpp:110-121): the pools are probed in order and
     * the first whose range holds p takes it back; the answer says whether
     * one did.  Whatever the owning pool is given must be one of its blocks
     * that is handed out, as block_pool's dealloc demands.  Only the first
     * word of p changes in its buffer; no other pool changes.
     */
    method Dealloc(p: nat) returns (found: bool)
      requires Valid()
      requires Returnable(p)
      modifies pools[..], set k | 0 <= k < pools.Length :: pools[k].buffer
      ensures Valid()
      ensures found <==> exists k :: 0 <= k < poolCount && InPool(counts, start, k, p)
      ensures forall k {:trigger pools[k]} :: 0 <= k < poolCount && !InPool(counts, start, k, p) ==>
        pools[k].free == old(pools[k].free) && pools[k].buffer[..] == old(pools[k].buffer[..])
      ensures forall k {:trigger pools[k]} :: 0 <= k < poolCount && InPool(counts, start, k, p) ==>
        pools[k].free != [] && BlockOf(k, pools[k].free[0]) == p && pools[k].free[1..] == old(pools[k].free) &&
        LinkIndex(pools[k].free[0], pools[k].wordsPerBlock) < pools[k].buffer.Length &&
        pools[k].buffer[..] == old(pools[k].buffer[..])[LinkIndex(pools[k].free[0], pools[k].wordsPerBlock) := old(pools[k].nextBlock)]
    {
      var k := Owner(p);
      found := k < poolCount;
      if found {
        assert pools[k].Allocated() == old(pools[k].Allocated()) && InPool(counts, start, k, p);
        DistinctFrom(k);
        DeallocTo(k, p);
        forall m | 0 <= m < poolCount && InPool(counts, start, m, p)
          ensures m == k
        {
          OwnerIsUnique(counts, start, m, k, p);
        }
      }
    }

    /**
     * The probing loop of `dealloc` (memory_pool.hpp:112-120): the first
     * pool whose `in_range` holds p, or pool_count when none does.
     */
    method Owner(p: nat) returns (k: nat)
      requires Valid()
      ensures k <= poolCount
      ensures k < poolCount ==> InPool(counts, start, k, p)
      ensures forall m :: 0 <= m < k ==> !InPool(counts, start, m, p)
    {
      k := 0;
      while k < poolCount
        invariant k <= poolCount
        invariant forall m :: 0 <= m < k ==> !InPool(counts, start, m, p)
      {
        PoolRange(k);
        if pools[k].InRange(p) {
          return;
        }
        k := k + 1;
      }
    }

    /** Pool k's range is the piece of the arena InPool describes. */
    lemma PoolRange(k: nat)
      requires Valid() && k < poolCount
      ensures forall q :: pools[k].InRange(q) <==> InPool(counts, start, k, q)
    {
    }

    /** No other pool shares pool k's object or its buffer. */
    lemma DistinctFrom(k: nat)
      requires Valid() && k < poolCount
      ensures forall m {:trigger pools[m]} :: 0 <= m < poolCount && m != k ==> pools[m] != pools[k] && pools[m].buffer != pools[k].buffer
    {
      forall m | 0 <= m < poolCount && m != k
        ensures pools[m] != pools[k] && pools[m].buffer != pools[k].buffer
      {
        if m < k {
          assert pools[m] != pools[k] && pools[m].buffer != pools[k].buffer;
        }
      }
    }

    /** Pool k's `dealloc`, seen from the set. */
    method DeallocTo(k: nat, p: nat)
      requires Valid() && k < poolCount
      requires exists j :: j in pools[k].Allocated() && p == BlockOf(k, j)
      modifies pools[k], pools[k].buffer
      ensures Valid()
      ensures pools[k].free != [] && BlockOf(k, pools[k].free[0]) == p && pools[k].free[1..] == old(pools[k].free)
      ensures LinkIndex(pools[k].free[0], pools[k].wordsPerBlock) < pools[k].buffer.Length
      ensures pools[k].buffer[..] == old(pools[k].buffer[..])[LinkIndex(pools[k].free[0], pools[k].wordsPerBlock) := old(pools[k].nextBlock)]
    {
      var b := pools[k];
      ghost var j :| j in b.Allocated() && p == BlockOf(k, j);
      HandedOutLeavesRoom(b.free, b.blockCount, j);
      DistinctFrom(k);
      b.Dealloc(p);
    }

    /**
     * The loop of `release` (memory_pool.hpp:93-96): every pool hands its
     * buffer back, in pool order; the pools themselves are left as they are.
     */
    method Release() returns (freed: seq<nat>)
      requires Valid()
      ensures |freed| == poolCount
      ensures forall i {:trigger freed[i]} :: 0 <= i < poolCount ==> freed[i] == start + Carved(counts, i)
    {
      freed := [];
      var pool := 0;
      while pool < poolCount
        invariant pool <= poolCount && |freed| == pool
        invariant forall i {:trigger freed[i]} :: 0 <= i < pool ==> freed[i] == start + Carved(counts, i)
      {
        var q := pools[pool].Release();
        freed := freed + [q];
        pool := pool + 1;
      }
    }
  }
}
