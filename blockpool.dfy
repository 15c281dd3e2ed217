/**
 * The canonical fixed-size block allocator `block_pool`
 * (memory_pool.hpp:20-72).  A pool owns one buffer of `block_count` blocks
 * of `block_size` bytes and keeps the free blocks on an intrusive list: the
 * first word of each free block holds the address of the next free
 * block, and `next_block` points at the head.
 *
 * Addresses are natural numbers, 0 is the null pointer.  The buffer is an
 * array of words (`u32* buffer` in the source), unbounded naturals standing
 * for u32, whose first word sits
 * at byte address `bufferAddr`; a block's link is the word at its start.
 */
module BlockPools {

  /**
   * j * words, the index of the first word of block j in a buffer whose
   * blocks are `words` words long.  It is written as repeated addition so
   * that the proofs about block layout stay within linear arithmetic.
   */
  function LinkIndex(j: nat, words: nat): nat
  {
    if j == 0 then 0 else LinkIndex(j - 1, words) + words
  }

  /** Byte address of block j in a buffer at `base` whose blocks are `words` words long. */
  function BlockAddress(base: nat, words: nat, j: nat): nat
  {
    base + 4 * LinkIndex(j, words)
  }

  /** LinkIndex is the product it stands for. */
  lemma {:induction false} LinkIndexIsProduct(j: nat, words: nat)
    ensures LinkIndex(j, words) == j * words
  {
    if j > 0 {
      LinkIndexIsProduct(j - 1, words);
    }
  }

  /** Block j ends at or before block n starts when j < n. */
  lemma {:induction false} LinkIndexBelow(j: nat, n: nat, words: nat)
    requires j < n
    ensures LinkIndex(j, words) + words <= LinkIndex(n, words)
    decreases n
  {
    if j + 1 < n {
      LinkIndexBelow(j, n - 1, words);
    }
  }

  /** Blocks follow each other without overlapping: block i ends at or before block j starts. */
  lemma BlocksDisjoint(base: nat, words: nat, i: nat, j: nat)
    requires i < j
    ensures BlockAddress(base, words, i) + 4 * words <= BlockAddress(base, words, j)
  {
    LinkIndexBelow(i, j, words);
  }

  /**
   * Block j starts j block sizes past the buffer's start: blocks are aligned
   * relative to the buffer.  The buffer itself is only word aligned.
   */
  lemma BlockAligned(base: nat, words: nat, j: nat)
    ensures BlockAddress(base, words, j) == base + j * (4 * words)
  {
    LinkIndexIsProduct(j, words);
    assert 4 * (j * words) == j * (4 * words);
  }

  /** Distinct blocks of a pool with non-empty blocks start at distinct words. */
  lemma LinkIndexInjective(i: nat, j: nat, words: nat)
    requires words >= 1
    ensures LinkIndex(i, words) == LinkIndex(j, words) <==> i == j
  {
    if i < j {
      LinkIndexBelow(i, j, words);
    } else if j < i {
      LinkIndexBelow(j, i, words);
    }
  }

  /** Distinct blocks of a pool with non-empty blocks have distinct addresses. */
  lemma BlockAddressInjective(base: nat, words: nat, i: nat, j: nat)
    requires words >= 1
    ensures BlockAddress(base, words, i) == BlockAddress(base, words, j) <==> i == j
  {
    LinkIndexInjective(i, j, words);
  }

  /**
   * Block j starts inside a buffer of n blocks exactly when j < n, and then
   * the whole block lies inside the buffer.
   */
  lemma BlockInBuffer(base: nat, words: nat, n: nat, j: nat)
    requires words >= 1
    ensures BlockAddress(base, words, j) < base + 4 * LinkIndex(n, words) <==> j < n
    ensures j < n ==> BlockAddress(base, words, j) + 4 * words <= base + 4 * LinkIndex(n, words)
  {
    if j < n {
      LinkIndexBelow(j, n, words);
    } else if j > n {
      LinkIndexBelow(n, j, words);
    }
  }

  /** The words of `count` blocks of `size` bytes, size a multiple of four. */
  lemma BufferWords(size: nat, count: nat)
    requires size % 4 == 0
    ensures size * count == 4 * LinkIndex(count, size / 4)
    ensures size * count / 4 == LinkIndex(count, size / 4)
  {
    var w := size / 4;
    LinkIndexIsProduct(count, w);
    assert size == 4 * w;
    assert size * count == 4 * (count * w);
  }

  /**
   * The link-writing loop of `init` as written: `block` runs over u32 while
   * `block < block_count - 1`, so it writes block_count - 1 links, the bound
   * computed in wrapping u32 arithmetic.
   */
  function AsWrittenInitLinks(blockCount: bv32): bv32
  {
    blockCount - 1
  }

  /**
   * For an empty pool the as-written bound wraps: the loop writes 2^32 - 1
   * links into a buffer of no words (LinkIndex(0, words) of them, whatever
   * the block size), and its first write, to word 0 * words = 0, is already
   * outside the buffer.
   */
  lemma AsWrittenInitOverruns(words: nat)
    ensures AsWrittenInitLinks(0) == 0xFFFF_FFFF
    ensures LinkIndex(0, words) == 0 && 0 * words == LinkIndex(0, words)
  {
  }

  /**
   * The number of links the corrected loop `block + 1 < block_count` writes:
   * one per block except the last, none for an empty pool.
   */
  function InitLinks(blockCount: nat): nat
  {
    if blockCount == 0 then 0 else blockCount - 1
  }

  /**
   * The loop of `init` (memory_pool.hpp:32-33) with its bound corrected to
   * `block + 1 < block_count`: the first word of every block but the last
   * receives the address of the following block.
   */
  method LinkBlocks(buffer: array<nat>, base: nat, words: nat, n: nat)
    requires words >= 1 && buffer.Length == LinkIndex(n, words)
    modifies buffer
    ensures forall i :: 0 <= i < InitLinks(n) ==>
      LinkIndex(i, words) < buffer.Length && buffer[LinkIndex(i, words)] == BlockAddress(base, words, i + 1)
  {
    var block := 0;
    while block + 1 < n
      invariant block <= InitLinks(n)
      invariant forall i :: 0 <= i < block ==>
        LinkIndex(i, words) < buffer.Length && buffer[LinkIndex(i, words)] == BlockAddress(base, words, i + 1)
    {
      LinkIndexBelow(block, n, words);
      LinkIndexIsProduct(block, words);
      LinkIndexIsProduct(block + 1, words);
      forall i | 0 <= i < block
        ensures LinkIndex(i, words) != LinkIndex(block, words)
      {
        LinkIndexInjective(i, block, words);
      }
      buffer[block * words] := base + 4 * ((block + 1) * words);
      block := block + 1;
    }
  }

  /**
   * The buffer init takes from the fixed arena, block_size * block_count
   * bytes, with its links written by the corrected loop.
   */
  method NewBuffer(blockSize: nat, blockCount: nat, base: nat) returns (buffer: array<nat>)
    requires blockSize >= 4 && blockSize % 4 == 0
    ensures fresh(buffer)
    ensures 4 * buffer.Length == blockSize * blockCount
    ensures buffer.Length == LinkIndex(blockCount, blockSize / 4)
    ensures forall i :: 0 <= i < InitLinks(blockCount) ==>
      LinkIndex(i, blockSize / 4) < buffer.Length &&
      buffer[LinkIndex(i, blockSize / 4)] == BlockAddress(base, blockSize / 4, i + 1)
  {
    BufferWords(blockSize, blockCount);
    buffer := new nat[blockSize * blockCount / 4];
    LinkBlocks(buffer, base, blockSize / 4, blockCount);
  }

  // ---------------------------------------------------------------------
  // The free list as a value

  /** The free list names blocks of the pool, each at most once. */
  predicate FreeListOk(free: seq<nat>, n: nat)
  {
    (forall i :: 0 <= i < |free| ==> free[i] < n) &&
    (forall i, k :: 0 <= i < k < |free| ==> free[i] != free[k])
  }

  /** Every free block but the last links to its successor on the list. */
  predicate Chained(mem: seq<nat>, base: nat, words: nat, free: seq<nat>)
  {
    forall i :: 0 <= i < |free| - 1 ==>
      LinkIndex(free[i], words) < |mem| && mem[LinkIndex(free[i], words)] == BlockAddress(base, words, free[i + 1])
  }

  /** Every block of a pool of n blocks, in address order: the free list init builds. */
  function AllBlocks(n: nat): (free: seq<nat>)
    ensures |free| == n && forall i :: 0 <= i < n ==> free[i] == i
  {
    if n == 0 then [] else AllBlocks(n - 1) + [n - 1]
  }

  /** The list init builds, every block in address order, is well-formed and chained. */
  lemma InitialFreeList(mem: seq<nat>, base: nat, words: nat, n: nat)
    requires forall i :: 0 <= i < InitLinks(n) ==>
      LinkIndex(i, words) < |mem| && mem[LinkIndex(i, words)] == BlockAddress(base, words, i + 1)
    ensures FreeListOk(AllBlocks(n), n)
    ensures Chained(mem, base, words, AllBlocks(n))
  {
    var free := AllBlocks(n);
    forall i | 0 <= i < |free| - 1
      ensures LinkIndex(free[i], words) < |mem| && mem[LinkIndex(free[i], words)] == BlockAddress(base, words, free[i + 1])
    {
      assert free[i] == i && free[i + 1] == i + 1;
    }
  }

  /**
   * Taking the head off a well-formed chained list leaves a well-formed
   * chained list, and the head's link names the new head.
   */
  lemma PopKeepsList(mem: seq<nat>, base: nat, words: nat, free: seq<nat>, n: nat)
    requires FreeListOk(free, n) && Chained(mem, base, words, free) && |free| > 0
    ensures FreeListOk(free[1..], n) && Chained(mem, base, words, free[1..])
    ensures |free| > 1 ==> mem[LinkIndex(free[0], words)] == BlockAddress(base, words, free[1])
  {
    var rest := free[1..];
    forall i | 0 <= i < |rest| - 1
      ensures LinkIndex(rest[i], words) < |mem| && mem[LinkIndex(rest[i], words)] == BlockAddress(base, words, rest[i + 1])
    {
      assert rest[i] == free[i + 1] && rest[i + 1] == free[i + 2];
    }
  }

  /**
   * Pushing a block that is not on the list, with its link set to the old
   * head, leaves a well-formed chained list.
   */
  lemma PushKeepsList(mem: seq<nat>, base: nat, words: nat, free: seq<nat>, n: nat, j: nat, head: nat)
    requires FreeListOk(free, n) && Chained(mem, base, words, free)
    requires words >= 1 && j < n && j !in free && LinkIndex(j, words) < |mem|
    requires |free| > 0 ==> head == BlockAddress(base, words, free[0])
    ensures FreeListOk([j] + free, n)
    ensures Chained(mem[LinkIndex(j, words) := head], base, words, [j] + free)
  {
    var mem' := mem[LinkIndex(j, words) := head];
    var free' := [j] + free;
    forall i | 0 <= i < |free'| - 1
      ensures LinkIndex(free'[i], words) < |mem'| && mem'[LinkIndex(free'[i], words)] == BlockAddress(base, words, free'[i + 1])
    {
      if i > 0 {
        assert free'[i] == free[i - 1] && free'[i + 1] == free[i];
        LinkIndexInjective(free[i - 1], j, words);
      }
    }
  }

  /** The blocks of a pool of n blocks that are not on the free list. */
  function HandedOut(free: seq<nat>, n: nat): set<nat>
  {
    set j | 0 <= j < n && j !in free
  }

  /** Allocation hands out exactly the old head, which was not out before. */
  lemma PopHandsOut(free: seq<nat>, n: nat)
    requires FreeListOk(free, n) && |free| > 0
    ensures free[0] !in HandedOut(free, n)
    ensures HandedOut(free[1..], n) == HandedOut(free, n) + {free[0]}
  {
    assert free == [free[0]] + free[1..];
  }

  /** Deallocation takes back exactly the block it is given. */
  lemma PushTakesBack(free: seq<nat>, n: nat, j: nat)
    requires j in HandedOut(free, n)
    ensures j !in HandedOut([j] + free, n)
    ensures HandedOut([j] + free, n) == HandedOut(free, n) - {j}
  {
  }

  /** Before anything is handed out the set of blocks out is empty; with an empty free list all n are out. */
  lemma {:induction false} AllHandedOut(n: nat)
    ensures |HandedOut([], n)| == n
  {
    if n > 0 {
      AllHandedOut(n - 1);
      assert HandedOut([], n) == HandedOut([], n - 1) + {n - 1};
    }
  }

  /** The free list and the blocks handed out together account for every block of the pool. */
  lemma {:induction false} HandedOutCount(free: seq<nat>, n: nat)
    requires FreeListOk(free, n)
    ensures |HandedOut(free, n)| + |free| == n
    decreases |free|
  {
    if free == [] {
      AllHandedOut(n);
    } else {
      var rest := free[1..];
      assert free == [free[0]] + rest;
      assert FreeListOk(rest, n);
      HandedOutCount(rest, n);
      assert free[0] in HandedOut(rest, n);
      assert HandedOut(free, n) == HandedOut(rest, n) - {free[0]};
    }
  }

  /** A pool with a block handed out has room on its free list for it to come back. */
  lemma HandedOutLeavesRoom(free: seq<nat>, n: nat, j: nat)
    requires FreeListOk(free, n) && j in HandedOut(free, n)
    ensures |free| < n
  {
    HandedOutCount(free, n);
  }

  class BlockPool {
    const blockCount: nat
    var freeCount: nat
    /** Byte address of the first free block; meaningless once the list is empty. */
    var nextBlock: nat
    /** The pool's memory as words: unbounded naturals standing for u32. */
    const buffer: array<nat>
    /** Byte address of buffer[0]. */
    const bufferAddr: nat
    const endBuffer: nat

    /** block_size >> 2: the length of a block in words. */
    ghost const wordsPerBlock: nat
    /** The indices of the free blocks, in list order from the head. */
    ghost var free: seq<nat>

    ghost function Block(j: nat): nat
    {
      BlockAddress(bufferAddr, wordsPerBlock, j)
    }

    ghost predicate Valid()
      reads this, buffer
    {
      bufferAddr >= 1 && wordsPerBlock >= 1 &&
      buffer.Length == LinkIndex(blockCount, wordsPerBlock) &&
      endBuffer == bufferAddr + 4 * buffer.Length &&
      freeCount == |free| <= blockCount &&
      FreeListOk(free, blockCount) &&
      (|free| > 0 ==> nextBlock == Block(free[0])) &&
      Chained(buffer[..], bufferAddr, wordsPerBlock, free)
    }

    /** The blocks handed out and not yet returned. */
    ghost function Allocated(): set<nat>
      reads this
    {
      HandedOut(free, blockCount)
    }

    /**
     * The default constructor followed by `init(block_size, block_count)`
     * (memory_pool.hpp:23, :26-36), with the buffer's address supplied by
     * the caller.  Every block but the last gets a link to its successor, so
     * the free list runs through the blocks in address order.
     */
    constructor (blockSize: nat, blockCount: nat, bufferAddr: nat)
      requires bufferAddr >= 1 && blockSize >= 4 && blockSize % 4 == 0
      ensures Valid() && fresh(buffer)
      ensures this.blockCount == blockCount && this.bufferAddr == bufferAddr
      ensures wordsPerBlock == blockSize / 4
      ensures freeCount == blockCount && free == AllBlocks(blockCount)
      ensures nextBlock == bufferAddr
    {
      var b := NewBuffer(blockSize, blockCount, bufferAddr);
      this.blockCount := blockCount;
      this.bufferAddr := bufferAddr;
      wordsPerBlock := blockSize / 4;
      buffer := b;
      endBuffer := bufferAddr + blockSize * blockCount;
      new;
      nextBlock := bufferAddr;
      freeCount := blockCount;
      free := AllBlocks(blockCount);
      InitialFreeList(buffer[..], bufferAddr, wordsPerBlock, blockCount);
    }

    /**
     * `alloc` (memory_pool.hpp:43-51): null when no block is free, otherwise
     * the head of the free list, which then moves on to the block the head's
     * link names.
     */
    method Alloc() returns (p: nat)
      requires Valid()
      modifies this
      ensures Valid()
      ensures p == 0 <==> old(freeCount) == 0
      ensures old(freeCount) == 0 ==> free == old(free) && nextBlock == old(nextBlock)
      ensures old(freeCount) > 0 ==> freeCount == old(freeCount) - 1
      ensures old(freeCount) > 0 ==> p == old(Block(free[0])) && free == old(free[1..])
      ensures old(freeCount) > 0 ==>
        old(free[0]) !in old(Allocated()) && Allocated() == old(Allocated()) + {old(free[0])}
    {
      if freeCount == 0 {
        return 0;
      }
      p := nextBlock;
      LinkIndexBelow(free[0], blockCount, wordsPerBlock);
      PopKeepsList(buffer[..], bufferAddr, wordsPerBlock, free, blockCount);
      PopHandsOut(free, blockCount);
      var w := (nextBlock - bufferAddr) / 4;
      assert w == LinkIndex(free[0], wordsPerBlock);
      nextBlock := buffer[w];
      freeCount := freeCount - 1;
      free := free[1..];
    }

    /**
     * `dealloc` (memory_pool.hpp:53-59): the block p goes back on the front
     * of the free list, its first word linking to the old head.  The source
     * asserts free_count < block_count; p must be a block of this pool that
     * is currently handed out.
     */
    method Dealloc(p: nat)
      requires Valid() && freeCount < blockCount
      requires exists j :: j in Allocated() && p == Block(j)
      modifies this, buffer
      ensures Valid()
      ensures freeCount == old(freeCount) + 1 && nextBlock == p
      ensures |free| > 0 && Block(free[0]) == p && free[1..] == old(free)
      ensures free[0] in old(Allocated()) && Allocated() == old(Allocated()) - {free[0]}
      ensures LinkIndex(free[0], wordsPerBlock) < buffer.Length
      ensures buffer[..] == old(buffer[..])[LinkIndex(free[0], wordsPerBlock) := old(nextBlock)]
    {
      ghost var j :| j in Allocated() && p == Block(j);
      LinkIndexBelow(j, blockCount, wordsPerBlock);
      PushKeepsList(buffer[..], bufferAddr, wordsPerBlock, free, blockCount, j, nextBlock);
      PushTakesBack(free, blockCount, j);
      var w := (p - bufferAddr) / 4;
      assert w == LinkIndex(j, wordsPerBlock);
      buffer[w] := nextBlock;
      assert buffer[..] == old(buffer[..])[LinkIndex(j, wordsPerBlock) := old(nextBlock)];
      nextBlock := p;
      freeCount := freeCount + 1;
      free := [j] + free;
    }

    /** `in_range` (memory_pool.hpp:61-64): p lies between the buffer's start and its end. */
    function InRange(p: nat): bool
    {
      p >= bufferAddr && p < endBuffer
    }

    /**
     * `release` (memory_pool.hpp:38-41): hands the buffer back to the
     * allocator it came from and changes nothing in the pool itself.
     */
    method Release() returns (freed: nat)
      requires Valid()
      ensures freed >= 1 && freed == Block(0)
      ensures blockCount > 0 ==> InRange(freed)
    {
      freed := bufferAddr;
      BlockInBuffer(bufferAddr, wordsPerBlock, blockCount, 0);
    }
  }

  /** A valid pool's in_range holds of block j exactly when j is one of its blocks. */
  lemma InRangeOfBlock(b: BlockPool, j: nat)
    requires b.Valid()
    ensures b.InRange(b.Block(j)) <==> j < b.blockCount
  {
    BlockInBuffer(b.bufferAddr, b.wordsPerBlock, b.blockCount, j);
  }

  /** A valid pool spans block_count blocks of block_size bytes, as init computes its end. */
  lemma PoolSpan(b: BlockPool)
    requires b.Valid()
    ensures b.endBuffer == b.bufferAddr + (4 * b.wordsPerBlock) * b.blockCount
  {
    LinkIndexIsProduct(b.blockCount, b.wordsPerBlock);
  }

  /** Every block a valid pool can hand out lies wholly inside its range. */
  lemma BlockInsideRange(b: BlockPool, j: nat)
    requires b.Valid() && j < b.blockCount
    ensures b.InRange(b.Block(j)) && b.Block(j) + 4 * b.wordsPerBlock <= b.endBuffer
  {
    BlockInBuffer(b.bufferAddr, b.wordsPerBlock, b.blockCount, j);
  }

}
