# memory_pool: a verified model of the three-tier allocator

`memory_pool.hpp` is a small embedded allocator with three tiers:

- **`block_pool`** carves one buffer into `block_count` blocks of
  `block_size` bytes. It keeps the free blocks on an intrusive list: the
  first word of each free block holds the address of the next free block.
- **`pool_set`** is an array of block pools whose block sizes double from 4
  bytes. A request of size 1 to 0xFFFFFFFC goes to the smallest class that
  can hold it, and gets null when there is no such pool. A size of 0, or one
  above 0xFFFFFFFC (it rounds to 0 in u32), goes to no class and gets null.
  The class is found with a branch-free ceiling log2 (`integer_log`) built on
  a SWAR popcount (`bits_set`). Deallocation probes the pools' address
  ranges in order.
- **`fixed_pool<PoolSize>`** is the facade over a static arena of
  `PoolSize` bytes at `frag_buffer`. It offers three strategies:
  - logarithmic: ask the pool set;
  - fixed: bump the cursor `next`;
  - heap: `malloc`.

  A null from the first two falls back on the heap. Deallocation is routed
  by address. An address inside the arena goes to the pool set until the
  facade is released. An address outside the arena goes to `free`.

The model has four modules, one per file:

| file | module | models |
|---|---|---|
| `bits.dfy` | `Bits` | rounding to whole words, `bits_set` and `integer_log` on `bv32`, with reference definitions: popcount, ceiling log2, powers of two |
| `blockpool.dfy` | `BlockPools` | block layout, the free list as a ghost sequence of block indices, and the `BlockPool` class over an `array<nat>` of words (unbounded naturals standing for the source's 32-bit words) |
| `poolset.dfy` | `PoolSets` | size classes and routing, the pools' layout, and the `PoolSet` class over an `array<BlockPool>` |
| `fixedpool.dfy` | `FixedPools` | the arena, the bump cursor, the strategies and the routing, as the `FixedPool` class |

Modelling choices:

- **Addresses** are natural numbers and 0 is null.
- **Request sizes** are `bv32`, because the target is 32-bit: `bytes` in
  `FixedPool.Alloc`, `size` in `PoolSet.Alloc`, and the arguments of
  `RoundUp4` and `IntegerLog`. This makes the wrap-arounds on the request
  path exact:
  - `(size + 3) & ~3` of a size above 0xFFFFFFFC is 0;
  - `integer_log(0) - 2` is 0xFFFFFFFE.

  Block sizes, block counts, the length passed to malloc and all addresses
  are natural numbers. The u32 wrap-arounds of `block_size * block_count` and
  of `block_size <<= 1`, and pointer wrap-around, are not modelled (see
  "## Left out").
- **Buffers are arrays of words.** A block pool's buffer is an
  `array<nat>` of words. A free block's first word holds the link the
  source writes: the byte address of the next free block. The ghost field
  `free` lists the free block indices from the head, and `Valid()` ties it
  to the words in the buffer and to `next_block` and `free_count`.
- **Layout fields are `const`.** The fields `init` sets once (block count,
  buffer, buffer address, end; the pool array, counts and start) are
  `const` fields assigned by the constructors.
- **The heap is not memory here.** `FixedPool.Alloc` takes malloc's answer
  as the parameter `heapAnswer`. Every call the facade makes on the heap,
  `Malloc(bytes, result)` or `Free(addr)`, is appended to the ghost
  `heapLog`.
- **The fixed strategy's history** is kept in the ghost `spans`: every range
  bumped off the arena, in order. `FixedPool.Valid()` keeps them inside
  `[frag_buffer, next)` and keeps each one ending before the next one
  starts. The pool set's array and buffers are among these spans, because
  `init` obtains them from the arena.

## Model

| member | source | states |
|---|---|---|
| Bits.RoundUp4 | memory_pool.hpp:103 | the rounded size is a multiple of four |
| Bits.RoundUp4RoundsUp | memory_pool.hpp:174 | below the wrap point, the rounded size is the least multiple of four not below the request (size <= r <= size + 3) |
| Bits.RoundUp4Wraps | memory_pool.hpp:103 | a request above 0xFFFFFFFC rounds, in u32, to 0 |
| Bits.RoundUp4Idempotent | memory_pool.hpp:174 | rounding twice, once in `fixed_pool::alloc` and once in `pool_set::alloc`, gives the same size as rounding once |
| Bits.BitsSetIsPopcount | memory_pool.hpp:139-148 | `bits_set(x)` equals the number of 1-bits of x, counted one bit at a time per byte |
| Bits.SignTrick | memory_pool.hpp:126-129 | the correction term l is all ones exactly when `x & (x - 1)` is non-zero |
| Bits.SmearFacts | memory_pool.hpp:130-134 | after smearing, `x >> 1` is a low mask u with u < x <= 2u + 1 |
| Bits.PowerIsMaskSucc | memory_pool.hpp:126 | x is a power of two (`x & (x - 1) == 0`) exactly when x is one more than that mask |
| Bits.IntegerLogParts | memory_pool.hpp:136 | `integer_log(x)` is the popcount of the mask for a power of two, and one more otherwise |
| Bits.IntegerLogOfZero | memory_pool.hpp:124-137 | `integer_log(0)` is 0 |
| Bits.IntegerLogIsCeilLog2 | memory_pool.hpp:124-137 | for x != 0, `integer_log(x)` is the k <= 32 with 2^(k-1) < x <= 2^k (64-bit arithmetic) |
| Bits.IntegerLogBounds | memory_pool.hpp:124-137 | the same in unbounded integers: x <= 2^k, and 2^(k-1) < x unless k = 0 |
| Bits.IntegerLogIsLeast | memory_pool.hpp:124-137 | for x != 0 and every k, x <= 2^k exactly when `integer_log(x)` <= k, so it is the least such k |
| BlockPools.BlockAligned | memory_pool.hpp:33 | block j starts j block sizes past the buffer's start (aligned relative to the buffer) |
| BlockPools.BlocksDisjoint | memory_pool.hpp:33 | block i ends at or before block j starts whenever i < j |
| BlockPools.BlockAddressInjective | memory_pool.hpp:33 | distinct blocks have distinct addresses, in both directions |
| BlockPools.BlockInBuffer | memory_pool.hpp:29-30 | block j starts inside the buffer exactly when j < block_count, and then lies wholly inside it |
| BlockPools.BufferWords | memory_pool.hpp:29-30 | a buffer of block_size * block_count bytes is block_count blocks of block_size / 4 words |
| BlockPools.AsWrittenInitOverruns | memory_pool.hpp:32-33 | as written, the link loop's u32 bound for an empty pool is 0xFFFFFFFF, while the empty pool's buffer has no words, so the first write, to word 0, is outside it (see Findings) |
| BlockPools.LinkBlocks | memory_pool.hpp:32-33 | after the loop, every block but the last holds the address of its successor |
| BlockPools.NewBuffer | memory_pool.hpp:29-33 | the buffer has block_size * block_count bytes and carries the links of LinkBlocks |
| BlockPools.AllBlocks | memory_pool.hpp:32-35 | the free list init leaves has block_count entries, entry i naming block i, so the blocks are listed in address order |
| BlockPools.InitialFreeList | memory_pool.hpp:32-35 | the list init builds, blocks 0 to n-1 in address order, is duplicate-free, within range and chained through the buffer |
| BlockPools.PopKeepsList | memory_pool.hpp:47-49 | removing the head keeps the list well formed and chained, and the head's link is the next block's address |
| BlockPools.PushKeepsList | memory_pool.hpp:56-58 | writing the old head into a handed-out block and making it the head keeps the list well formed and chained |
| BlockPools.PopHandsOut | memory_pool.hpp:47-49 | alloc hands out exactly the old head, which was not handed out before |
| BlockPools.PushTakesBack | memory_pool.hpp:56-58 | dealloc takes back exactly the block given, which was handed out |
| BlockPools.AllHandedOut | memory_pool.hpp:45-46 | with the free list empty, all block_count blocks are handed out, which is when alloc returns null |
| BlockPools.HandedOutCount | memory_pool.hpp:49 | the blocks handed out and the free blocks add up to block_count |
| BlockPools.HandedOutLeavesRoom | memory_pool.hpp:55 | while some block is handed out, free_count < block_count, so the assertion of dealloc holds for every block given back |
| BlockPools.BlockPool.constructor | memory_pool.hpp:26-36 | after `init(size, n)`: free_count == n, next_block is the buffer, and the free list holds every block in address order |
| BlockPools.BlockPool.Alloc | memory_pool.hpp:43-51 | null exactly when free_count is 0, and then nothing changes; otherwise the old head is returned, free_count drops by one, the list loses its head, and the block joins the handed-out set |
| BlockPools.BlockPool.Dealloc | memory_pool.hpp:53-59 | free_count rises by one and p becomes the head (so the next alloc returns p); the old list follows it, p leaves the handed-out set, and the buffer changes only in p's first word, which now holds the old head's address |
| BlockPools.BlockPool.Release | memory_pool.hpp:38-41 | hands back the address of block 0, the start of the buffer, which lies in the pool's own range whenever the pool has a block; the pool does not change |
| BlockPools.InRangeOfBlock | memory_pool.hpp:61-64 | `in_range` holds for block j exactly when j < block_count |
| BlockPools.PoolSpan | memory_pool.hpp:30 | end_buffer is the buffer plus block_size * block_count bytes |
| BlockPools.BlockInsideRange | memory_pool.hpp:61-64 | each block lies wholly inside the pool's range |
| PoolSets.PoolIndexOfZero | memory_pool.hpp:103-105 | a request that rounds to 0 gets index 0xFFFFFFFE, which no pool set reaches, so alloc returns null |
| PoolSets.PoolIndexFits | memory_pool.hpp:103-104 | for a non-zero rounded size, the index is at most 30, its class holds the size and the class below does not |
| PoolSets.PoolIndexIsLeast | memory_pool.hpp:103-104 | the chosen class is the least one holding the rounded size, in both directions |
| PoolSets.CarvedGrows | memory_pool.hpp:86-90 | later pools' buffers start no earlier than earlier pools' buffers end |
| PoolSets.OwnerIsUnique | memory_pool.hpp:112-120 | at most one pool's range holds an address |
| PoolSets.MakePools | memory_pool.hpp:86-90 | pool p gets block size 4 * 2^p and blockCounts[p] blocks, its buffer right after pool p - 1's, all blocks free, all pools and buffers distinct |
| PoolSets.NewPool | memory_pool.hpp:88 | pool p is a fresh valid pool with 4 << p byte blocks and block_counts[p] of them, all free; its buffer starts right after the bytes carved for pools 0 .. p-1 and ends right after those carved for pools 0 .. p |
| PoolSets.PoolArray | memory_pool.hpp:85 | the pools array holds the pools made, in order |
| PoolSets.PoolSet.constructor | memory_pool.hpp:81-91 | after `init`: pool_count pools, pool i shaped with block size 4 * 2^i and all its blocks free |
| PoolSets.PoolSet.Alloc | memory_pool.hpp:100-108 | pool integer_log(rounded) - 2 answers with its head block when that pool exists and has one, otherwise null; only that pool changes, by losing the block handed out; every other pool, and a chosen pool with no free block, keeps its list and its next_block |
| PoolSets.PoolSet.AllocFrom | memory_pool.hpp:106 | the chosen pool's head, or null and no change when its list is empty |
| PoolSets.PoolSet.Owner | memory_pool.hpp:112-120 | the first pool whose range holds p, or pool_count when none does |
| PoolSets.PoolSet.PoolRange | memory_pool.hpp:114 | a pool's `in_range` is its slot of the carved layout |
| PoolSets.PoolSet.DeallocTo | memory_pool.hpp:116 | the owning pool takes p back as its new head, and its buffer changes only in p's first word, which now links to the old head; no other pool is touched |
| PoolSets.PoolSet.Dealloc | memory_pool.hpp:110-121 | returns true iff some pool's range holds p; that pool (the only one) gets p at its head, with only p's first word of its buffer rewritten; every other pool keeps its free list and every word of its buffer |
| PoolSets.PoolSet.Release | memory_pool.hpp:93-96 | every pool hands its buffer back, in pool order |
| FixedPools.InOrderConcat | memory_pool.hpp:183-190 | ranges laid out in order in [from, mid), followed by ranges laid out in order in [mid, to), are laid out in order in [from, to) |
| FixedPools.AdjacentInOrder | memory_pool.hpp:86-90 | ranges laid end to end from `from` to `to` lie in order, without overlap, inside [from, to) |
| FixedPools.BufferSpansInOrder | memory_pool.hpp:86-90 | the pools' buffers lie in order, without overlap, inside the bytes the pool set carved |
| FixedPools.InOrderAppend | memory_pool.hpp:159-162 | the ranges laid out so far, one range at the cursor, then ranges laid out after it, are together laid out in order |
| FixedPools.CarvedInOrder | memory_pool.hpp:159-162 | carving the pools array and then the buffers off the cursor keeps the arena's allocations in order |
| FixedPools.ReleasedBuffersInArena | memory_pool.hpp:93-98 | when every pool has a block, every buffer `release` hands back lies inside the arena, so none reaches free |
| FixedPools.WordRounded | memory_pool.hpp:174 | a byte count rounded up to whole words is a multiple of four at most three bytes past the count |
| FixedPools.FixedPool.constructor | memory_pool.hpp:12-14 | the cursor at the start of the arena, not released, an uninitialised pool set, no allocations and no heap calls |
| FixedPools.FixedPool.Init | memory_pool.hpp:159-162 | the pool set gets the block counts; its array, rounded up to whole words, and then its buffers are bumped off the cursor in that order, and all blocks are free |
| FixedPools.FixedPool.Carve | memory_pool.hpp:85-90 | the cursor moves past the array and the buffers, and the ranges stay in order |
| FixedPools.FixedPool.Alloc | memory_pool.hpp:170-213 | logarithmic: the pool set's block, or malloc of the rounded size; fixed: the old cursor, advanced by the rounded size and never past the arena's end, or malloc with the cursor unchanged; heap: malloc; only the pool that hands out a block changes |
| FixedPools.FixedPool.AllocPooled | memory_pool.hpp:176-198 | the pool set's answer, or malloc when the answer is null |
| FixedPools.FixedPool.AllocFixed | memory_pool.hpp:178-198 | the bumped range when the request fits, otherwise malloc with the cursor unchanged |
| FixedPools.FixedPool.FromPools | memory_pool.hpp:177 | the pool set's answer, never null when the chosen pool has a block |
| FixedPools.FixedPool.Bump | memory_pool.hpp:183-190 | the old cursor, with the cursor advanced, when the end stays inside the arena; otherwise null and no change |
| FixedPools.FixedPool.CallMalloc | memory_pool.hpp:197-198 | malloc's answer, with the call recorded |
| FixedPools.FixedPool.Dealloc | memory_pool.hpp:215-226 | outside the arena: one free(p), and no pool and no buffer word changes; inside: never free; offered to the pool set only while not released, and then only the owning pool changes, in its free list and in p's first word; once released, nothing changes |
| FixedPools.FixedPool.PoolBlockInArena | memory_pool.hpp:217-222 | every block of every pool lies inside the arena, so its dealloc never reaches free |
| FixedPools.FixedPool.SpanInArena | memory_pool.hpp:183-190 | every range the fixed strategy handed out lies in the arena; a non-empty one starts inside it, so its dealloc never reaches free |
| FixedPools.FixedPool.Release | memory_pool.hpp:164-168 | released is set, the pool set hands its buffers back, and nothing else changes |

## Left out

- Concurrency of the compare-and-swap loop (memory_pool.hpp:180-191): the model is sequential, so the swap succeeds on the first pass and the loop runs once.
- The debug trace (memory_pool.hpp:200-210): diagnostics only.
- `malloc` and `free`: the heap is an external allocator. Its answer is a parameter of `FixedPool.Alloc`, and the calls are recorded in a ghost log.
- `static_singleton` (singletons.hpp): the pool set is a field of `FixedPool`.
- The definitions of the globals `frag_buffer`, `next`, `released`, `block_counts`, `pool_count` and `debug` are not part of this model. `FixedPool.constructor` takes the arena's start and size, and `FixedPool.Init` takes the block counts.
- Destructors and `delete[]` (memory_pool.hpp:24, :40, :79, :97) are not memory reclamation here. `release` is modelled as handing addresses back. Where `delete` sends them (the global operator in system.hpp) is not part of this model.
- PoolSets.PoolSet.Release: it returns the pools' buffers only. `delete [] pools` (memory_pool.hpp:97) does not hand back the pools array itself, because the set does not record the array's address.
- The size of the pools array (`sizeof(block_pool) * pool_count` plus any array cookie) is the compiler's choice. It is the parameter `arrayBytes` of `FixedPool.Init`, which rounds it up to whole words as the fixed strategy does.
- BlockPools.BlockPool.constructor: it takes the buffer's address from its caller instead of calling placement `new`.
- BlockPools.BlockPool.constructor: it requires block_size to be a positive multiple of four. The pool set only ever passes 4 << i.
- BlockPools.BlockPool.constructor: the u32 overflow of `block_size * block_count` is not modelled.
- PoolSets.PoolSet.constructor: it takes the address of the first buffer, `start`, from its caller.
- PoolSets.PoolSet.constructor: it requires at most 30 pools. At pool 30, `block_size <<= 1` wraps to 0 in u32, which is not modelled.
- FixedPools.FixedPool.Init: it requires the pool set to fit in the arena. When it does not, placement `new` falls back on the heap, and that path is not modelled.
- BlockPools.BlockPool.Dealloc, PoolSets.PoolSet.Dealloc, FixedPools.FixedPool.Dealloc: the address given back must be a block of the owning pool that is currently handed out. The source has undefined behaviour for a double free or an interior pointer, and asserts only `free_count < block_count`.
- BlockPools.BlockAligned: blocks are aligned relative to their buffer only. The pools' buffers are carved back to back from an arena whose cursor moves in 4-byte steps (memory_pool.hpp:85-90, :174), so a block of 8 or more bytes is in general not aligned to its block size in absolute terms, and the model promises no such alignment.
- Bits.SignTrick, Bits.IntegerLog: the `s32 l` of `integer_log` (memory_pool.hpp:126-129) is taken as two's complement. `-l` of 0x80000000 (undefined behaviour in C++) is taken to be 0x80000000, and `l >>= 31` (implementation-defined before C++20) to shift in the sign bit.
- Addresses are unbounded. Pointer wrap-around in `cur_next + alloc_bytes` is not modelled. `size_t` is taken to be 32 bits, as on the target.
- FixedPools.FixedPool.Alloc: nothing is assumed about malloc's answer. The claim that heap memory lies outside the arena, and so goes back to free, is not stated.
- An edge case is modelled but not flagged as a bug. When the arena is exactly full, a zero-byte fixed request, or the buffer of an empty pool, gets the address `frag_buffer + PoolSize`. That address is outside the arena, so dealloc would pass it to free. SpanInArena and ReleasedBuffersInArena state when this cannot happen.

## Findings

| source | as written | input that shows it | evidently intended | confidence | as-written member | corrected member |
|---|---|---|---|---|---|---|
| memory_pool.hpp:32 | `for (u32 block = 0; block < (block_count - 1); ++block)` computes its bound in u32 | `init(block_size, 0)`: the bound is 0xFFFFFFFF, so the loop writes links far past the zero-byte buffer | every block but the last gets a link, and an empty pool gets none (bound `block + 1 < block_count`) | not executed | BlockPools.AsWrittenInitOverruns | BlockPools.LinkBlocks |
