/**
 * The facade of the allocator: `fixed_pool<PoolSize>` hands memory out of a
 * static arena of PoolSize bytes at `frag_buffer`, either from the pool set
 * (the logarithmic strategy), by bumping the cursor `next` (the fixed
 * strategy) or from the heap, and falls back on the heap when the first two
 * come back empty.  Deallocation is routed by address: inside the arena to
 * the pool set (until it is released), outside it to the heap.
 *
 * The heap is not modelled as memory: what malloc answers is a parameter,
 * and every call the facade makes on the heap is recorded in a ghost log.
 */
module FixedPools {
  import opened Bits
  import opened BlockPools
  import opened PoolSets

  /** The strategies of `sys::pool_type`. */
  datatype PoolType = Heap | Fixed | Logarithmic

  /** A call the facade makes on the system heap. */
  datatype HeapCall = Malloc(bytes: nat, result: nat) | Free(addr: nat)

  /** A range of bytes carved off the arena by the bump cursor. */
  datatype Span = Span(addr: nat, len: nat)

  /** The first byte after a span. */
  function End(s: Span): nat
  {
    s.addr + s.len
  }

  /**
   * The spans lie inside [from, to) in address order, each ending before
   * the next one starts, so no two of them overlap.
   */
  ghost predicate InOrderWithin(spans: seq<Span>, from: nat, to: nat)
  {
    (forall i {:trigger spans[i]} :: 0 <= i < |spans| ==> from <= spans[i].addr && End(spans[i]) <= to) &&
    (forall i, k {:trigger spans[i], spans[k]} :: 0 <= i < k < |spans| ==> End(spans[i]) <= spans[k].addr)
  }

  /** Spans laid out in [from, mid) followed by spans laid out in [mid, to) are laid out in [from, to). */
  lemma InOrderConcat(a: seq<Span>, b: seq<Span>, from: nat, mid: nat, to: nat)
    requires InOrderWithin(a, from, mid) && InOrderWithin(b, mid, to) && from <= mid <= to
    ensures InOrderWithin(a + b, from, to)
  {
    var c := a + b;
    forall i | 0 <= i < |c|
      ensures from <= c[i].addr && End(c[i]) <= to
    {
      if i < |a| {
        assert c[i] == a[i];
      } else {
        assert c[i] == b[i - |a|];
      }
    }
    forall i, k | 0 <= i < k < |c|
      ensures End(c[i]) <= c[k].addr
    {
      if k < |a| {
        assert c[i] == a[i] && c[k] == a[k];
      } else if i < |a| {
        assert c[i] == a[i] && c[k] == b[k - |a|];
      } else {
        assert c[i] == b[i - |a|] && c[k] == b[k - |a|];
      }
    }
  }

  /** The byte size of the buffer of pool i. */
  function BufferBytes(counts: seq<nat>, i: nat): nat
    requires i < |counts|
  {
    4 * LinkIndex(counts[i], Pow2(i))
  }

  /**
   * The buffers of the pool set, in pool order, as spans of the arena.  The
   * ensures only repeat the definition; they are kept so that callers need
   * not unfold the comprehension and Carved, which is costly for the solver.
   */
  function BufferSpans(counts: seq<nat>, start: nat): (spans: seq<Span>)
    ensures |spans| == |counts|
    ensures forall i {:trigger spans[i]} :: 0 <= i < |counts| ==>
      spans[i].addr == start + Carved(counts, i) && End(spans[i]) == start + Carved(counts, i + 1)
  {
    seq(|counts|, i requires 0 <= i < |counts| => Span(start + Carved(counts, i), BufferBytes(counts, i)))
  }

  /** Each span starts where the one before it ends. */
  ghost predicate Adjacent(spans: seq<Span>)
  {
    forall i {:trigger spans[i]} :: 0 < i < |spans| ==> End(spans[i - 1]) == spans[i].addr
  }

  /** Of two spans laid end to end, the earlier ends no later than the later begins. */
  lemma {:induction false} AdjacentOrdered(spans: seq<Span>, i: nat, k: nat)
    requires Adjacent(spans) && i < k < |spans|
    ensures End(spans[i]) <= spans[k].addr
    decreases k
  {
    assert End(spans[k - 1]) == spans[k].addr;
    if i < k - 1 {
      AdjacentOrdered(spans, i, k - 1);
    }
  }

  /** Spans laid end to end from `from` to `to` are laid out in order in [from, to). */
  lemma AdjacentInOrder(spans: seq<Span>, from: nat, to: nat)
    requires Adjacent(spans) && |spans| > 0
    requires spans[0].addr == from && End(spans[|spans| - 1]) == to
    ensures InOrderWithin(spans, from, to)
  {
    var last := |spans| - 1;
    forall i | 0 <= i < |spans|
      ensures from <= spans[i].addr && End(spans[i]) <= to
    {
      if 0 < i {
        AdjacentOrdered(spans, 0, i);
      }
      if i < last {
        AdjacentOrdered(spans, i, last);
      }
    }
    forall i, k | 0 <= i < k < |spans|
      ensures End(spans[i]) <= spans[k].addr
    {
      AdjacentOrdered(spans, i, k);
    }
  }

  /** The buffers of a pool set carved from `start` lie in order inside the bytes it carved. */
  lemma BufferSpansInOrder(counts: seq<nat>, start: nat)
    ensures InOrderWithin(BufferSpans(counts, start), start, start + Carved(counts, |counts|))
  {
    var spans := BufferSpans(counts, start);
    if |spans| > 0 {
      assert Adjacent(spans);
      AdjacentInOrder(spans, start, start + Carved(counts, |counts|));
    }
  }

  /** Laid-out spans, then one span at their end, then spans laid out after it, are laid out in order. */
  lemma InOrderAppend(a: seq<Span>, x: Span, b: seq<Span>, from: nat, to: nat, total: nat)
    requires InOrderWithin(a, from, to) && from <= to && x.addr == to
    requires InOrderWithin(b, End(x), total) && End(x) <= total
    ensures InOrderWithin(a + [x] + b, from, total)
  {
    InOrderConcat(a, [x], from, to, End(x));
    InOrderConcat(a + [x], b, from, End(x), total);
  }

  /** Carving the pools array and then the buffers off the end of the laid-out spans keeps them in order. */
  lemma CarvedInOrder(spans: seq<Span>, from: nat, to: nat, arrayBytes: nat, counts: seq<nat>)
    requires InOrderWithin(spans, from, to) && from <= to
    ensures InOrderWithin(spans + [Span(to, arrayBytes)] + BufferSpans(counts, to + arrayBytes),
                          from, to + arrayBytes + Carved(counts, |counts|))
  {
    BufferSpansInOrder(counts, to + arrayBytes);
    InOrderAppend(spans, Span(to, arrayBytes), BufferSpans(counts, to + arrayBytes), from, to, to + arrayBytes + Carved(counts, |counts|));
  }

  /**
   * When every pool has at least one block and the pool set lies in the
   * arena, every buffer `pool_set::release` hands back starts inside the
   * arena, so none of them is routed to the heap.
   */
  lemma ReleasedBuffersInArena(counts: seq<nat>, start: nat, base: nat, size: nat)
    requires base <= start && start + Carved(counts, |counts|) <= base + size
    requires forall i {:trigger counts[i]} :: 0 <= i < |counts| ==> counts[i] > 0
    ensures forall i {:trigger counts[i]} :: 0 <= i < |counts| ==>
      base <= start + Carved(counts, i) < base + size
  {
    forall i | 0 <= i < |counts|
      ensures base <= start + Carved(counts, i) < base + size
    {
      CarvedGrows(counts, i + 1, |counts|);
      LinkIndexBelow(0, counts[i], Pow2(i));
      Pow2Monotone(0, i);
    }
  }

  /**
   * A byte count rounded up to whole words: the rounding of the fixed
   * strategy (memory_pool.hpp:174) for a size far from the top of the u32
   * range, such as that of the pools array.
   */
  function WordRounded(n: nat): (r: nat)
    ensures r % 4 == 0 && n <= r <= n + 3
  {
    (n + 3) / 4 * 4
  }

  class FixedPool {
    /** `frag_buffer`, the first byte of the arena. */
    const base: nat
    /** PoolSize, the arena's length in bytes. */
    const size: nat
    /** The bump cursor `next`. */
    var next: nat
    var released: bool
    /** The pool_set singleton. */
    var poolSet: PoolSet

    /** Every range the cursor carved off, in order. */
    ghost var spans: seq<Span>
    /** Every call made on the heap, in order. */
    ghost var heapLog: seq<HeapCall>

    /** The arena test of `dealloc` (memory_pool.hpp:217). */
    predicate InArena(p: nat)
    {
      base <= p < base + size
    }

    ghost predicate Valid()
      reads this, poolSet, poolSet.Repr
    {
      base >= 1 && base <= next <= base + size &&
      InOrderWithin(spans, base, next) &&
      poolSet.Valid() && this !in poolSet.Repr &&
      base <= poolSet.start && poolSet.start + Carved(poolSet.counts, poolSet.poolCount) <= next
    }

    /**
     * The globals of memory_pool.hpp:12-14 before any allocation: the cursor
     * at the start of the arena, not released, and a pool set that has not
     * been initialised and so has no pools (memory_pool.hpp:78).
     */
    constructor (base: nat, size: nat)
      requires base >= 1
      ensures Valid() && fresh(poolSet.Repr)
      ensures this.base == base && this.size == size && next == base && !released
      ensures poolSet.poolCount == 0 && spans == [] && heapLog == []
    {
      this.base := base;
      this.size := size;
      next := base;
      released := false;
      spans := [];
      heapLog := [];
      poolSet := new PoolSet([], base);
    }

    /**
     * `init` (memory_pool.hpp:159-162): the pool set is initialised with
     * `block_counts`.  Its array of pools (arrayBytes bytes) and then the
     * pools' buffers are carved from the arena by the fixed strategy, so
     * they are bumped off the cursor in that order, the array's size rounded
     * up to whole words as that strategy rounds every request
     * (memory_pool.hpp:174).
     */
    method Init(blockCounts: seq<nat>, arrayBytes: nat)
      requires Valid()
      requires |blockCounts| <= 30
      requires next + WordRounded(arrayBytes) + Carved(blockCounts, |blockCounts|) <= base + size
      modifies this
      ensures Valid() && fresh(poolSet.Repr)
      ensures poolSet.poolCount == |blockCounts| && poolSet.counts == blockCounts
      ensures poolSet.start == old(next) + WordRounded(arrayBytes)
      ensures forall i {:trigger poolSet.pools[i]} :: 0 <= i < poolSet.poolCount ==>
        poolSet.pools[i].free == AllBlocks(blockCounts[i])
      ensures next == old(next) + WordRounded(arrayBytes) + Carved(blockCounts, |blockCounts|)
      ensures spans == old(spans) + [Span(old(next), WordRounded(arrayBytes))] +
        BufferSpans(blockCounts, old(next) + WordRounded(arrayBytes))
      ensures released == old(released) && heapLog == old(heapLog)
    {
      var arrayLen := WordRounded(arrayBytes);
      var first := next + arrayLen;
      var made := new PoolSet(blockCounts, first);
      Carve(blockCounts, arrayLen);
      poolSet := made;
    }

    /** The cursor moves past the pools array and then past each pool's buffer in turn. */
    method Carve(blockCounts: seq<nat>, arrayBytes: nat)
      requires base <= next && InOrderWithin(spans, base, next)
      modifies this
      ensures next == old(next) + arrayBytes + Carved(blockCounts, |blockCounts|)
      ensures spans == old(spans) + [Span(old(next), arrayBytes)] + BufferSpans(blockCounts, old(next) + arrayBytes)
      ensures InOrderWithin(spans, base, next)
      ensures poolSet == old(poolSet) && released == old(released) && heapLog == old(heapLog)
    {
      CarvedInOrder(spans, base, next, arrayBytes, blockCounts);
      spans := spans + [Span(next, arrayBytes)] + BufferSpans(blockCounts, next + arrayBytes);
      next := next + arrayBytes + Carved(blockCounts, |blockCounts|);
    }

    /** The first check of the fixed strategy and its cursor test (memory_pool.hpp:178, :184-185). */
    predicate FitsArena(cursor: nat, len: nat)
    {
      len <= size && cursor + len <= base + size
    }

    /**
     * `alloc` (memory_pool.hpp:170-213) with the compare-and-swap always
     * succeeding.  The request is rounded up to a multiple of four.  The
     * logarithmic strategy asks the pool set; the fixed strategy hands out
     * the cursor and advances it by the rounded size when that stays inside
     * the arena.  A null from either, and every heap request, goes to
     * malloc, whose answer is `heapAnswer`.
     */
    method Alloc(bytes: bv32, kind: PoolType, heapAnswer: nat) returns (p: nat)
      requires Valid()
      modifies this, poolSet.pools[..]
      ensures Valid()
      ensures poolSet == old(poolSet) && released == old(released)
      // logarithmic: the pool set's block, or the heap when it has none
      ensures kind == Logarithmic ==> next == old(next) && spans == old(spans)
      ensures var i := PoolIndex(RoundUp4(bytes));
        kind == Logarithmic ==>
          if i < poolSet.poolCount && old(poolSet.pools[i].free) != [] then
            p == poolSet.BlockOf(i, old(poolSet.pools[i].free[0])) &&
            poolSet.pools[i].free == old(poolSet.pools[i].free[1..]) && heapLog == old(heapLog)
          else
            p == heapAnswer && heapLog == old(heapLog) + [Malloc(RoundUp4(bytes) as int, heapAnswer)]
      ensures forall m {:trigger poolSet.pools[m]} ::
        0 <= m < poolSet.poolCount && kind == Logarithmic && (m != PoolIndex(RoundUp4(bytes)) || old(poolSet.pools[m].free) == []) ==>
          poolSet.pools[m].free == old(poolSet.pools[m].free)
      // fixed: the old cursor, or the heap when the arena is too full
      ensures kind == Fixed ==>
        if FitsArena(old(next), RoundUp4(bytes) as int) then
          p == old(next) && next == old(next) + RoundUp4(bytes) as int &&
          spans == old(spans) + [Span(p, RoundUp4(bytes) as int)] && heapLog == old(heapLog)
        else
          p == heapAnswer && heapLog == old(heapLog) + [Malloc(RoundUp4(bytes) as int, heapAnswer)] &&
          next == old(next) && spans == old(spans)
      // heap: always malloc
      ensures kind == Heap ==>
        p == heapAnswer && heapLog == old(heapLog) + [Malloc(RoundUp4(bytes) as int, heapAnswer)] &&
        next == old(next) && spans == old(spans)
      ensures forall m {:trigger poolSet.pools[m]} :: 0 <= m < poolSet.poolCount && kind != Logarithmic ==>
        poolSet.pools[m].free == old(poolSet.pools[m].free)
    {
      var n := RoundUp4(bytes);
      if kind == Logarithmic {
        RoundUp4Idempotent(bytes);
        p := AllocPooled(n, heapAnswer);
      } else if kind == Fixed {
        p := AllocFixed(n as int, heapAnswer);
      } else {
        p := CallMalloc(n as int, heapAnswer);
      }
    }

    /**
     * The logarithmic strategy (memory_pool.hpp:176-177, :194-198): the pool
     * set's answer for the rounded size, or malloc's when that is null.
     */
    method AllocPooled(n: bv32, heapAnswer: nat) returns (p: nat)
      requires Valid() && RoundUp4(n) == n
      modifies this, poolSet.pools[..]
      ensures Valid()
      ensures poolSet == old(poolSet) && released == old(released) && next == old(next) && spans == old(spans)
      ensures var i := PoolIndex(n);
        if i < poolSet.poolCount && old(poolSet.pools[i].free) != [] then
          p == poolSet.BlockOf(i, old(poolSet.pools[i].free[0])) &&
          poolSet.pools[i].free == old(poolSet.pools[i].free[1..]) && heapLog == old(heapLog)
        else
          p == heapAnswer && heapLog == old(heapLog) + [Malloc(n as int, heapAnswer)]
      ensures forall m {:trigger poolSet.pools[m]} ::
        0 <= m < poolSet.poolCount && (m != PoolIndex(n) || old(poolSet.pools[m].free) == []) ==>
          poolSet.pools[m].free == old(poolSet.pools[m].free)
    {
      p := FromPools(n);
      if p == 0 {
        p := CallMalloc(n as int, heapAnswer);
      }
    }

    /**
     * The fixed strategy (memory_pool.hpp:178-198): one pass of the
     * compare-and-swap loop, the swap succeeding, then malloc when the
     * arena had no room.
     */
    method AllocFixed(len: nat, heapAnswer: nat) returns (p: nat)
      requires Valid()
      modifies this
      ensures Valid()
      ensures poolSet == old(poolSet) && released == old(released)
      ensures if FitsArena(old(next), len) then
          p == old(next) && next == old(next) + len &&
          spans == old(spans) + [Span(p, len)] && heapLog == old(heapLog)
        else
          p == heapAnswer && heapLog == old(heapLog) + [Malloc(len, heapAnswer)] &&
          next == old(next) && spans == old(spans)
    {
      p := 0;
      if len <= size {
        p := Bump(len);
      }
      if p == 0 {
        p := CallMalloc(len, heapAnswer);
      }
    }

    /** `malloc(alloc_bytes)` (memory_pool.hpp:197-198): the heap's answer, with the call logged. */
    method CallMalloc(len: nat, heapAnswer: nat) returns (p: nat)
      requires Valid()
      modifies this
      ensures Valid()
      ensures p == heapAnswer && heapLog == old(heapLog) + [Malloc(len, heapAnswer)]
      ensures poolSet == old(poolSet) && released == old(released) && next == old(next) && spans == old(spans)
    {
      p := heapAnswer;
      heapLog := heapLog + [Malloc(len, heapAnswer)];
    }

    /** The pool set's answer (memory_pool.hpp:177), never null when it has a block. */
    method FromPools(n: bv32) returns (p: nat)
      requires Valid()
      modifies poolSet.pools[..]
      ensures Valid()
      ensures var i := PoolIndex(RoundUp4(n));
        if i < poolSet.poolCount && old(poolSet.pools[i].free) != [] then
          p != 0 && p == poolSet.BlockOf(i, old(poolSet.pools[i].free[0])) &&
          poolSet.pools[i].free == old(poolSet.pools[i].free[1..])
        else p == 0
      ensures forall m {:trigger poolSet.pools[m]} ::
        0 <= m < poolSet.poolCount && (m != PoolIndex(RoundUp4(n)) || old(poolSet.pools[m].free) == []) ==>
          poolSet.pools[m].free == old(poolSet.pools[m].free)
    {
      p := poolSet.Alloc(n);
    }

    /**
     * The cursor test and swap (memory_pool.hpp:183-190): the old cursor is
     * handed out and the cursor moves past the request, unless that would
     * pass the end of the arena.
     */
    method Bump(len: nat) returns (p: nat)
      requires Valid()
      modifies this
      ensures Valid()
      ensures poolSet == old(poolSet) && released == old(released) && heapLog == old(heapLog)
      ensures if old(next) + len <= base + size then
          p == old(next) && p != 0 && next == old(next) + len && spans == old(spans) + [Span(p, len)]
        else
          p == 0 && next == old(next) && spans == old(spans)
    {
      p := 0;
      var curNext := next;
      var nextNext := curNext + len;
      if nextNext <= base + size {
        InOrderConcat(spans, [Span(curNext, len)], base, curNext, nextNext);
        next := nextNext;
        spans := spans + [Span(curNext, len)];
        p := curNext;
      }
    }

    /**
     * `dealloc` (memory_pool.hpp:215-226): an address outside the arena is
     * given to free; one inside is offered to the pool set unless it has
     * been released, and never reaches free.  What the pool set is given
     * must be a block it handed out; only its first word is rewritten, and
     * every other word of every pool stays as it was.
     */
    method Dealloc(p: nat)
      requires Valid()
      requires InArena(p) && !released ==> poolSet.Returnable(p)
      modifies this, poolSet.pools[..], set k | 0 <= k < poolSet.pools.Length :: poolSet.pools[k].buffer
      ensures Valid()
      ensures poolSet == old(poolSet) && released == old(released) && next == old(next) && spans == old(spans)
      ensures if InArena(p) then heapLog == old(heapLog) else heapLog == old(heapLog) + [Free(p)]
      ensures forall k {:trigger poolSet.pools[k]} :: 0 <= k < poolSet.poolCount ==>
        if InArena(p) && !released && InPool(poolSet.counts, poolSet.start, k, p) then
          poolSet.pools[k].free != [] && poolSet.BlockOf(k, poolSet.pools[k].free[0]) == p &&
          poolSet.pools[k].free[1..] == old(poolSet.pools[k].free) &&
          LinkIndex(poolSet.pools[k].free[0], poolSet.pools[k].wordsPerBlock) < poolSet.pools[k].buffer.Length &&
          poolSet.pools[k].buffer[..] ==
            old(poolSet.pools[k].buffer[..])[LinkIndex(poolSet.pools[k].free[0], poolSet.pools[k].wordsPerBlock) := old(poolSet.pools[k].nextBlock)]
        else
          poolSet.pools[k].free == old(poolSet.pools[k].free) && poolSet.pools[k].buffer[..] == old(poolSet.pools[k].buffer[..])
    {
      if InArena(p) {
        if !released {
          var found := poolSet.Dealloc(p);
        }
      } else {
        heapLog := heapLog + [Free(p)];
      }
    }

    /** Every block of every pool lies inside the arena, so its deallocation never reaches free. */
    lemma PoolBlockInArena(i: nat, j: nat)
      requires Valid() && i < poolSet.poolCount && j < poolSet.counts[i]
      ensures InArena(poolSet.BlockOf(i, j))
    {
      CarvedGrows(poolSet.counts, i + 1, poolSet.poolCount);
      Pow2Monotone(0, i);
      BlockInBuffer(poolSet.start + Carved(poolSet.counts, i), Pow2(i), poolSet.counts[i], j);
    }

    /**
     * What the fixed strategy handed out lies inside the arena, and one
     * range of at least one byte starts inside it, so its deallocation
     * never reaches free.
     */
    lemma SpanInArena(k: nat)
      requires Valid() && k < |spans|
      ensures base <= spans[k].addr && End(spans[k]) <= base + size
      ensures spans[k].len > 0 ==> InArena(spans[k].addr)
    {
    }

    /**
     * `release` (memory_pool.hpp:164-168): the facade is marked released and
     * the pool set hands its buffers back; nothing else changes.
     */
    method Release() returns (freed: seq<nat>)
      requires Valid()
      modifies this
      ensures Valid() && released
      ensures poolSet == old(poolSet) && next == old(next) && spans == old(spans) && heapLog == old(heapLog)
      ensures |freed| == poolSet.poolCount
      ensures forall i {:trigger freed[i]} :: 0 <= i < poolSet.poolCount ==>
        freed[i] == poolSet.start + Carved(poolSet.counts, i)
    {
      released := true;
      freed := poolSet.Release();
    }
  }
}
