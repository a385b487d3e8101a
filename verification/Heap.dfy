/** sbrk: the bump allocator under the profiler and malloc, in 32-bit pointer arithmetic. */
module Heap {
  import opened Common

  /** A heap limit below which no request of an int can wrap a pointer. */
  const SAFE_LIMIT := 0x8000_0000

  datatype Block = Block(addr: nat, size: nat)

  /** (heap_end + 3) & ~3 */
  function AlignUp(a: nat): (r: nat)
    requires a < WRAP
    ensures r % 4 == 0 && r < WRAP
    ensures a <= WRAP - 4 ==> a <= r < a + 4
  {
    ((a + 3) % WRAP) / 4 * 4
  }

  /** ALT_SBRK: the new heap end, and the block's address or None for (caddr_t)-1. */
  function Sbrk(heapEnd: nat, limit: nat, incr: int): (r: (nat, Option<nat>))
    requires heapEnd < WRAP
    ensures r.0 < WRAP
  {
    var base := AlignUp(heapEnd);
    var next := (base + incr) % WRAP;
    if next > limit then (base, None) else (next, Some(base))
  }

  predicate Wraps(heapEnd: nat, incr: nat)
    requires heapEnd < WRAP
  {
    AlignUp(heapEnd) + incr >= WRAP
  }

  /** A successful request of a non-negative size gets exactly that many bytes if and only if the
      pointer sum does not wrap. */
  lemma SbrkSizeExact(heapEnd: nat, limit: nat, incr: nat)
    requires heapEnd < WRAP && incr < 0x8000_0000 && Sbrk(heapEnd, limit, incr).1.Some?
    ensures var (next, block) := Sbrk(heapEnd, limit, incr);
            next == block.value + incr <==> !Wraps(heapEnd, incr)
  {
  }

  /** A request that wraps no pointer, of a positive or negative size, is granted exactly if the new
      heap end lies within the limit; it then starts at the old end, rounded up, and otherwise the
      end is only rounded up. */
  lemma SbrkGrants(heapEnd: nat, limit: nat, incr: int)
    requires heapEnd < WRAP && 0 <= AlignUp(heapEnd) + incr < WRAP
    ensures var base := AlignUp(heapEnd);
            Sbrk(heapEnd, limit, incr) == if base + incr <= limit then (base + incr, Some(base)) else (base, None)
  {
  }

  /** Giving the bytes of the last request back restores the heap end exactly if their number is a
      multiple of four. */
  lemma ShrinkUndoesGrow(heapEnd: nat, limit: nat, incr: int)
    requires heapEnd <= WRAP - 4 && limit <= WRAP - 4 && 0 <= incr < 0x8000_0000
    requires Sbrk(heapEnd, limit, incr).1.Some? && !Wraps(heapEnd, incr)
    ensures Sbrk(Sbrk(heapEnd, limit, incr).0, limit, -incr).0 == AlignUp(heapEnd) <==> incr % 4 == 0
  {
    hide Sbrk, AlignUp;
    var base := AlignUp(heapEnd);
    SbrkGrants(heapEnd, limit, incr);
    SbrkGrants(base + incr, limit, -incr);
    AlignedAlready(base + incr);
    SumOfMultiple(base, incr);
  }

  lemma AlignedAlready(a: nat)
    requires a <= WRAP - 4
    ensures AlignUp(a) == a <==> a % 4 == 0
  {
  }

  lemma SumOfMultiple(a: int, b: int)
    requires a % 4 == 0
    ensures (a + b) % 4 == 0 <==> b % 4 == 0
  {
  }

  /** The blocks a sequence of requests obtains, oldest first; failed requests obtain none. */
  function Blocks(heapEnd: nat, limit: nat, sizes: seq<nat>): seq<Block>
    requires heapEnd < WRAP
    decreases |sizes|
  {
    if sizes == [] then []
    else
      var (next, block) := Sbrk(heapEnd, limit, sizes[0]);
      (if block.Some? then [Block(block.value, sizes[0])] else []) + Blocks(next, limit, sizes[1..])
  }

  predicate Sizes(sizes: seq<nat>) {
    forall i :: 0 <= i < |sizes| ==> sizes[i] < 0x8000_0000
  }

  /** Blocks lie in order between two addresses, word-aligned and without overlap. */
  predicate Ordered(bs: seq<Block>, low: nat, high: nat) {
    && (forall i {:trigger bs[i]} :: 0 <= i < |bs| ==>
          bs[i].addr % 4 == 0 && low <= bs[i].addr && bs[i].addr + bs[i].size <= high)
    && (forall i, j :: 0 <= i < j < |bs| ==> bs[i].addr + bs[i].size <= bs[j].addr)
  }

  lemma OrderedAligned(bs: seq<Block>, low: nat, high: nat)
    requires low < WRAP && AlignUp(low) >= low
    ensures Ordered(bs, low, high) <==> Ordered(bs, AlignUp(low), high)
  {
    if Ordered(bs, low, high) {
      forall i | 0 <= i < |bs|
        ensures AlignUp(low) <= bs[i].addr
      {
        NextMultiple(low, bs[i].addr);
      }
    }
  }

  lemma NextMultiple(low: nat, a: nat)
    requires low < WRAP && AlignUp(low) >= low && low <= a && a % 4 == 0
    ensures AlignUp(low) <= a
  {
  }

  lemma OrderedCons(b: Block, bs: seq<Block>, low: nat, high: nat)
    requires b.addr % 4 == 0 && low <= b.addr && b.addr + b.size <= high
    ensures Ordered([b] + bs, low, high) <==> Ordered(bs, b.addr + b.size, high)
  {
    var all := [b] + bs;
    assert forall i {:trigger all[i]} :: 0 < i < |all| ==> all[i] == bs[i - 1];
    if Ordered(all, low, high) {
      forall i {:trigger bs[i]} | 0 <= i < |bs|
        ensures bs[i].addr % 4 == 0 && b.addr + b.size <= bs[i].addr && bs[i].addr + bs[i].size <= high
      {
        assert bs[i] == all[i + 1] && all[0] == b;
      }
      forall i, j | 0 <= i < j < |bs|
        ensures bs[i].addr + bs[i].size <= bs[j].addr
      {
        assert bs[i] == all[i + 1] && bs[j] == all[j + 1];
      }
    }
  }

  lemma OrderedNone(low: nat, high: nat)
    ensures Ordered([], low, high)
  {
  }

  /** In a run of requests no rounding wraps, nor the sum of a request that succeeds. */
  predicate NeverWraps(heapEnd: nat, limit: nat, sizes: seq<nat>)
    requires heapEnd < WRAP
    decreases |sizes|
  {
    sizes == [] ||
    (var (next, block) := Sbrk(heapEnd, limit, sizes[0]);
     AlignUp(heapEnd) >= heapEnd && (block.Some? ==> !Wraps(heapEnd, sizes[0])) && NeverWraps(next, limit, sizes[1..]))
  }

  lemma SbrkStep(heapEnd: nat, limit: nat, incr: nat)
    requires heapEnd < WRAP && AlignUp(heapEnd) >= heapEnd
    ensures var (next, block) := Sbrk(heapEnd, limit, incr);
            && (block.None? ==> next == AlignUp(heapEnd))
            && (block.Some? ==> block.value == AlignUp(heapEnd) && block.value % 4 == 0)
            && (block.Some? && !Wraps(heapEnd, incr) ==> next == block.value + incr <= limit)
            && (heapEnd <= SAFE_LIMIT && limit <= SAFE_LIMIT ==> next <= SAFE_LIMIT)
            && (limit <= WRAP - 4 ==> next <= WRAP - 4)
  {
  }

  /** Over any sequence of requests, if no pointer wraps then the blocks are word-aligned, inside
      the heap, and each lies above the one before it; and only then, below the last word of the
      address space. */
  lemma {:induction false} BlocksDisjoint(heapEnd: nat, limit: nat, sizes: seq<nat>)
    requires heapEnd < WRAP && limit < WRAP
    ensures NeverWraps(heapEnd, limit, sizes) ==> Ordered(Blocks(heapEnd, limit, sizes), heapEnd, limit)
    ensures heapEnd <= WRAP - 4 && limit <= WRAP - 4 && Ordered(Blocks(heapEnd, limit, sizes), heapEnd, limit) ==>
              NeverWraps(heapEnd, limit, sizes)
    decreases |sizes|
  {
    hide Sbrk, Ordered, AlignUp;
    if sizes == [] {
      OrderedNone(heapEnd, limit);
    } else if AlignUp(heapEnd) >= heapEnd {
      SbrkStep(heapEnd, limit, sizes[0]);
      var (next, block) := Sbrk(heapEnd, limit, sizes[0]);
      BlocksDisjoint(next, limit, sizes[1..]);
      var rest := Blocks(next, limit, sizes[1..]);
      if block.None? {
        assert [] + rest == rest;
        OrderedAligned(rest, heapEnd, limit);
      } else if Wraps(heapEnd, sizes[0]) {
        Outside(Blocks(heapEnd, limit, sizes), 0, heapEnd, limit);
      } else {
        OrderedCons(Block(block.value, sizes[0]), rest, heapEnd, limit);
      }
    }
  }

  lemma {:induction false} SafeNeverWraps(heapEnd: nat, limit: nat, sizes: seq<nat>)
    requires heapEnd <= SAFE_LIMIT && limit <= SAFE_LIMIT && Sizes(sizes)
    ensures NeverWraps(heapEnd, limit, sizes)
    decreases |sizes|
  {
    if sizes != [] {
      assert AlignUp(heapEnd) <= SAFE_LIMIT;
      SbrkStep(heapEnd, limit, sizes[0]);
      SafeNeverWraps(Sbrk(heapEnd, limit, sizes[0]).0, limit, sizes[1..]);
    }
  }

  /** From any heap end, all sequences of requests of ints get such blocks if and only if the heap
      limit is at most the middle of the address space. */
  lemma SafeLimitExact(heapEnd: nat, limit: nat)
    requires heapEnd <= limit < WRAP
    ensures limit <= SAFE_LIMIT <==>
            forall sizes {:trigger Blocks(heapEnd, limit, sizes)} ::
              Sizes(sizes) ==> Ordered(Blocks(heapEnd, limit, sizes), heapEnd, limit)
  {
    hide Ordered, Sbrk, AlignUp;
    if limit <= SAFE_LIMIT {
      forall sizes {:trigger Blocks(heapEnd, limit, sizes)} | Sizes(sizes)
        ensures Ordered(Blocks(heapEnd, limit, sizes), heapEnd, limit)
      {
        SafeNeverWraps(heapEnd, limit, sizes);
        BlocksDisjoint(heapEnd, limit, sizes);
      }
    } else {
      var sizes := Overflowing(heapEnd, limit);
      assert !Ordered(Blocks(heapEnd, limit, sizes), heapEnd, limit);
    }
  }

  const BIG: nat := 0x7FFF_FFFF
  const MIDDLE: nat := SAFE_LIMIT + 1

  /** Requests that make the heap of a larger limit wrap. */
  lemma Overflowing(heapEnd: nat, limit: nat) returns (sizes: seq<nat>)
    requires heapEnd <= limit < WRAP && limit > SAFE_LIMIT
    ensures Sizes(sizes) && !Ordered(Blocks(heapEnd, limit, sizes), heapEnd, limit)
  {
    hide Sbrk, AlignUp, Blocks, Ordered;
    var base := AlignUp(heapEnd);
    if heapEnd > WRAP - 4 {
      sizes := [4];
      AtTheTop(heapEnd, limit);
    } else if heapEnd > SAFE_LIMIT {
      sizes := [BIG];
      PastTheMiddle(heapEnd, limit);
      Outside(Blocks(heapEnd, limit, [BIG]), 0, heapEnd, limit);
    } else {
      PastTheMiddle(MIDDLE, limit);
      if base > 0 {
        sizes := [MIDDLE - base, BIG];
        ToTheMiddle(heapEnd, limit);
        Outside(Blocks(heapEnd, limit, sizes), 1, heapEnd, limit);
      } else {
        sizes := [4, MIDDLE - 4, BIG];
        assert Sbrk(heapEnd, limit, 4) == (4, Some(0)) by { FromZero(heapEnd, limit); }
        OneBlock(heapEnd, limit, 4, [MIDDLE - 4, BIG]);
        ToTheMiddle(4, limit);
        assert sizes == [4] + [MIDDLE - 4, BIG];
        Outside(Blocks(heapEnd, limit, sizes), 2, heapEnd, limit);
      }
    }
  }

  lemma Outside(bs: seq<Block>, i: nat, low: nat, high: nat)
    requires i < |bs| && bs[i].addr + bs[i].size > high
    ensures !Ordered(bs, low, high)
  {
  }

  lemma FromZero(heapEnd: nat, limit: nat)
    requires heapEnd <= SAFE_LIMIT < limit && AlignUp(heapEnd) == 0
    ensures Sbrk(heapEnd, limit, 4) == (4, Some(0))
  {
  }

  lemma AtTheTop(heapEnd: nat, limit: nat)
    requires WRAP - 4 < heapEnd <= limit < WRAP
    ensures !Ordered(Blocks(heapEnd, limit, [4]), heapEnd, limit)
  {
    OneBlock(heapEnd, limit, 4, []);
    assert Blocks(heapEnd, limit, [4])[0].addr == 0;
  }

  lemma PastTheMiddle(heapEnd: nat, limit: nat)
    requires SAFE_LIMIT < heapEnd <= WRAP - 4 && heapEnd <= limit < WRAP
    ensures Blocks(heapEnd, limit, [BIG]) == [Block(AlignUp(heapEnd), BIG)]
    ensures AlignUp(heapEnd) + BIG > limit
  {
    OneBlock(heapEnd, limit, BIG, []);
  }

  lemma ToTheMiddle(heapEnd: nat, limit: nat)
    requires heapEnd <= SAFE_LIMIT < limit < WRAP && AlignUp(heapEnd) > 0
    ensures 0 < MIDDLE - AlignUp(heapEnd) < 0x8000_0000
    ensures Blocks(heapEnd, limit, [MIDDLE - AlignUp(heapEnd), BIG])
         == [Block(AlignUp(heapEnd), MIDDLE - AlignUp(heapEnd))] + Blocks(MIDDLE, limit, [BIG])
    ensures AlignUp(4) == 4
  {
    OneBlock(heapEnd, limit, MIDDLE - AlignUp(heapEnd), [BIG]);
  }

  lemma OneBlock(heapEnd: nat, limit: nat, size: nat, rest: seq<nat>)
    requires heapEnd < WRAP && Sbrk(heapEnd, limit, size).1.Some?
    ensures Blocks(heapEnd, limit, [size] + rest)
         == [Block(AlignUp(heapEnd), size)] + Blocks(Sbrk(heapEnd, limit, size).0, limit, rest)
  {
    assert ([size] + rest)[1..] == rest;
  }
}
