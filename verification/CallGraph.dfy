/** The profiler's call graph: records carved from slabs obtained with sbrk, linked into one list
    of functions per hash bucket and one list of arcs per function. */
module CallGraph {
  import opened Common
  import opened Heap

  const RECORD_SIZE: nat := 12
  const MCOUNT_SLAB_INCREMENT: nat := 1020
  const HASH_BUCKETS: nat := 64

  /** mcount_fn_entry and mcount_fn_arc; link 0 is NULL. */
  datatype Record =
    | FnEntry(next: nat, selfPc: nat, arcHead: nat)
    | FnArc(next: nat, fromPc: nat, count: nat)

  type Memory = map<nat, Record>

  /** Storing a record destroys every record it overlaps. */
  function Store(mem: Memory, a: nat, r: Record): Memory {
    (map k | k in mem && (k + RECORD_SIZE <= a || a + RECORD_SIZE <= k || k == a) :: mem[k])[a := r]
  }

  /** The records linked from `head` are those at `list`, in order, and the last link is NULL. */
  predicate Chain(mem: Memory, head: nat, list: seq<nat>)
    decreases |list|
  {
    if list == [] then head == 0
    else head != 0 && head == list[0] && head in mem && Chain(mem, mem[head].next, list[1..])
  }

  /** The records lie below an address and do not overlap. */
  predicate Packed(mem: Memory, top: nat) {
    && (forall a :: a in mem ==> 0 < a && a + RECORD_SIZE <= top)
    && (forall a, b :: a in mem && b in mem && a < b ==> a + RECORD_SIZE <= b)
  }

  lemma PackedAbove(mem: Memory, a: nat, r: Record)
    requires Packed(mem, a) && a > 0
    ensures Packed(mem[a := r], a + RECORD_SIZE) && Store(mem, a, r) == mem[a := r]
    ensures a !in mem
  {
  }

  lemma PackedAt(mem: Memory, top: nat, a: nat, r: Record)
    requires Packed(mem, top) && a in mem
    ensures Packed(mem[a := r], top) && Store(mem, a, r) == mem[a := r]
  {
  }

  /** The links of a list are what they were. */
  predicate SameLinks(mem: Memory, mem': Memory, list: seq<nat>) {
    forall x :: x in list && x in mem ==> x in mem' && mem'[x].next == mem[x].next
  }

  lemma {:induction false} ChainKept(mem: Memory, mem': Memory, head: nat, list: seq<nat>)
    requires Chain(mem, head, list) && SameLinks(mem, mem', list)
    ensures Chain(mem', head, list)
    decreases |list|
  {
    if list != [] {
      assert list[0] in list;
      assert forall x :: x in list[1..] ==> x in list;
      ChainKept(mem, mem', mem[head].next, list[1..]);
    }
  }

  // ---------------------------------------------------------------- the lists in memory

  ghost predicate IsArcList(mem: Memory, head: nat, list: seq<nat>) {
    Chain(mem, head, list) && Distinct(list) && forall x :: x in list ==> x in mem && mem[x].FnArc?
  }

  ghost predicate IsFnList(mem: Memory, head: nat, list: seq<nat>) {
    Chain(mem, head, list) && Distinct(list) && forall x :: x in list ==> x in mem && mem[x].FnEntry?
  }

  /** The addresses on each bucket's list, and on the list of each function. */
  datatype Lists = Lists(fns: seq<seq<nat>>, arcs: map<nat, seq<nat>>)

  ghost predicate FnsLinked(mem: Memory, heads: seq<nat>, fns: seq<seq<nat>>) {
    && |heads| == |fns|
    && (forall b :: 0 <= b < |fns| ==> IsFnList(mem, heads[b], fns[b]))
    && (forall b, c, x :: 0 <= b < c < |fns| && x in fns[b] ==> x !in fns[c])
  }

  ghost predicate ArcsLinked(mem: Memory, arcs: map<nat, seq<nat>>) {
    forall a :: a in mem && mem[a].FnEntry? ==> a in arcs && IsArcList(mem, mem[a].arcHead, arcs[a])
  }

  ghost predicate Linked(mem: Memory, heads: seq<nat>, ls: Lists) {
    FnsLinked(mem, heads, ls.fns) && ArcsLinked(mem, ls.arcs)
  }

  // ---------------------------------------------------------------- the abstract graph

  datatype Arc = Arc(fromPc: nat, count: nat)
  datatype Fn = Fn(selfPc: nat, arcs: seq<Arc>)
  type Graph = seq<seq<Fn>>

  ghost function ArcsAt(mem: Memory, list: seq<nat>): (r: seq<Arc>)
    requires forall x :: x in list ==> x in mem && mem[x].FnArc?
    ensures |r| == |list|
  {
    seq(|list|, i requires 0 <= i < |list| => assert list[i] in list; Arc(mem[list[i]].fromPc, mem[list[i]].count))
  }

  ghost predicate FnReadable(mem: Memory, arcs: map<nat, seq<nat>>, a: nat) {
    a in mem && mem[a].FnEntry? && a in arcs && IsArcList(mem, mem[a].arcHead, arcs[a])
  }

  /** A function of the graph, read from its entry. */
  ghost function FnAt(mem: Memory, arcs: map<nat, seq<nat>>, a: nat): Fn
    requires FnReadable(mem, arcs, a)
  {
    Fn(mem[a].selfPc, ArcsAt(mem, arcs[a]))
  }

  /** A bucket's functions, first to last. */
  ghost function FnsAt(mem: Memory, arcs: map<nat, seq<nat>>, list: seq<nat>): (r: seq<Fn>)
    requires forall x :: x in list ==> FnReadable(mem, arcs, x)
    ensures |r| == |list|
  {
    seq(|list|, i requires 0 <= i < |list| => assert list[i] in list; FnAt(mem, arcs, list[i]))
  }

  ghost function GraphOf(mem: Memory, heads: seq<nat>, ls: Lists): (r: Graph)
    requires Linked(mem, heads, ls)
    ensures |r| == |ls.fns|
  {
    seq(|ls.fns|, b requires 0 <= b < |ls.fns| => FnsAt(mem, ls.arcs, ls.fns[b]))
  }

  /** A function without arcs is put first in a bucket. */
  function WithFn(g: Graph, b: nat, selfPc: nat): (r: Graph)
    requires b < |g|
    ensures |r| == |g| && |r[b]| == |g[b]| + 1
  {
    g[b := [Fn(selfPc, [])] + g[b]]
  }

  /** An arc taken once is put first on a function. */
  function WithArc(g: Graph, b: nat, k: nat, fromPc: nat): Graph
    requires b < |g| && k < |g[b]|
  {
    g[b := g[b][k := g[b][k].(arcs := [Arc(fromPc, 1)] + g[b][k].arcs)]]
  }

  // ---------------------------------------------------------------- the two list updates

  lemma FrameArcs(mem: Memory, mem': Memory, head: nat, list: seq<nat>)
    requires IsArcList(mem, head, list)
    requires forall x :: x in list ==> x in mem' && mem'[x] == mem[x]
    ensures IsArcList(mem', head, list) && ArcsAt(mem', list) == ArcsAt(mem, list)
  {
    ChainKept(mem, mem', head, list);
  }

  lemma FrameFn(mem: Memory, mem': Memory, arcs: map<nat, seq<nat>>, arcs': map<nat, seq<nat>>, a: nat)
    requires FnReadable(mem, arcs, a)
    requires a in mem' && mem'[a] == mem[a] && a in arcs' && arcs'[a] == arcs[a]
    requires forall x :: x in arcs[a] ==> x in mem' && mem'[x] == mem[x]
    ensures FnReadable(mem', arcs', a) && FnAt(mem', arcs', a) == FnAt(mem, arcs, a)
  {
    FrameArcs(mem, mem', mem[a].arcHead, arcs[a]);
  }

  lemma FrameFns(mem: Memory, mem': Memory, head: nat, list: seq<nat>)
    requires IsFnList(mem, head, list)
    requires forall x :: x in list ==> x in mem' && mem'[x].FnEntry? && mem'[x].next == mem[x].next
    ensures IsFnList(mem', head, list)
  {
    ChainKept(mem, mem', head, list);
  }

  /** The memory, the heads and the lists after a function entry has been put first in a bucket. */
  function FnStored(mem: Memory, next: nat, fn: nat, selfPc: nat): Memory {
    mem[fn := FnEntry(next, selfPc, 0)]
  }

  ghost function FnListed(ls: Lists, b: nat, fn: nat): Lists
    requires b < |ls.fns|
  {
    Lists(ls.fns[b := [fn] + ls.fns[b]], ls.arcs[fn := []])
  }

  lemma FnFirst(mem: Memory, head: nat, list: seq<nat>, next: nat, fn: nat, selfPc: nat)
    requires IsFnList(mem, head, list) && fn != 0 && fn !in mem
    ensures var mem' := FnStored(mem, next, fn, selfPc);
            && fn !in list
            && IsFnList(mem', head, list)
            && (next == head ==> IsFnList(mem', fn, [fn] + list))
  {
    FrameFns(mem, FnStored(mem, next, fn, selfPc), head, list);
    assert ([fn] + list)[1..] == list;
  }

  lemma FnPrepended(mem: Memory, heads: seq<nat>, ls: Lists, b: nat, fn: nat, selfPc: nat)
    requires Linked(mem, heads, ls) && b < |heads| && fn != 0 && fn !in mem
    ensures var mem' := FnStored(mem, heads[b], fn, selfPc);
            var (heads', ls') := (heads[b := fn], FnListed(ls, b, fn));
            && Linked(mem', heads', ls')
            && GraphOf(mem', heads', ls') == WithFn(GraphOf(mem, heads, ls), b, selfPc)
  {
    hide Chain, Distinct;
    var mem' := FnStored(mem, heads[b], fn, selfPc);
    var (heads', ls') := (heads[b := fn], FnListed(ls, b, fn));
    forall a | a in mem && mem[a].FnEntry?
      ensures FnReadable(mem', ls'.arcs, a) && FnAt(mem', ls'.arcs, a) == FnAt(mem, ls.arcs, a)
    {
      FrameFn(mem, mem', ls.arcs, ls'.arcs, a);
    }
    NoArcs(mem', ls'.arcs, fn);
    forall c | 0 <= c < |ls.fns| ensures fn !in ls.fns[c] && IsFnList(mem', heads'[c], ls'.fns[c]) {
      FnFirst(mem, heads[c], ls.fns[c], heads[b], fn, selfPc);
    }
    assert FnsLinked(mem', heads', ls'.fns);
    FnsKept(mem, mem', heads, ls, heads', ls', b, fn);
  }

  lemma NoArcs(mem: Memory, arcs: map<nat, seq<nat>>, fn: nat)
    requires fn in mem && mem[fn].FnEntry? && mem[fn].arcHead == 0 && fn in arcs && arcs[fn] == []
    ensures FnReadable(mem, arcs, fn) && FnAt(mem, arcs, fn) == Fn(mem[fn].selfPc, [])
  {
  }

  lemma FnsKept(mem: Memory, mem': Memory, heads: seq<nat>, ls: Lists, heads': seq<nat>, ls': Lists, b: nat, fn: nat)
    requires Linked(mem, heads, ls) && Linked(mem', heads', ls') && b < |heads| && |ls'.fns| == |ls.fns|
    requires forall a :: a in mem && mem[a].FnEntry? ==>
               FnReadable(mem', ls'.arcs, a) && FnAt(mem', ls'.arcs, a) == FnAt(mem, ls.arcs, a)
    requires FnReadable(mem', ls'.arcs, fn) && FnAt(mem', ls'.arcs, fn).arcs == []
    requires ls'.fns == ls.fns[b := [fn] + ls.fns[b]]
    ensures GraphOf(mem', heads', ls') == WithFn(GraphOf(mem, heads, ls), b, mem'[fn].selfPc)
  {
    hide Chain, Distinct, IsArcList;
    var (g, g') := (GraphOf(mem, heads, ls), GraphOf(mem', heads', ls'));
    forall c | 0 <= c < |g| && c != b ensures g'[c] == g[c] {
      FnsSame(mem, mem', ls.arcs, ls'.arcs, ls.fns[c]);
    }
    FnsSame(mem, mem', ls.arcs, ls'.arcs, ls.fns[b]);
    assert g'[b] == [Fn(mem'[fn].selfPc, [])] + g[b];
  }

  lemma FnsSame(mem: Memory, mem': Memory, arcs: map<nat, seq<nat>>, arcs': map<nat, seq<nat>>, list: seq<nat>)
    requires forall x :: x in list ==> FnReadable(mem, arcs, x) && FnReadable(mem', arcs', x)
    requires forall x :: x in list ==> FnAt(mem', arcs', x) == FnAt(mem, arcs, x)
    ensures FnsAt(mem', arcs', list) == FnsAt(mem, arcs, list)
  {
  }

  function ArcStored(mem: Memory, fn: nat, arc: nat, fromPc: nat): Memory
    requires fn in mem && mem[fn].FnEntry?
  {
    mem[arc := FnArc(mem[fn].arcHead, fromPc, 1)][fn := mem[fn].(arcHead := arc)]
  }

  ghost function ArcListed(ls: Lists, fn: nat, arc: nat): Lists
    requires fn in ls.arcs
  {
    ls.(arcs := ls.arcs[fn := [arc] + ls.arcs[fn]])
  }

  /** The function's own list and arcs once the arc is first on it. */
  lemma ArcFirst(mem: Memory, arcs: map<nat, seq<nat>>, fn: nat, arc: nat, fromPc: nat)
    requires FnReadable(mem, arcs, fn) && arc != 0 && arc !in mem
    ensures var (mem', arcs') := (ArcStored(mem, fn, arc, fromPc), arcs[fn := [arc] + arcs[fn]]);
            && FnReadable(mem', arcs', fn)
            && FnAt(mem', arcs', fn) == Fn(mem[fn].selfPc, [Arc(fromPc, 1)] + ArcsAt(mem, arcs[fn]))
  {
    var (mem', list) := (ArcStored(mem, fn, arc, fromPc), [arc] + arcs[fn]);
    FrameArcs(mem, mem', mem[fn].arcHead, arcs[fn]);
    assert list[1..] == arcs[fn];
    assert ArcsAt(mem', list) == [Arc(fromPc, 1)] + ArcsAt(mem', arcs[fn]);
  }

  lemma AtEntry(mem: Memory, heads: seq<nat>, ls: Lists, b: nat, k: nat)
    requires Linked(mem, heads, ls) && b < |heads| && k < |ls.fns[b]|
    ensures FnReadable(mem, ls.arcs, ls.fns[b][k])
  {
    assert ls.fns[b][k] in ls.fns[b];
  }

  lemma ArcPrepended(mem: Memory, heads: seq<nat>, ls: Lists, b: nat, k: nat, arc: nat, fromPc: nat)
    requires Linked(mem, heads, ls) && b < |heads| && k < |ls.fns[b]| && arc != 0 && arc !in mem
    ensures var fn := ls.fns[b][k];
            && fn in mem && mem[fn].FnEntry? && fn in ls.arcs
            && var (mem', ls') := (ArcStored(mem, fn, arc, fromPc), ArcListed(ls, fn, arc));
            && Linked(mem', heads, ls')
            && GraphOf(mem', heads, ls') == WithArc(GraphOf(mem, heads, ls), b, k, fromPc)
  {
    hide Chain, Distinct;
    var fn := ls.fns[b][k];
    AtEntry(mem, heads, ls, b, k);
    var (mem', ls') := (ArcStored(mem, fn, arc, fromPc), ArcListed(ls, fn, arc));
    ArcFirst(mem, ls.arcs, fn, arc, fromPc);
    forall a | a in mem && mem[a].FnEntry? && a != fn
      ensures FnReadable(mem', ls'.arcs, a) && FnAt(mem', ls'.arcs, a) == FnAt(mem, ls.arcs, a)
    {
      FrameFn(mem, mem', ls.arcs, ls'.arcs, a);
    }
    forall c | 0 <= c < |ls.fns| ensures IsFnList(mem', heads[c], ls'.fns[c]) {
      FrameFns(mem, mem', heads[c], ls.fns[c]);
    }
    ArcKept(mem, mem', heads, ls, ls', b, k, fromPc);
  }

  lemma ArcKept(mem: Memory, mem': Memory, heads: seq<nat>, ls: Lists, ls': Lists, b: nat, k: nat, fromPc: nat)
    requires Linked(mem, heads, ls) && Linked(mem', heads, ls') && ls'.fns == ls.fns
    requires b < |heads| && k < |ls.fns[b]|
    requires forall a :: a in mem && mem[a].FnEntry? && a != ls.fns[b][k] ==>
               FnReadable(mem', ls'.arcs, a) && FnAt(mem', ls'.arcs, a) == FnAt(mem, ls.arcs, a)
    requires FnReadable(mem, ls.arcs, ls.fns[b][k]) && FnReadable(mem', ls'.arcs, ls.fns[b][k])
    requires var entry := FnAt(mem, ls.arcs, ls.fns[b][k]);
             FnAt(mem', ls'.arcs, ls.fns[b][k]) == entry.(arcs := [Arc(fromPc, 1)] + entry.arcs)
    ensures GraphOf(mem', heads, ls') == WithArc(GraphOf(mem, heads, ls), b, k, fromPc)
  {
    hide Chain, IsArcList;
    var fn := ls.fns[b][k];
    assert fn in ls.fns[b];
    var (g, g') := (GraphOf(mem, heads, ls), GraphOf(mem', heads, ls'));
    forall c | 0 <= c < |g| && c != b ensures g'[c] == g[c] {
      FnsSame(mem, mem', ls.arcs, ls'.arcs, ls.fns[c]);
    }
    forall i | 0 <= i < |g[b]| && i != k ensures g'[b][i] == g[b][i] {
      assert ls.fns[b][i] in ls.fns[b];
    }
    assert g'[b] == WithArc(g, b, k, fromPc)[b];
    assert g' == WithArc(g, b, k, fromPc);
  }

  // ---------------------------------------------------------------- what a recording means

  /** The calls counted from one address, over a function's arcs (there may be two for one call
      site, which the host adds up). */
  function From(arcs: seq<Arc>, fromPc: nat): nat {
    if arcs == [] then 0
    else (if arcs[0].fromPc == fromPc then arcs[0].count else 0) + From(arcs[1..], fromPc)
  }

  /** The calls counted from one address to another, over a bucket. */
  function Calls(fs: seq<Fn>, selfPc: nat, fromPc: nat): nat {
    if fs == [] then 0
    else (if fs[0].selfPc == selfPc then From(fs[0].arcs, fromPc) else 0) + Calls(fs[1..], selfPc, fromPc)
  }

  /** __mcount_record on the graph: a function seen for the first time goes first in its bucket. */
  function Recorded(g: Graph, b: nat, seen: Option<nat>, selfPc: nat, fromPc: nat): Graph
    requires b < |g| && (seen.Some? ==> seen.value < |g[b]|)
  {
    match seen
    case Some(k) => WithArc(g, b, k, fromPc)
    case None => WithArc(WithFn(g, b, selfPc), b, 0, fromPc)
  }

  lemma {:induction false} ArcCounted(fs: seq<Fn>, k: nat, taken: nat, selfPc: nat, fromPc: nat)
    requires k < |fs|
    ensures Calls(fs[k := fs[k].(arcs := [Arc(taken, 1)] + fs[k].arcs)], selfPc, fromPc)
         == Calls(fs, selfPc, fromPc) + if fs[k].selfPc == selfPc && taken == fromPc then 1 else 0
    decreases k
  {
    var after := fs[k := fs[k].(arcs := [Arc(taken, 1)] + fs[k].arcs)];
    assert ([Arc(taken, 1)] + fs[k].arcs)[1..] == fs[k].arcs;
    if k == 0 {
      assert after[1..] == fs[1..];
    } else {
      ArcCounted(fs[1..], k - 1, taken, selfPc, fromPc);
      assert after[1..] == fs[1..][k - 1 := after[k]];
    }
  }

  /** A recording counts one call more between its two addresses and forgets no other: counts
      between any other two addresses, and in any other bucket, are what they were. */
  lemma RecordingCounted(g: Graph, b: nat, seen: Option<nat>, self: nat, taken: nat, c: nat, selfPc: nat, fromPc: nat)
    requires b < |g| && c < |g| && (seen.Some? ==> seen.value < |g[b]| && g[b][seen.value].selfPc == self)
    ensures |Recorded(g, b, seen, self, taken)| == |g|
    ensures Calls(Recorded(g, b, seen, self, taken)[c], selfPc, fromPc)
         == Calls(g[c], selfPc, fromPc) + if c == b && selfPc == self && fromPc == taken then 1 else 0
  {
    if c == b {
      match seen
      case Some(k) =>
        ArcCounted(g[b], k, taken, selfPc, fromPc);
      case None =>
        var fs := WithFn(g, b, self)[b];
        assert fs[1..] == g[b];
        ArcCounted(fs, 0, taken, selfPc, fromPc);
    }
  }

  // ---------------------------------------------------------------- the profiler

  class Profiler {
    var heapEnd: nat
    const limit: nat
    var slabPtr: nat            // mcount_slab_ptr
    var slabSize: nat           // mcount_slab_size
    var mem: Memory
    var heads: seq<nat>         // __mcount_fn_head
    ghost var lists: Lists

    /** The slab in use ends inside the heap; all records lie below its free part, disjoint. */
    ghost predicate Carved()
      reads this
    {
      && 0 < heapEnd < WRAP && slabPtr + slabSize <= heapEnd
      && (slabPtr == 0 ==> slabSize == 0)
      && Packed(mem, slabPtr)
    }

    ghost predicate Valid()
      reads this
    {
      Carved() && |heads| == |lists.fns| == HASH_BUCKETS && Linked(mem, heads, lists)
    }

    ghost function Graph(): (r: Graph)
      requires Valid()
      reads this
      ensures |r| == HASH_BUCKETS && forall b :: 0 <= b < |r| ==> |r[b]| == |lists.fns[b]|
    {
      GraphOf(mem, heads, lists)
    }

    constructor (heapStart: nat, limit: nat)
      requires 0 < heapStart < WRAP
      ensures Valid() && heapEnd == heapStart && this.limit == limit
      ensures forall b :: 0 <= b < HASH_BUCKETS ==> Graph()[b] == []
    {
      heapEnd := heapStart;
      this.limit := limit;
      slabPtr, slabSize := 0, 0;
      mem := map[];
      heads := seq(HASH_BUCKETS, _ => 0);
      lists := Lists(seq(HASH_BUCKETS, _ => []), map[]);
    }

    /** sbrk, by the profiler or by anyone else.  A request of a non-negative size that wraps no
        pointer never hands out a byte below the old heap end. */
    method CallSbrk(incr: int) returns (block: Option<nat>)
      requires heapEnd < WRAP && -0x8000_0000 <= incr < 0x8000_0000
      modifies this`heapEnd
      ensures heapEnd < WRAP && (heapEnd, block) == Sbrk(old(heapEnd), limit, incr)
      ensures incr >= 0 && AlignUp(old(heapEnd)) >= old(heapEnd) && !Wraps(old(heapEnd), incr) ==>
                && (old(Carved()) ==> Carved())
                && (block.Some? ==> old(heapEnd) <= block.value && block.value + incr == heapEnd)
    {
      if incr >= 0 && AlignUp(heapEnd) >= heapEnd && !Wraps(heapEnd, incr) {
        SbrkStep(heapEnd, limit, incr);
      }
      heapEnd := AlignUp(heapEnd);
      if (heapEnd + incr) % WRAP > limit {
        return None;
      }
      block := Some(heapEnd);
      heapEnd := (heapEnd + incr) % WRAP;
    }

    /** sbrk will supply a slab, without wrapping, if one is needed for so many records. */
    ghost predicate SlabAvailable(records: nat)
      requires Carved()
      reads this
    {
      || slabSize >= records * RECORD_SIZE
      || (&& Sbrk(heapEnd, limit, MCOUNT_SLAB_INCREMENT).1.Some?
          && AlignUp(heapEnd) >= heapEnd && !Wraps(heapEnd, MCOUNT_SLAB_INCREMENT))
    }

    /** mcount_allocate of one record.  While sbrk succeeds the new record overlaps no other; when
        it fails the code takes its result, (char*)-1, for a slab: the record is given the last
        address of all, and the next ones would follow at address 11. */
    method Allocate() returns (data: nat)
      requires Carved()
      modifies this`heapEnd, this`slabPtr, this`slabSize
      ensures old(SlabAvailable(1)) ==> Carved() && 0 < data && data + RECORD_SIZE == slabPtr && Packed(mem, data)
      ensures old(SlabAvailable(2)) ==> Carved() && SlabAvailable(1)
      ensures old(slabSize < RECORD_SIZE && Sbrk(heapEnd, limit, MCOUNT_SLAB_INCREMENT).1.None?) ==>
                data == WRAP - 1 && slabPtr == 11 && (mem != map[] ==> !Carved())
    {
      if RECORD_SIZE > slabSize {
        var slab := CallSbrk(MCOUNT_SLAB_INCREMENT);
        slabPtr := if slab.Some? then slab.value else WRAP - 1;
        slabSize := MCOUNT_SLAB_INCREMENT;
      }
      data := slabPtr;
      slabPtr := (slabPtr + RECORD_SIZE) % WRAP;
      slabSize := slabSize - RECORD_SIZE;
    }

    /** The function entry for a function not seen before. */
    method AddFunction(selfPc: nat, b: nat) returns (fn: nat)
      requires Valid() && SlabAvailable(1) && b < HASH_BUCKETS
      modifies this
      ensures Valid() && fn != 0 && lists.fns[b] == [fn] + old(lists.fns[b])
      ensures Graph() == WithFn(old(Graph()), b, selfPc)
      ensures forall a :: a in old(mem) ==> a in mem
      ensures old(SlabAvailable(2)) ==> SlabAvailable(1)
    {
      hide Linked, GraphOf, WithFn, Packed, Store;
      fn := Allocate();
      PackedAbove(mem, fn, FnEntry(heads[b], selfPc, 0));
      FnPrepended(mem, heads, lists, b, fn, selfPc);
      lists := FnListed(lists, b, fn);
      mem := Store(mem, fn, FnEntry(heads[b], selfPc, 0));
      heads := heads[b := fn];
    }

    /** The arc for a call site not seen before. */
    method AddArc(fn: nat, fromPc: nat, ghost b: nat, ghost k: nat)
      requires Valid() && SlabAvailable(1) && b < HASH_BUCKETS && k < |lists.fns[b]| && lists.fns[b][k] == fn
      modifies this
      ensures Valid() && Graph() == WithArc(old(Graph()), b, k, fromPc)
      ensures forall a :: a in old(mem) ==> a in mem
    {
      hide Linked, GraphOf, WithArc, Packed, Store;
      AtEntry(mem, heads, lists, b, k);
      var arc := Allocate();
      PackedAbove(mem, arc, FnArc(mem[fn].arcHead, fromPc, 1));
      ArcPrepended(mem, heads, lists, b, k, arc, fromPc);
      lists := ArcListed(lists, fn, arc);
      mem := Store(mem, arc, FnArc(mem[fn].arcHead, fromPc, 1));
      PackedAt(mem, slabPtr, fn, mem[fn].(arcHead := arc));
      mem := Store(mem, fn, mem[fn].(arcHead := arc));
    }

    /** __mcount_record; `fnEntry` is 0 or, at position `k`, on the bucket's list. */
    method RecordCall(selfPc: nat, fromPc: nat, fnEntry: nat, b: nat, ghost k: nat)
      requires Valid() && SlabAvailable(2) && b < HASH_BUCKETS
      requires fnEntry != 0 ==> k < |lists.fns[b]| && lists.fns[b][k] == fnEntry
      modifies this
      ensures Valid()
      ensures Graph() == Recorded(old(Graph()), b, if fnEntry == 0 then None else Some(k), selfPc, fromPc)
      ensures forall a :: a in old(mem) ==> a in mem
    {
      hide Linked, GraphOf;
      var fn := fnEntry;
      ghost var at := k;
      if fn == 0 {
        fn := AddFunction(selfPc, b);
        at := 0;
      }
      AddArc(fn, fromPc, b, at);
    }
  }
}
