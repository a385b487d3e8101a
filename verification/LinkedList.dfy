/** The circular doubly linked list of alt_llist.h.  A C structure whose first member is an
    alt_llist is a Node whose `data` is the rest of the structure; a list head is a node too. */
module LinkedList {
  import opened Common

  class Node<T> {
    var next: Node<T>
    var previous: Node<T>
    var data: T

    /** ALT_LLIST_HEAD, and the state of a removed entry: linked to itself. */
    constructor (data: T)
      ensures IsRing([this]) && this.data == data
    {
      this.next := this;
      this.previous := this;
      this.data := data;
    }
  }

  // ---------------------------------------------------------------- rounds of a sequence

  function After(n: nat, i: nat): nat requires i < n { if i + 1 == n then 0 else i + 1 }

  function Before(n: nat, i: nat): nat requires i < n { if i == 0 then n - 1 else i - 1 }

  /** Going round s, `forward` gives the successor of each element and `back` its predecessor. */
  predicate Round<N(==)>(s: seq<N>, forward: seq<N>, back: seq<N>) {
    && |forward| == |back| == |s|
    && (forall i {:trigger forward[i]} :: 0 <= i < |s| ==> forward[i] == s[After(|s|, i)])
    && (forall i {:trigger back[i]} :: 0 <= i < |s| ==> back[i] == s[Before(|s|, i)])
  }

  /** The sequence without its k-th element. */
  function Without<N>(s: seq<N>, k: nat): (r: seq<N>)
    requires k < |s|
    ensures |r| == |s| - 1
  {
    s[..k] + s[k + 1..]
  }

  lemma WithoutDistinct<N>(s: seq<N>, k: nat)
    requires k < |s| && Distinct(s)
    ensures Distinct(Without(s, k)) && s[k] !in Without(s, k)
  {
  }

  /** The same, for an element of the tail. */
  lemma TailWithout<N>(x: N, s: seq<N>, k: nat)
    requires k < |s| && Distinct([x] + s)
    ensures Without([x] + s, k + 1) == [x] + Without(s, k)
    ensures s[k] != x && s[k] !in Without(s, k) && Distinct(s)
  {
    assert s == ([x] + s)[1..];
    assert ([x] + s)[0] != ([x] + s)[k + 1] == s[k];
    WithoutDistinct(s, k);
  }

  /** Joining the neighbours of the k-th element leaves a round without it. */
  lemma RoundWithout<N>(s: seq<N>, forward: seq<N>, back: seq<N>, k: nat, forward': seq<N>, back': seq<N>)
    requires k < |s| && |s| > 1 && Round(s, forward, back)
    requires |forward'| == |back'| == |s|
    requires forall i :: 0 <= i < |s| && i != k ==>
               forward'[i] == if i == Before(|s|, k) then s[After(|s|, k)] else forward[i]
    requires forall i :: 0 <= i < |s| && i != k ==>
               back'[i] == if i == After(|s|, k) then s[Before(|s|, k)] else back[i]
    ensures Round(Without(s, k), Without(forward', k), Without(back', k))
  {
    var n := |s|;
    var (r, f, b) := (Without(s, k), Without(forward', k), Without(back', k));
    forall i | 0 <= i < n - 1
      ensures f[i] == r[After(n - 1, i)] && b[i] == r[Before(n - 1, i)]
    {
      var j := if i < k then i else i + 1;
      assert f[i] == forward'[j] && b[i] == back'[j];
    }
  }

  /** Putting x after the first element of a round. */
  lemma RoundWith<N>(s: seq<N>, forward: seq<N>, back: seq<N>, x: N, forward': seq<N>, back': seq<N>)
    requires s != [] && Round(s, forward, back)
    requires |forward'| == |back'| == |s| + 1
    requires forward'[0] == x && forward'[1] == forward[0]
    requires forall i :: 1 <= i < |s| ==> forward'[i + 1] == forward[i]
    requires back'[1] == s[0] && back'[0] == if |s| == 1 then x else back[0]
    requires forall i :: 1 <= i < |s| ==> back'[i + 1] == if i == 1 then x else back[i]
    ensures Round([s[0], x] + s[1..], forward', back')
  {
    var r := [s[0], x] + s[1..];
    var n := |s|;
    forall i | 0 <= i <= n
      ensures forward'[i] == r[After(n + 1, i)] && back'[i] == r[Before(n + 1, i)]
    {
      if i >= 2 {
        assert forward'[(i - 1) + 1] == forward[i - 1] && back'[(i - 1) + 1] == if i - 1 == 1 then x else back[i - 1];
      }
    }
  }

  // ---------------------------------------------------------------- rings of nodes

  ghost function Nexts<T>(nodes: seq<Node<T>>): (r: seq<Node<T>>)
    reads nodes
    ensures |r| == |nodes| && forall i {:trigger r[i]} :: 0 <= i < |r| ==> r[i] == nodes[i].next
  {
    seq(|nodes|, i requires 0 <= i < |nodes| reads nodes => nodes[i].next)
  }

  ghost function Previouses<T>(nodes: seq<Node<T>>): (r: seq<Node<T>>)
    reads nodes
    ensures |r| == |nodes| && forall i {:trigger r[i]} :: 0 <= i < |r| ==> r[i] == nodes[i].previous
  {
    seq(|nodes|, i requires 0 <= i < |nodes| reads nodes => nodes[i].previous)
  }

  /** The nodes form one ring in this order. */
  ghost predicate IsRing<T>(nodes: seq<Node<T>>)
    reads nodes
  {
    nodes != [] && Distinct(nodes) && Round(nodes, Nexts(nodes), Previouses(nodes))
  }

  /** The elements of the list with the given head, first to last. */
  ghost predicate IsList<T>(head: Node<T>, elems: seq<Node<T>>)
    reads head, elems
  {
    IsRing([head] + elems)
  }

  /** On a ring, next and previous are mutually inverse and do not leave it. */
  lemma MutuallyInverse<T>(nodes: seq<Node<T>>, n: Node<T>)
    requires IsRing(nodes) && n in nodes
    ensures n.next in nodes && n.previous in nodes
    ensures n.next.previous == n && n.previous.next == n
  {
    var i :| 0 <= i < |nodes| && nodes[i] == n;
    var (f, b) := (Nexts(nodes), Previouses(nodes));
    assert f[i] == nodes[After(|nodes|, i)] && b[After(|nodes|, i)] == nodes[i];
    assert b[i] == nodes[Before(|nodes|, i)] && f[Before(|nodes|, i)] == nodes[i];
  }

  /** alt_llist_insert: the entry becomes the first element. */
  method Insert<T>(list: Node<T>, entry: Node<T>, ghost elems: seq<Node<T>>)
    requires IsList(list, elems) && entry != list && entry !in elems
    modifies list, entry, list.next
    ensures IsList(list, [entry] + elems)
    ensures forall n :: n in [list, entry] + elems ==> n.data == old(n.data)
  {
    ghost var nodes := [list] + elems;
    ghost var (forward, back) := (Nexts(nodes), Previouses(nodes));
    assert forward[0] == nodes[After(|nodes|, 0)] && back[0] == nodes[|nodes| - 1];
    entry.previous := list;
    entry.next := list.next;
    list.next.previous := entry;
    list.next := entry;
    ghost var nodes' := [list] + ([entry] + elems);
    assert nodes' == [nodes[0], entry] + nodes[1..];
    RoundWith(nodes, forward, back, entry, Nexts(nodes'), Previouses(nodes'));
  }

  /** alt_llist_remove: exactly this entry leaves the ring, linked to itself.  Removing an entry
      that is linked to itself changes nothing. */
  method Remove<T>(entry: Node<T>, ghost nodes: seq<Node<T>>, ghost k: nat)
    requires IsRing(nodes) && k < |nodes| && nodes[k] == entry
    modifies entry, entry.next, entry.previous
    ensures IsRing([entry])
    ensures |nodes| > 1 ==> IsRing(Without(nodes, k))
    ensures forall n :: n in nodes ==> n.data == old(n.data)
  {
    ghost var n := |nodes|;
    ghost var (forward, back) := (Nexts(nodes), Previouses(nodes));
    assert forward[k] == nodes[After(n, k)] && back[k] == nodes[Before(n, k)];
    entry.next.previous := entry.previous;
    entry.previous.next := entry.next;
    entry.previous := entry;
    entry.next := entry;
    if n > 1 {
      WithoutDistinct(nodes, k);
      RoundWithout(nodes, forward, back, k, Nexts(nodes), Previouses(nodes));
      LinksWithout(nodes, k);
    }
  }

  lemma LinksWithout<T>(nodes: seq<Node<T>>, k: nat)
    requires k < |nodes|
    ensures Nexts(Without(nodes, k)) == Without(Nexts(nodes), k)
    ensures Previouses(Without(nodes, k)) == Without(Previouses(nodes), k)
  {
  }

  // ---------------------------------------------------------------- what a heap of rings looks like

  /** The first node determines the whole ring: the abstraction to a sequence is a function. */
  lemma {:induction false} RingPrefix<T>(a: seq<Node<T>>, b: seq<Node<T>>, i: nat)
    requires IsRing(a) && IsRing(b) && a[0] == b[0]
    requires i < |a| && i < |b|
    ensures a[i] == b[i] && Nexts(a)[i] == Nexts(b)[i]
  {
    if i > 0 {
      RingPrefix(a, b, i - 1);
    }
  }

  lemma RingNotShorter<T>(a: seq<Node<T>>, b: seq<Node<T>>)
    requires IsRing(a) && IsRing(b) && a[0] == b[0]
    ensures |b| <= |a|
  {
    if |a| < |b| {
      RingPrefix(a, b, |a| - 1);
    }
  }

  lemma RingUnique<T>(a: seq<Node<T>>, b: seq<Node<T>>)
    requires IsRing(a) && IsRing(b) && a[0] == b[0]
    ensures a == b
  {
    RingNotShorter(a, b);
    RingNotShorter(b, a);
    forall i | 0 <= i < |a|
      ensures a[i] == b[i]
    {
      RingPrefix(a, b, i);
    }
  }

  lemma {:induction false} StaysOnRing<T>(a: seq<Node<T>>, b: seq<Node<T>>, i: nat)
    requires IsRing(a) && IsRing(b) && a[0] in b && i < |a|
    ensures a[i] in b
  {
    if i > 0 {
      StaysOnRing(a, b, i - 1);
      MutuallyInverse(b, a[i - 1]);
      assert Nexts(a)[i - 1] == a[i];
    }
  }

  /** Rotating a ring. */
  lemma RingRotate<T>(a: seq<Node<T>>, k: nat)
    requires IsRing(a) && k < |a|
    ensures IsRing(a[k..] + a[..k])
  {
    var r := a[k..] + a[..k];
    var n := |a|;
    forall i | 0 <= i < n
      ensures Nexts(r)[i] == r[After(n, i)] && Previouses(r)[i] == r[Before(n, i)]
    {
      var j := if i + k < n then i + k else i + k - n;
      assert r[i] == a[j];
      assert Nexts(a)[j] == a[After(n, j)] && Previouses(a)[j] == a[Before(n, j)];
    }
  }

  /** Two rings are the same set of nodes or share none, so disjoint rings stay disjoint. */
  lemma RingsDisjointOrEqual<T>(a: seq<Node<T>>, b: seq<Node<T>>, n: Node<T>)
    requires IsRing(a) && IsRing(b) && n in a && n in b
    ensures forall x :: x in a <==> x in b
  {
    OneRingInOther(a, b, n);
    OneRingInOther(b, a, n);
  }

  lemma OneRingInOther<T>(a: seq<Node<T>>, b: seq<Node<T>>, n: Node<T>)
    requires IsRing(a) && IsRing(b) && n in a && n in b
    ensures forall x :: x in a ==> x in b
  {
    var k :| 0 <= k < |a| && a[k] == n;
    RingRotate(a, k);
    var r := a[k..] + a[..k];
    assert r[0] == n;
    forall x | x in a
      ensures x in b
    {
      var i :| 0 <= i < |a| && a[i] == x;
      StaysOnRing(r, b, if i >= k then i - k else i + |a| - k);
    }
  }

  // ---------------------------------------------------------------- any run of the two operations

  datatype Op<N> = InsertOp(entry: N) | RemoveOp(entry: N)

  function IndexOf<N(==)>(s: seq<N>, x: N): (k: nat)
    requires x in s
    ensures k < |s| && s[k] == x
  {
    if s[0] == x then 0 else 1 + IndexOf(s[1..], x)
  }

  function Removed<N(==)>(s: seq<N>, x: N): seq<N> {
    if x in s then Without(s, IndexOf(s, x)) else s
  }

  lemma WithoutMembers<N>(s: seq<N>, k: nat)
    requires Distinct(s) && k < |s|
    ensures forall e :: e in Without(s, k) <==> e in s && e != s[k]
    ensures var r := Without(s, k); forall i {:trigger r[i]} :: 0 <= i < |r| ==> r[i] in s && r[i] != s[k]
  {
    var w := Without(s, k);
    forall e | e in s && e != s[k]
      ensures e in w
    {
      var i :| 0 <= i < |s| && s[i] == e;
      assert w[if i < k then i else i - 1] == e;
    }
    WithoutDistinct(s, k);
  }

  lemma RemovedMembers<N>(s: seq<N>, x: N)
    requires Distinct(s)
    ensures forall e :: e in Removed(s, x) <==> e in s && e != x
    ensures var r := Removed(s, x); forall i {:trigger r[i]} :: 0 <= i < |r| ==> r[i] in s && r[i] != x
  {
    hide Without, Distinct;
    if x in s {
      WithoutMembers(s, IndexOf(s, x));
    }
  }

  /** The operations on sequences: insert is prepend, remove takes out exactly that element. */
  function Replayed<N(==)>(elems: seq<N>, ops: seq<Op<N>>): (r: seq<N>)
    decreases |ops|
  {
    if ops == [] then elems
    else match ops[0]
      case InsertOp(e) => Replayed([e] + elems, ops[1..])
      case RemoveOp(e) => Replayed(Removed(elems, e), ops[1..])
  }

  /** No entry is inserted while it is in the list. */
  predicate Legal<N(==)>(elems: seq<N>, ops: seq<Op<N>>)
    decreases |ops|
  {
    ops == [] ||
    match ops[0]
    case InsertOp(e) => e !in elems && Legal([e] + elems, ops[1..])
    case RemoveOp(e) => Legal(Removed(elems, e), ops[1..])
  }

  /** Every entry of the stock is in the list or linked to itself. */
  ghost predicate Stocked<T>(elems: seq<Node<T>>, stock: set<Node<T>>)
    reads stock
  {
    (forall e :: e in elems ==> e in stock) && forall e :: e in stock && e !in elems ==> IsRing([e])
  }

  /** Removing an entry of the stock, whether or not it is in the list. */
  method RemoveAny<T>(head: Node<T>, entry: Node<T>, ghost elems: seq<Node<T>>, ghost stock: set<Node<T>>)
    requires IsList(head, elems) && Stocked(elems, stock) && head !in stock && entry in stock
    modifies head, stock
    ensures IsList(head, Removed(elems, entry)) && Stocked(Removed(elems, entry), stock)
    ensures forall e :: e in stock ==> e.data == old(e.data)
  {
    hide IsRing, Distinct, Round, Without, Removed;
    ghost var nodes, k := RemovalSite(head, entry, elems, stock);
    Remove(entry, nodes, k);
    forall e | e in stock && e !in Removed(elems, entry)
      ensures IsRing([e])
    {
      if e != entry {
        assert e !in nodes;
      }
    }
  }

  /** The ring an entry of the stock is on, and its index there. */
  lemma RemovalSite<T>(head: Node<T>, entry: Node<T>, elems: seq<Node<T>>, stock: set<Node<T>>)
    returns (nodes: seq<Node<T>>, k: nat)
    requires IsList(head, elems) && Stocked(elems, stock) && entry in stock
    ensures IsRing(nodes) && k < |nodes| && nodes[k] == entry
    ensures entry.next in nodes && entry.previous in nodes
    ensures if entry in elems then nodes == [head] + elems && Without(nodes, k) == [head] + Removed(elems, entry)
            else nodes == [entry] && Removed(elems, entry) == elems
    ensures forall e :: e in Removed(elems, entry) ==> e in stock
    ensures forall e :: e in stock && e !in Removed(elems, entry) ==> e !in elems || e == entry
  {
    hide IsRing, Distinct, Round, Without;
    nodes, k := [entry], 0;
    ListDistinct(head, elems);
    if entry in elems {
      nodes, k := [head] + elems, 1 + IndexOf(elems, entry);
      TailWithout(head, elems, k - 1);
    }
    RemovedMembers(elems, entry);
    var left := Removed(elems, entry);
    forall i | 0 <= i < |left|
      ensures left[i] in stock
    {
      assert left[i] in elems;
    }
    MutuallyInverse(nodes, entry);
  }

  lemma ListDistinct<T>(head: Node<T>, elems: seq<Node<T>>)
    requires IsList(head, elems)
    ensures Distinct(elems) && Distinct([head] + elems)
  {
    assert elems == ([head] + elems)[1..];
  }

  method InsertAny<T>(head: Node<T>, entry: Node<T>, ghost elems: seq<Node<T>>, ghost stock: set<Node<T>>)
    requires IsList(head, elems) && Stocked(elems, stock) && head !in stock
    requires entry in stock && entry !in elems
    modifies head, stock
    ensures IsList(head, [entry] + elems) && Stocked([entry] + elems, stock)
    ensures forall e :: e in stock ==> e.data == old(e.data)
  {
    MutuallyInverse([head] + elems, head);
    Insert(head, entry, elems);
  }

  /** Writing the own fields of an entry, listed or not. */
  method SetAny<T>(head: Node<T>, entry: Node<T>, data: T, ghost elems: seq<Node<T>>, ghost stock: set<Node<T>>)
    requires IsList(head, elems) && Stocked(elems, stock)
    modifies entry`data
    ensures IsList(head, elems) && Stocked(elems, stock) && entry.data == data
  {
    hide Distinct, Round;
    ghost var nodes := [head] + elems;
    ghost var (forward, back) := (Nexts(nodes), Previouses(nodes));
    entry.data := data;
    assert Nexts(nodes) == forward && Previouses(nodes) == back;
    forall e | e in stock && e !in elems
      ensures IsRing([e])
    {
      assert Nexts([e]) == old(Nexts([e])) && Previouses([e]) == old(Previouses([e]));
    }
  }

  /** Over any legal run of insertions and removals, including removals of entries that are not
      in the list, the list is what the sequence operations say. */
  method Replay<T>(head: Node<T>, ops: seq<Op<Node<T>>>, ghost elems: seq<Node<T>>, ghost stock: set<Node<T>>)
    requires IsList(head, elems) && Stocked(elems, stock) && head !in stock
    requires forall i :: 0 <= i < |ops| ==> ops[i].entry in stock
    requires Legal(elems, ops)
    modifies head, stock
    ensures IsList(head, Replayed(elems, ops)) && Stocked(Replayed(elems, ops), stock)
    decreases |ops|
  {
    hide IsList, Stocked, Removed;
    if ops != [] {
      if ops[0].InsertOp? {
        InsertAny(head, ops[0].entry, elems, stock);
        Replay(head, ops[1..], [ops[0].entry] + elems, stock);
      } else {
        RemoveAny(head, ops[0].entry, elems, stock);
        Replay(head, ops[1..], Removed(elems, ops[0].entry), stock);
      }
    }
  }
}
