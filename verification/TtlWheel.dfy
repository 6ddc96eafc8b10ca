/**
 The timing wheel as it runs: 256 circular doubly linked lists headed by sentinels for the near future, a binary
 heap with back-indices for the far future, and a cursor that advances once per tick.
 */
module TtlWheelImpl {
  import opened Common
  import opened TtlWheelSpec

  class WheelNode {
    var prev: WheelNode?
    var next: WheelNode?
    var slot: nat // 0 when in no slot, otherwise the slot's index plus one
    var heapIndex: Option<nat>

    ghost predicate Idle()
      reads this
    {
      slot == 0 && heapIndex == None
    }

    constructor ()
      ensures Idle()
    {
      prev, next, slot, heapIndex := null, null, 0, None;
    }
  }

  // ---------------------------------------------------------------- circular lists

  /** The link fields of a set of nodes. */
  datatype Links = Links(next: map<WheelNode, WheelNode?>, prev: map<WheelNode, WheelNode?>, slot: map<WheelNode, nat>)

  type Nodes = seq<WheelNode>

  ghost predicate Joined(links: Links, r: Nodes, k: nat)
    requires k + 1 < |r|
  {
    r[k] in links.next && links.next[r[k]] == r[k + 1] && r[k + 1] in links.prev && links.prev[r[k + 1]] == r[k]
  }

  ghost predicate Circle(links: Links, r: Nodes) {
    forall k: nat :: k + 1 < |r| ==> Joined(links, r, k)
  }

  /** A list with its sentinel at both ends. */
  ghost function Ring(sentinel: WheelNode, list: Nodes): (r: Nodes)
    ensures |r| == |list| + 2 && r[0] == r[|list| + 1] == sentinel
  {
    [sentinel] + list + [sentinel]
  }

  ghost predicate InSlot(links: Links, list: Nodes, s: nat) {
    forall x :: x in list ==> x in links.slot && links.slot[x] == s + 1
  }

  ghost predicate RingOk(links: Links, sentinel: WheelNode, list: Nodes, s: nat) {
    Distinct(list) && sentinel in links.slot && links.slot[sentinel] == 0
    && InSlot(links, list, s) && Circle(links, Ring(sentinel, list))
  }

  /** Slot `s` links exactly the nodes marked with it, and links them in a circle. */
  ghost predicate RingsOk(links: Links, wheel: Nodes, lists: seq<Nodes>) {
    |wheel| == |lists| == SLOT_COUNT && Distinct(wheel)
    && (forall s: nat :: s < SLOT_COUNT ==> RingOk(links, wheel[s], lists[s], s))
    && (forall n :: n in links.slot && links.slot[n] > 0 ==>
          links.slot[n] <= SLOT_COUNT && n in lists[links.slot[n] - 1])
  }

  lemma RingsDisjoint(links: Links, wheel: Nodes, lists: seq<Nodes>, s: nat, i: nat, x: WheelNode)
    requires RingsOk(links, wheel, lists) && s < SLOT_COUNT && i < SLOT_COUNT && i != s
    requires x in Ring(wheel[s], lists[s])
    ensures x !in Ring(wheel[i], lists[i])
  {
    assert RingOk(links, wheel[i], lists[i], i) && RingOk(links, wheel[s], lists[s], s);
  }

  /** The links once `a.next`, `b.prev` and all the fields of `node` have been written, in this order. */
  ghost function Spliced(links: Links, a: WheelNode, next: WheelNode, b: WheelNode, prev: WheelNode,
                         node: WheelNode, p: WheelNode?, n: WheelNode?, mark: nat): Links {
    Links(links.next[a := next][node := n], links.prev[b := prev][node := p], links.slot[node := mark])
  }

  lemma OtherRing(links: Links, after: Links, sentinel: WheelNode, list: Nodes, s: nat)
    requires RingOk(links, sentinel, list, s)
    requires forall x :: x in Ring(sentinel, list) && x in links.next ==>
               x in after.next && after.next[x] == links.next[x]
    requires forall x :: x in Ring(sentinel, list) && x in links.prev ==>
               x in after.prev && after.prev[x] == links.prev[x]
    requires forall x :: x in Ring(sentinel, list) && x in links.slot ==>
               x in after.slot && after.slot[x] == links.slot[x]
    ensures RingOk(after, sentinel, list, s)
  {
    var r := Ring(sentinel, list);
    assert sentinel == r[0] && forall x :: x in list ==> x in r;
    forall k: nat | k + 1 < |r| ensures Joined(after, r, k) {
      assert Joined(links, r, k);
    }
  }

  ghost function Unlinked(links: Links, r: Nodes, k: nat): Links
    requires 0 < k < |r| - 1
  {
    Spliced(links, r[k - 1], r[k + 1], r[k + 1], r[k - 1], r[k], null, null, 0)
  }

  lemma UnlinkedRing(links: Links, sentinel: WheelNode, list: Nodes, s: nat, k: nat)
    requires RingOk(links, sentinel, list, s) && k < |list|
    ensures RingOk(Unlinked(links, Ring(sentinel, list), k + 1), sentinel, RemoveAt(list, k), s)
  {
    var r := Ring(sentinel, list);
    var after := Unlinked(links, r, k + 1);
    var l := Ring(sentinel, RemoveAt(list, k));
    assert l == RemoveAt(r, k + 1);
    hide Joined, Unlinked;
    forall j: nat | j + 1 < |l| ensures Joined(after, l, j) {
      UnlinkedJoin(links, sentinel, list, s, k, j);
    }
  }

  /** In a circle nobody is met twice, but for the sentinel at both ends. */
  lemma MetOnce(links: Links, sentinel: WheelNode, list: Nodes, s: nat, i: nat, j: nat)
    requires RingOk(links, sentinel, list, s) && i < j <= |list| + 1 && !(i == 0 && j == |list| + 1)
    ensures Ring(sentinel, list)[i] != Ring(sentinel, list)[j]
  {
    hide Circle;
    var r := Ring(sentinel, list);
    assert i > 0 ==> r[i] == list[i - 1];
    assert j <= |list| ==> r[j] == list[j - 1];
  }

  ghost predicate Follows(links: Links, x: WheelNode, y: WheelNode) {
    x in links.next && links.next[x] == y && y in links.prev && links.prev[y] == x
  }

  /** Taking `node` out from between `a` and `b` joins those two and leaves the other neighbours alone. */
  lemma SpliceJoins(links: Links, a: WheelNode, node: WheelNode, b: WheelNode, x: WheelNode, y: WheelNode)
    requires a != node && node != b && x != node && y != node
    requires (x == a && y == b) || (Follows(links, x, y) && x != a && y != b)
    ensures Follows(Spliced(links, a, b, b, a, node, null, null, 0), x, y)
  {
  }

  lemma UnlinkedJoin(links: Links, sentinel: WheelNode, list: Nodes, s: nat, k: nat, j: nat)
    requires RingOk(links, sentinel, list, s) && k < |list| && j < |list|
    ensures var r := Ring(sentinel, list); Joined(Unlinked(links, r, k + 1), RemoveAt(r, k + 1), j)
  {
    var r := Ring(sentinel, list);
    assert Joined(links, r, if j <= k then j else j + 1);
    var l := RemoveAt(r, k + 1);
    assert l[j] == (if j <= k then r[j] else r[j + 1]) && l[j + 1] == if j < k then r[j + 1] else r[j + 2];
    hide RingOk, Ring, RemoveAt, Spliced;
    MetOnce(links, sentinel, list, s, k, k + 1);
    MetOnce(links, sentinel, list, s, k + 1, k + 2);
    if j < k {
      MetOnce(links, sentinel, list, s, j, k);
      MetOnce(links, sentinel, list, s, j, k + 1);
      MetOnce(links, sentinel, list, s, j + 1, k + 1);
      MetOnce(links, sentinel, list, s, j + 1, k + 2);
    } else if j > k {
      MetOnce(links, sentinel, list, s, k, j + 1);
      MetOnce(links, sentinel, list, s, k + 1, j + 1);
      MetOnce(links, sentinel, list, s, k + 1, j + 2);
      MetOnce(links, sentinel, list, s, k + 2, j + 2);
    }
    SpliceJoins(links, r[k], r[k + 1], r[k + 2], l[j], l[j + 1]);
  }

  ghost function LinkedBefore(links: Links, sentinel: WheelNode, last: WheelNode, node: WheelNode, s: nat): Links {
    Spliced(links, last, node, sentinel, node, node, last, sentinel, s + 1)
  }

  lemma AttachedLinks(l: Links, sentinel: WheelNode, last: WheelNode, node: WheelNode, s: nat)
    requires node != last && node != sentinel
    ensures Links(l.next[node := sentinel][last := node], l.prev[node := last][sentinel := node], l.slot[node := s + 1])
            == LinkedBefore(l, sentinel, last, node, s)
  {
    WritesCommute(l.next, node, sentinel, last, node);
    WritesCommute(l.prev, node, last, sentinel, node);
  }

  lemma WritesCommute(m: map<WheelNode, WheelNode?>, a: WheelNode, x: WheelNode?, b: WheelNode, y: WheelNode?)
    requires a != b
    ensures m[a := x][b := y] == m[b := y][a := x]
  {
  }

  lemma LinkedRing(links: Links, sentinel: WheelNode, list: Nodes, s: nat, node: WheelNode)
    requires RingOk(links, sentinel, list, s) && node !in Ring(sentinel, list)
    ensures RingOk(LinkedBefore(links, sentinel, Ring(sentinel, list)[|list|], node, s), sentinel, list + [node], s)
  {
    var r := Ring(sentinel, list);
    var after := LinkedBefore(links, sentinel, r[|list|], node, s);
    var l := Ring(sentinel, list + [node]);
    forall j: nat | j + 1 < |l| ensures Joined(after, l, j) {
      if j < |list| { assert Joined(links, r, j); }
    }
  }

  lemma UnlinkKeepsRings(links: Links, wheel: Nodes, lists: seq<Nodes>, s: nat, k: nat)
    requires RingsOk(links, wheel, lists) && s < SLOT_COUNT && k < |lists[s]|
    ensures RingsOk(Unlinked(links, Ring(wheel[s], lists[s]), k + 1), wheel, lists[s := RemoveAt(lists[s], k)])
  {
    var r := Ring(wheel[s], lists[s]);
    var after := Unlinked(links, r, k + 1);
    assert RingOk(links, wheel[s], lists[s], s);
    UnlinkedRing(links, wheel[s], lists[s], s, k);
    forall i: nat | i < SLOT_COUNT && i != s ensures RingOk(after, wheel[i], lists[i], i) {
      RingsDisjoint(links, wheel, lists, s, i, r[k]);
      RingsDisjoint(links, wheel, lists, s, i, r[k + 1]);
      RingsDisjoint(links, wheel, lists, s, i, r[k + 2]);
      OtherRing(links, after, wheel[i], lists[i], i);
    }
    RemovedElsewhere(lists[s], k);
  }

  lemma RemovedElsewhere(list: Nodes, k: nat)
    requires k < |list|
    ensures forall x :: x in list && x != list[k] ==> x in RemoveAt(list, k)
  {
    forall x | x in list && x != list[k] ensures x in RemoveAt(list, k) {
      var j :| 0 <= j < |list| && list[j] == x;
      assert RemoveAt(list, k)[if j < k then j else j - 1] == x;
    }
  }

  lemma LinkKeepsRings(links: Links, wheel: Nodes, lists: seq<Nodes>, s: nat, node: WheelNode)
    requires RingsOk(links, wheel, lists) && s < SLOT_COUNT
    requires node in links.slot && links.slot[node] == 0 && node !in wheel
    ensures var last := Ring(wheel[s], lists[s])[|lists[s]|];
            RingsOk(LinkedBefore(links, wheel[s], last, node, s), wheel, lists[s := lists[s] + [node]])
  {
    var r := Ring(wheel[s], lists[s]);
    var last := r[|lists[s]|];
    var after := LinkedBefore(links, wheel[s], last, node, s);
    assert RingOk(links, wheel[s], lists[s], s);
    LinkedRing(links, wheel[s], lists[s], s, node);
    forall i: nat | i < SLOT_COUNT && i != s ensures RingOk(after, wheel[i], lists[i], i) {
      LinkKeepsOther(links, wheel, lists, s, node, i);
    }
    hide Circle;
  }

  lemma LinkKeepsOther(links: Links, wheel: Nodes, lists: seq<Nodes>, s: nat, node: WheelNode, i: nat)
    requires RingsOk(links, wheel, lists) && s < SLOT_COUNT && i < SLOT_COUNT && i != s
    requires node in links.slot && links.slot[node] == 0 && node !in wheel
    ensures var last := Ring(wheel[s], lists[s])[|lists[s]|];
            RingOk(LinkedBefore(links, wheel[s], last, node, s), wheel[i], lists[i], i)
  {
    var last := Ring(wheel[s], lists[s])[|lists[s]|];
    assert RingOk(links, wheel[i], lists[i], i);
    RingsDisjoint(links, wheel, lists, s, i, last);
    RingsDisjoint(links, wheel, lists, s, i, wheel[s]);
    assert node !in Ring(wheel[i], lists[i]);
    hide Circle, RingOk, Ring, RingsOk;
    OtherRing(links, LinkedBefore(links, wheel[s], last, node, s), wheel[i], lists[i], i);
  }

  lemma AdoptKeepsRings(links: Links, after: Links, wheel: Nodes, lists: seq<Nodes>)
    requires RingsOk(links, wheel, lists)
    requires forall x :: x in links.next ==> x in after.next && after.next[x] == links.next[x]
    requires forall x :: x in links.prev ==> x in after.prev && after.prev[x] == links.prev[x]
    requires forall x :: x in links.slot ==> x in after.slot && after.slot[x] == links.slot[x]
    requires forall x :: x in after.slot && x !in links.slot ==> after.slot[x] == 0
    ensures RingsOk(after, wheel, lists)
  {
    forall s: nat | s < SLOT_COUNT ensures RingOk(after, wheel[s], lists[s], s) {
      assert RingOk(links, wheel[s], lists[s], s);
      OtherRing(links, after, wheel[s], lists[s], s);
    }
  }

  /** The slot `ticks` ahead of the cursor is the one of the due tick. */
  lemma SlotOfDue(now: nat, ticks: nat)
    ensures (now % SLOT_COUNT + ticks) % SLOT_COUNT == (now + Delay(ticks)) % SLOT_COUNT
  {
  }

  lemma SameTurn(now: nat, at: nat)
    requires now <= at < now + SLOT_COUNT && at % SLOT_COUNT == now % SLOT_COUNT
    ensures at == now
  {
  }

  // ---------------------------------------------------------------- heap order

  datatype HeapEntry = HeapEntry(tick: nat, node: WheelNode)
  type Heap = seq<HeapEntry>

  ghost predicate Ord(h: Heap, i: nat)
    requires i < |h|
  {
    i > 0 ==> h[(i - 1) / 2].tick <= h[i].tick
  }

  ghost predicate Ordered(h: Heap) {
    forall i: nat :: i < |h| ==> Ord(h, i)
  }

  /** The children of `x` are no earlier than its parent, so `x` may move either way. */
  ghost predicate Bridged(h: Heap, x: nat)
    requires x < |h|
  {
    x > 0 ==> forall c: nat :: c < |h| && c > 0 && (c - 1) / 2 == x ==> h[(x - 1) / 2].tick <= h[c].tick
  }

  /** In order, except that the entry at `x` may be too early for its place. */
  ghost predicate TooLow(h: Heap, x: nat) {
    x < |h| && Bridged(h, x) && forall i: nat :: i < |h| && i != x ==> Ord(h, i)
  }

  /** In order, except that the entry at `x` may be too late for its place. */
  ghost predicate TooHigh(h: Heap, x: nat) {
    x < |h| && Bridged(h, x) && forall i: nat :: i < |h| && (i == 0 || (i - 1) / 2 != x) ==> Ord(h, i)
  }

  function Swapped(h: Heap, i: nat, j: nat): Heap
    requires i < |h| && j < |h|
  {
    h[i := h[j]][j := h[i]]
  }

  ghost predicate SameEntries(a: Heap, b: Heap) {
    |a| == |b| && (forall e :: e in a ==> e in b) && (forall e :: e in b ==> e in a)
  }

  lemma SwapKeepsEntries(h: Heap, i: nat, j: nat)
    requires i < |h| && j < |h|
    ensures SameEntries(h, Swapped(h, i, j))
  {
    var g := Swapped(h, i, j);
    forall e | e in h ensures e in g {
      var k :| 0 <= k < |h| && h[k] == e;
      assert g[if k == i then j else if k == j then i else k] == e;
    }
    forall e | e in g ensures e in h {
      var k :| 0 <= k < |g| && g[k] == e;
      assert h[if k == i then j else if k == j then i else k] == e;
    }
  }

  lemma {:induction false} RootIsEarliest(h: Heap, i: nat)
    requires Ordered(h) && i < |h|
    ensures h[0].tick <= h[i].tick
  {
    if i == 0 {
    } else {
      assert Ord(h, i);
      RootIsEarliest(h, (i - 1) / 2);
    }
  }

  lemma SiftedUp(h: Heap, x: nat)
    requires TooLow(h, x)
    ensures (x == 0 || h[(x - 1) / 2].tick <= h[x].tick) ==> Ordered(h)
    ensures x > 0 && h[x].tick < h[(x - 1) / 2].tick ==> TooLow(Swapped(h, x, (x - 1) / 2), (x - 1) / 2)
  {
    if x > 0 && h[x].tick < h[(x - 1) / 2].tick {
      var p := (x - 1) / 2;
      var g := Swapped(h, x, p);
      assert p > 0 ==> Ord(h, p);
      forall i: nat | i < |g| && i != p ensures Ord(g, i) {
        assert i != x ==> Ord(h, i);
      }
      forall c: nat | c < |g| && c > 0 && (c - 1) / 2 == p && p > 0 ensures g[(p - 1) / 2].tick <= g[c].tick {
        assert c != x ==> Ord(h, c);
      }
    }
  }

  function Earliest(h: Heap, x: nat): (c: nat)
    requires 2 * x + 1 < |h|
    ensures c < |h| && (c == 2 * x + 1 || c == 2 * x + 2)
  {
    if 2 * x + 2 < |h| && h[2 * x + 2].tick < h[2 * x + 1].tick then 2 * x + 2 else 2 * x + 1
  }

  lemma SiftedDown(h: Heap, x: nat)
    requires TooHigh(h, x)
    ensures 2 * x + 1 >= |h| || h[x].tick <= h[Earliest(h, x)].tick ==> Ordered(h)
    ensures 2 * x + 1 < |h| && h[Earliest(h, x)].tick < h[x].tick ==>
              TooHigh(Swapped(h, x, Earliest(h, x)), Earliest(h, x))
  {
    if 2 * x + 1 >= |h| || h[x].tick <= h[Earliest(h, x)].tick {
      forall i: nat | i < |h| ensures Ord(h, i) { }
    } else {
      var c := Earliest(h, x);
      var g := Swapped(h, x, c);
      forall i: nat | i < |g| && (i == 0 || (i - 1) / 2 != c) ensures Ord(g, i) {
        assert i != 0 && (i - 1) / 2 != x ==> Ord(h, i);
      }
      forall k: nat | k < |g| && k > 0 && (k - 1) / 2 == c ensures g[(c - 1) / 2].tick <= g[k].tick {
        assert Ord(h, k);
      }
    }
  }

  function DropLastInto(h: Heap, x: nat): (g: Heap)
    requires x < |h|
  {
    h[x := h[|h| - 1]][..|h| - 1]
  }

  /** Filling the hole at `x` with the last entry upsets the order at `x` only, one way or the other. */
  lemma HoleFilled(h: Heap, x: nat)
    requires Ordered(h) && x < |h| - 1
    ensures var g := DropLastInto(h, x);
            if x > 0 && g[x].tick < g[(x - 1) / 2].tick then TooLow(g, x) else TooHigh(g, x)
  {
    var g := DropLastInto(h, x);
    assert Ord(h, x);
    forall c: nat | c < |g| && c > 0 && (c - 1) / 2 == x && x > 0
      ensures g[(x - 1) / 2].tick <= h[x].tick <= g[c].tick
    {
      assert Ord(h, c);
    }
    forall i: nat | i < |g| && i != x && (i == 0 || (i - 1) / 2 != x) ensures Ord(g, i) {
      assert Ord(h, i);
    }
    if x > 0 && g[x].tick < g[(x - 1) / 2].tick {
      forall i: nat | i < |g| && i != x ensures Ord(g, i) {
        assert Ord(h, i);
      }
    }
  }

  lemma EntriesRefl(h: Heap)
    ensures SameEntries(h, h)
  {
  }

  lemma EntriesTrans(a: Heap, b: Heap, c: Heap)
    requires SameEntries(a, b) && SameEntries(b, c)
    ensures SameEntries(a, c)
  {
  }

  /** `b` holds the entries of `a` but the one at `x`. */
  ghost predicate Without(a: Heap, x: nat, b: Heap)
    requires x < |a|
  {
    |b| == |a| - 1 && (forall e :: e in a && e != a[x] ==> e in b) && (forall e :: e in b ==> e in a && e != a[x])
  }

  lemma DropRemoves(h: Heap, x: nat)
    requires x < |h| && Distinct(h)
    ensures Without(h, x, DropLastInto(h, x))
  {
    var g := DropLastInto(h, x);
    forall e | e in h && e != h[x] ensures e in g {
      var k :| 0 <= k < |h| && h[k] == e;
      assert g[if k == |h| - 1 then x else k] == e;
    }
  }

  lemma WithoutSame(a: Heap, x: nat, b: Heap, c: Heap)
    requires x < |a| && Without(a, x, b) && SameEntries(b, c)
    ensures Without(a, x, c)
  {
  }

  lemma PrefixOrdered(h: Heap)
    requires Ordered(h) && h != []
    ensures Ordered(DropLastInto(h, |h| - 1))
  {
    var g := DropLastInto(h, |h| - 1);
    forall i: nat | i < |g| ensures Ord(g, i) {
      assert Ord(h, i);
    }
  }

  lemma PushedIsTooLow(h: Heap, e: HeapEntry)
    requires Ordered(h)
    ensures TooLow(h + [e], |h|)
  {
    forall i: nat | i < |h| ensures Ord(h + [e], i) {
      assert Ord(h, i);
    }
  }

  class TtlWheel {
    const wheel: seq<WheelNode> // one sentinel per slot
    var cursor: nat
    var now: nat
    var heap: Heap

    ghost var lists: seq<seq<WheelNode>> // the nodes linked into each slot, oldest first
    ghost var nodes: set<WheelNode>      // the sentinels and every node handed in so far
    ghost var due: map<WheelNode, nat>

    // -------------------------------------------------------------- the heap and its back-indices

    /** Every heap entry's node knows its position, and nobody else claims one. */
    ghost predicate Indexed()
      reads this`heap, this`nodes, nodes`heapIndex
    {
      (forall i: nat :: i < |heap| ==> heap[i].node in nodes && heap[i].node.heapIndex == Some(i))
      && (forall n :: n in nodes && n.heapIndex.Some? ==>
            n.heapIndex.value < |heap| && heap[n.heapIndex.value].node == n)
    }

    method SwapHeap(i: nat, j: nat)
      requires Indexed() && i < |heap| && j < |heap| && i != j
      modifies this`heap, nodes`heapIndex
      ensures Indexed() && heap == Swapped(old(heap), i, j)
      ensures forall n :: n in nodes ==> n.heapIndex.Some? == old(n.heapIndex.Some?)
    {
      heap := Swapped(heap, i, j);
      heap[i].node.heapIndex := Some(i);
      heap[j].node.heapIndex := Some(j);
    }

    method SiftUp(start: nat)
      requires Indexed() && TooLow(heap, start)
      modifies this`heap, nodes`heapIndex
      ensures Indexed() && Ordered(heap) && SameEntries(old(heap), heap)
      ensures forall n :: n in nodes ==> n.heapIndex.Some? == old(n.heapIndex.Some?)
    {
      hide Indexed, Ordered, SameEntries, Bridged, Ord;
      var index: nat := start;
      EntriesRefl(heap);
      while index > 0
        invariant Indexed() && TooLow(heap, index) && SameEntries(old(heap), heap)
        invariant forall n :: n in nodes ==> n.heapIndex.Some? == old(n.heapIndex.Some?)
      {
        var parent: nat := (index - 1) / 2;
        SiftedUp(heap, index);
        if heap[index].tick >= heap[parent].tick { return; }
        SwapKeepsEntries(heap, index, parent);
        EntriesTrans(old(heap), heap, Swapped(heap, index, parent));
        SwapHeap(index, parent);
        index := parent;
      }
      SiftedUp(heap, index);
    }

    method SiftDown(start: nat)
      requires Indexed() && TooHigh(heap, start)
      modifies this`heap, nodes`heapIndex
      ensures Indexed() && Ordered(heap) && SameEntries(old(heap), heap)
      ensures forall n :: n in nodes ==> n.heapIndex.Some? == old(n.heapIndex.Some?)
    {
      hide Indexed, Ordered, SameEntries, Bridged, Ord;
      var index: nat := start;
      EntriesRefl(heap);
      while true
        invariant Indexed() && TooHigh(heap, index) && SameEntries(old(heap), heap)
        invariant forall n :: n in nodes ==> n.heapIndex.Some? == old(n.heapIndex.Some?)
        decreases |heap| - index
      {
        SiftedDown(heap, index);
        var left: nat := index * 2 + 1;
        if left >= |heap| { return; }
        var right: nat := left + 1;
        var first: nat := left;
        if right < |heap| && heap[right].tick < heap[left].tick { first := right; }
        if heap[first].tick >= heap[index].tick { return; }
        SwapKeepsEntries(heap, index, first);
        EntriesTrans(old(heap), heap, Swapped(heap, index, first));
        SwapHeap(index, first);
        index := first;
      }
    }

    method PushHeap(tick: nat, node: WheelNode)
      requires Indexed() && Ordered(heap) && node in nodes && node.heapIndex == None
      modifies this`heap, nodes`heapIndex
      ensures Indexed() && Ordered(heap) && SameEntries(old(heap) + [HeapEntry(tick, node)], heap)
      ensures forall n :: n in nodes ==> n.heapIndex.Some? == (old(n.heapIndex.Some?) || n == node)
    {
      hide Ordered, SameEntries, TooLow;
      PushedIsTooLow(heap, HeapEntry(tick, node));
      heap := heap + [HeapEntry(tick, node)];
      node.heapIndex := Some(|heap| - 1);
      SiftUp(|heap| - 1);
    }

    method RemoveHeapAt(index: nat)
      requires Indexed() && Ordered(heap) && index < |heap|
      modifies this`heap, nodes`heapIndex
      ensures Indexed() && Ordered(heap)
      ensures Without(old(heap), index, heap)
      ensures forall n :: n in nodes ==> n.heapIndex.Some? == (old(n.heapIndex.Some?) && n != old(heap)[index].node)
    {
      hide Ordered, SameEntries, TooLow, TooHigh, Without, DropLastInto, Indexed;
      ghost var h := heap;
      TakeOut(index);
      ghost var g := heap;
      if index < |heap| {
        HoleFilled(h, index);
        if index > 0 && Earlier(index, (index - 1) / 2) {
          SiftUp(index);
        } else {
          SiftDown(index);
        }
        WithoutSame(h, index, g, heap);
      } else {
        PrefixOrdered(h);
      }
    }

    method PopAt(node: WheelNode)
      requires Indexed() && Ordered(heap) && node in nodes && node.heapIndex.Some?
      modifies this`heap, nodes`heapIndex
      ensures Indexed() && Ordered(heap)
      ensures forall e :: e in heap ==> e in old(heap) && e.node != node
      ensures node.heapIndex == None
      ensures forall n :: n in nodes && n != node ==> n.heapIndex.Some? == old(n.heapIndex.Some?)
    {
      RemoveHeapAt(node.heapIndex.value);
    }

    predicate Earlier(i: nat, j: nat)
      requires i < |heap| && j < |heap|
      reads this`heap
    {
      heap[i].tick < heap[j].tick
    }

    method TakeOut(index: nat)
      requires Indexed() && index < |heap|
      modifies this`heap, nodes`heapIndex
      ensures Indexed() && |heap| == |old(heap)| - 1 && heap == DropLastInto(old(heap), index)
      ensures Without(old(heap), index, heap)
      ensures forall n :: n in nodes ==> n.heapIndex.Some? == (old(n.heapIndex.Some?) && n != old(heap)[index].node)
    {
      hide Without;
      ghost var h := heap;
      assert forall i, j :: 0 <= i < j < |h| ==> h[i].node.heapIndex == Some(i) && h[j].node.heapIndex == Some(j);
      DropRemoves(h, index);
      var last := |heap| - 1;
      var removed := heap[index].node;
      if index != last {
        heap := heap[index := heap[last]];
        heap[index].node.heapIndex := Some(index);
      }
      heap := heap[..last];
      removed.heapIndex := None;
      assert heap == DropLastInto(h, index);
    }


    // -------------------------------------------------------------- the slots

    ghost function LinksNow(): Links
      reads this`nodes, nodes`prev, nodes`next, nodes`slot
    {
      Links(map n | n in nodes :: n.next, map n | n in nodes :: n.prev, map n | n in nodes :: n.slot)
    }

    ghost predicate Rings()
      reads this`lists, this`nodes, nodes`prev, nodes`next, nodes`slot
    {
      RingsOk(LinksNow(), wheel, lists)
    }

    lemma Neighbours(s: nat, k: nat)
      requires Rings() && s < SLOT_COUNT
      ensures |wheel| == |lists| == SLOT_COUNT
      ensures k <= |lists[s]| ==> var r := Ring(wheel[s], lists[s]);
                r[k] in nodes && r[k + 1] in nodes && r[k].next == r[k + 1] && r[k + 1].prev == r[k]
    {
      var links := LinksNow();
      assert RingOk(links, wheel[s], lists[s], s);
      if k <= |lists[s]| { assert Joined(LinksNow(), Ring(wheel[s], lists[s]), k); }
    }

    lemma Locate(node: WheelNode) returns (k: nat)
      requires Rings() && node in nodes && node.slot > 0
      ensures |wheel| == |lists| == SLOT_COUNT && node.slot <= SLOT_COUNT
      ensures var s := node.slot - 1;
              k < |lists[s]| && lists[s][k] == node
              && node.prev == Ring(wheel[s], lists[s])[k] && node.next == Ring(wheel[s], lists[s])[k + 2]
              && Ring(wheel[s], lists[s])[k + 1] == node
              && node.prev in nodes && node.next in nodes && node.prev != node && node.next != node
    {
      var s: nat := node.slot - 1;
      assert LinksNow().slot[node] == node.slot;
      k :| 0 <= k < |lists[s]| && lists[s][k] == node;
      assert RingOk(LinksNow(), wheel[s], lists[s], s);
      hide RingsOk, LinksNow, Circle;
      Neighbours(s, k);
      Neighbours(s, k + 1);
    }

    lemma Outside(node: WheelNode, s: nat)
      requires Rings() && s < SLOT_COUNT && node in nodes && node !in wheel && node.slot == 0
      ensures |wheel| == |lists| == SLOT_COUNT && node !in Ring(wheel[s], lists[s])
      ensures node in LinksNow().slot && LinksNow().slot[node] == 0
    {
      assert RingOk(LinksNow(), wheel[s], lists[s], s);
    }

    /** The links are `l` when every node's fields are. */
    lemma LinksAre(l: Links)
      requires l.next.Keys == l.prev.Keys == l.slot.Keys == nodes
      requires forall n :: n in nodes ==> n.next == l.next[n] && n.prev == l.prev[n] && n.slot == l.slot[n]
      ensures LinksNow() == l
    {
    }

    lemma SlotsSeen()
      ensures forall n :: n in nodes ==> n in LinksNow().slot && n.slot == LinksNow().slot[n]
    {
    }

    /** `a` and `b` point at the given nodes now. */
    method Point(a: WheelNode, next: WheelNode, b: WheelNode, prev: WheelNode)
      requires a in nodes && b in nodes
      modifies a`next, b`prev
      ensures LinksNow() == old(LinksNow()).(next := old(LinksNow()).next[a := next],
                                             prev := old(LinksNow()).prev[b := prev])
    {
      ghost var l := LinksNow();
      a.next := next;
      b.prev := prev;
      LinksAre(l.(next := l.next[a := next], prev := l.prev[b := prev]));
    }

    /** All the links of one node. */
    method Mark(node: WheelNode, prev: WheelNode?, next: WheelNode?, slot: nat)
      requires node in nodes
      modifies node`prev, node`next, node`slot
      ensures var l := old(LinksNow());
              LinksNow() == Links(l.next[node := next], l.prev[node := prev], l.slot[node := slot])
    {
      ghost var l := LinksNow();
      node.prev := prev;
      node.next := next;
      node.slot := slot;
      LinksAre(Links(l.next[node := next], l.prev[node := prev], l.slot[node := slot]));
    }

    /** The link writes that take a node out of its circle. */
    method Detach(node: WheelNode)
      requires node in nodes && node.prev in nodes && node.next in nodes && node.prev != node && node.next != node
      modifies nodes`prev, nodes`next, nodes`slot
      ensures LinksNow() == old(Spliced(LinksNow(), node.prev, node.next, node.next, node.prev, node, null, null, 0))
    {
      hide LinksNow;
      Point(node.prev, node.next, node.next, node.prev);
      Mark(node, null, null, 0);
    }

    /** The link writes that put a node in front of a sentinel. */
    method Attach(node: WheelNode, s: nat, sentinel: WheelNode)
      requires {node, sentinel, sentinel.prev} <= nodes && sentinel.prev != node && sentinel != node
      modifies nodes`prev, nodes`next, nodes`slot
      ensures LinksNow() == old(LinkedBefore(LinksNow(), sentinel, sentinel.prev, node, s))
    {
      hide LinksNow, LinkedBefore;
      var last := sentinel.prev;
      AttachedLinks(LinksNow(), sentinel, last, node, s);
      Mark(node, last, sentinel, s + 1);
      Point(last, node, sentinel, node);
    }

    method Unlink(node: WheelNode) returns (ghost k: nat)
      requires Rings() && (node in nodes || node.slot == 0)
      modifies this`lists, nodes`prev, nodes`next, nodes`slot
      ensures Rings() && node.slot == 0 && forall n :: n in nodes && n != node ==> n.slot == old(n.slot)
      ensures old(node.slot) == 0 ==> lists == old(lists)
      ensures old(node.slot) == 0 ==> forall n :: n in nodes ==> n.prev == old(n.prev) && n.next == old(n.next)
      ensures old(node.slot) > 0 ==>
                var s := old(node.slot) - 1;
                && s < |old(lists)| && k < |old(lists)[s]| && old(lists)[s][k] == node
                && lists == old(lists)[s := RemoveAt(old(lists)[s], k)]
    {
      hide RingsOk, Ring, LinksNow;
      k := 0;
      if node.slot == 0 { return; }
      k := Locate(node);
      ghost var s := node.slot - 1;
      ghost var r := Ring(wheel[s], lists[s]);
      UnlinkKeepsRings(LinksNow(), wheel, lists, s, k);
      SlotsSeen();
      Detach(node);
      SlotsSeen();
      lists := lists[s := RemoveAt(lists[s], k)];
    }

    method LinkBefore(node: WheelNode, s: nat)
      requires Rings() && s < SLOT_COUNT && node in nodes && node !in wheel && node.slot == 0
      modifies this`lists, nodes`prev, nodes`next, nodes`slot
      ensures Rings() && |old(lists)| == SLOT_COUNT && lists == old(lists)[s := old(lists)[s] + [node]]
      ensures node.slot == s + 1 && forall n :: n in nodes && n != node ==> n.slot == old(n.slot)
    {
      hide RingsOk, Ring, LinksNow;
      Outside(node, s);
      LinkKeepsRings(LinksNow(), wheel, lists, s, node);
      Neighbours(s, |lists[s]|);
      SlotsSeen();
      Attach(node, s, wheel[s]);
      SlotsSeen();
      lists := lists[s := lists[s] + [node]];
    }

    // -------------------------------------------------------------- agreement with the plain schedule

    /** A node is scheduled in a slot or in the heap, never both, and its slot is the one of its due tick. */
    ghost predicate Timed(n: WheelNode)
      reads this`due, this`now, n`slot, n`heapIndex
    {
      (n in due <==> n.slot > 0 || n.heapIndex.Some?)
      && (n.slot > 0 ==> n.heapIndex == None && now <= due[n] <= now + SLOT_COUNT && due[n] % SLOT_COUNT == n.slot - 1)
    }

    ghost predicate HeapTimed()
      reads this`heap, this`due, this`now
    {
      forall e :: e in heap ==> e.node in due && due[e.node] == e.tick && now <= e.tick
    }

    ghost predicate Shape()
      reads this, nodes
    {
      Rings() && Indexed() && Ordered(heap) && HeapTimed()
      && cursor == now % SLOT_COUNT && due.Keys <= nodes
      && (forall x :: x in wheel ==> x in nodes && x !in due)
      && (forall n :: n in nodes ==> Timed(n))
    }

    ghost function Model(): Schedule<WheelNode>
      reads this`now, this`due
    {
      Schedule(now, due)
    }

    ghost predicate Valid()
      reads this, nodes
    {
      Shape() && Model().Pending()
    }

    lemma HeapHoldsIndexed()
      requires Indexed()
      ensures forall e :: e in heap ==> e.node in nodes && e.node.heapIndex.Some?
    {
    }

    method TakeFromSlot(node: WheelNode)
      requires Shape() && (node in nodes || node.Idle())
      modifies this`lists, this`due, nodes`prev, nodes`next, nodes`slot
      ensures Shape() && node.slot == 0 && due == old(due) - if old(node.slot) > 0 then {node} else {}
      ensures old(node.slot) > 0 ==> node.Idle()
      ensures forall n :: n in nodes && n != node ==> n.slot == old(n.slot)
      ensures forall i: nat :: i < SLOT_COUNT ==>
                |lists[i]| == |old(lists)[i]| - if i == old(node.slot) - 1 then 1 else 0
    {
      hide Rings, Indexed, Ordered;
      HeapHoldsIndexed();
      ghost var scheduled := node.slot > 0;
      ghost var k := Unlink(node);
      due := due - if scheduled then {node} else {};
      SlotsCount();
      forall n | n in nodes ensures Timed(n) { assert old(Timed(n)); }
    }

    lemma SlotsCount()
      requires Rings()
      ensures |lists| == |wheel| == SLOT_COUNT
    {
    }

    method TakeFromHeap(node: WheelNode)
      requires Shape() && node in nodes && node.heapIndex.Some?
      modifies this`heap, this`due, nodes`heapIndex
      ensures Shape() && node.Idle() && due == old(due) - {node}
    {
      hide Rings, Indexed, Ordered;
      PopAt(node);
      due := due - {node};
      forall n | n in nodes ensures Timed(n) { assert old(Timed(n)); }
    }

    method Remove(node: WheelNode)
      requires Shape() && node !in wheel && (node !in nodes ==> node.Idle())
      modifies this`lists, this`heap, this`due, nodes
      ensures Shape() && node.Idle() && (old(Valid()) ==> Valid())
      ensures Model() == TtlWheelSpec.Remove(old(Model()), node)
      ensures forall n :: n in nodes && n != node ==> n.slot == old(n.slot)
    {
      hide Rings, Indexed, Ordered, HeapTimed;
      TakeFromSlot(node);
      if node.heapIndex.Some? {
        TakeFromHeap(node);
      }
    }

    /** A node handed in for the first time joins the known ones, unscheduled. */
    ghost method Adopt(node: WheelNode)
      requires Shape() && node !in wheel && (node !in nodes ==> node.Idle())
      modifies this`nodes
      ensures Shape() && nodes == old(nodes) + {node}
    {
      hide RingsOk, Ordered;
      ghost var before := LinksNow();
      nodes := nodes + {node};
      AdoptKeepsRings(before, LinksNow(), wheel, lists);
    }

    method PlaceInSlot(node: WheelNode, s: nat, ghost at: nat)
      requires Shape() && node in nodes && node !in wheel && node !in due
      requires s < SLOT_COUNT && at % SLOT_COUNT == s && now <= at <= now + SLOT_COUNT
      modifies this`lists, this`due, nodes`prev, nodes`next, nodes`slot
      ensures Shape() && due == old(due)[node := at]
      ensures forall n :: n in nodes && n != node ==> n.slot == old(n.slot)
    {
      hide Rings, Indexed, Ordered;
      HeapHoldsIndexed();
      LinkBefore(node, s);
      due := due[node := at];
      forall n | n in nodes ensures Timed(n) { assert old(Timed(n)); }
    }

    method PlaceInHeap(node: WheelNode, at: nat)
      requires Shape() && node in nodes && node !in wheel && node !in due && now <= at
      modifies this`heap, this`due, nodes`heapIndex
      ensures Shape() && due == old(due)[node := at]
    {
      hide Rings, Indexed, Ordered;
      HeapHoldsIndexed();
      PushHeap(at, node);
      due := due[node := at];
      forall n | n in nodes ensures Timed(n) { assert old(Timed(n)); }
    }

    method Place(node: WheelNode, ticks: nat)
      requires Shape() && node in nodes && node !in wheel && node !in due
      modifies this`lists, this`heap, this`due, nodes
      ensures Shape() && due == old(due)[node := now + Delay(ticks)]
      ensures forall n :: n in nodes && n != node ==> n.slot == old(n.slot)
    {
      if ticks <= SLOT_COUNT {
        SlotOfDue(now, ticks);
        hide Rings, Indexed, Ordered, HeapTimed, Timed;
        PlaceInSlot(node, (cursor + ticks) % SLOT_COUNT, now + Delay(ticks));
      } else {
        hide Rings, Indexed, Ordered, HeapTimed, Timed;
        PlaceInHeap(node, now + ticks);
      }
    }

    method Insert(node: WheelNode, ticks: nat)
      requires Shape() && node !in wheel && (node !in nodes ==> node.Idle())
      modifies this`lists, this`heap, this`due, this`nodes, nodes, node
      ensures Shape() && nodes == old(nodes) + {node} && (old(Valid()) ==> Valid())
      ensures Model() == TtlWheelSpec.Insert(old(Model()), node, ticks)
      ensures node in due && due[node] == now + if ticks == 0 then 256 else ticks
      ensures forall n :: n in old(nodes) && n != node ==> n.slot == old(n.slot)
    {
      hide Rings, Indexed, Ordered, HeapTimed, Timed;
      Remove(node);
      Adopt(node);
      Place(node, ticks);
    }

    constructor ()
      ensures Valid() && Model() == Schedule(0, map[]) && fresh(nodes)
    {
      hide RingsOk, Shape;
      var sentinels := MakeSentinels();
      wheel := sentinels;
      cursor, now, heap := 0, 0, [];
      lists := seq(SLOT_COUNT, _ => []);
      nodes := set x | x in sentinels;
      due := map[];
      new;
      Initially();
    }

    static method MakeSentinels() returns (sentinels: Nodes)
      ensures |sentinels| == SLOT_COUNT && Distinct(sentinels)
      ensures forall x :: x in sentinels ==> fresh(x) && x.next == x.prev == x && x.Idle()
    {
      sentinels := [];
      while |sentinels| < SLOT_COUNT
        invariant |sentinels| <= SLOT_COUNT && Distinct(sentinels)
        invariant forall x :: x in sentinels ==> fresh(x) && x.next == x.prev == x && x.Idle()
      {
        var x := new WheelNode();
        x.prev, x.next := x, x;
        sentinels := sentinels + [x];
      }
    }

    lemma Initially()
      requires cursor == now == 0 && heap == [] && due == map[]
      requires forall x :: x in wheel ==> x.next == x.prev == x && x.Idle()
      requires |wheel| == |lists| == SLOT_COUNT && Distinct(wheel) && nodes == (set x | x in wheel)
      requires forall i :: 0 <= i < SLOT_COUNT ==> lists[i] == []
      ensures Valid()
    {
      SelfLinked();
      hide RingsOk;
    }

    lemma SelfLinked()
      requires |wheel| == |lists| == SLOT_COUNT && Distinct(wheel) && nodes == (set x | x in wheel)
      requires forall x :: x in wheel ==> x.next == x.prev == x && x.slot == 0
      requires forall i :: 0 <= i < SLOT_COUNT ==> lists[i] == []
      ensures Rings()
    {
    }

    // -------------------------------------------------------------- ticking

    lemma SlotHead()
      requires Shape()
      ensures cursor < |wheel| == |lists| && wheel[cursor] in nodes && wheel[cursor].next != null
      ensures var head := wheel[cursor].next;
              if lists[cursor] == [] then head == wheel[cursor] else head == lists[cursor][0] != wheel[cursor]
      ensures forall x :: x in lists[cursor] ==> x in nodes && x.slot == cursor + 1
    {
      Neighbours(cursor, 0);
      assert RingOk(LinksNow(), wheel[cursor], lists[cursor], cursor);
    }

    lemma SlotEmpty()
      requires Shape() && cursor < |lists| && lists[cursor] == []
      ensures SlotsPending()
    {
      hide Indexed, Ordered, HeapTimed, RingOk;
      forall n | n in due && n.slot > 0 ensures due[n] > now {
        assert Timed(n) && LinksNow().slot[n] == n.slot;
      }
    }

    /** No slot holds anything a whole turn ahead, as is the case right after the cursor has moved. */
    ghost predicate WithinTurn()
      reads this`due, this`now, due.Keys`slot
    {
      forall n :: n in due && n.slot > 0 ==> due[n] < now + SLOT_COUNT
    }

    method TakeHead() returns (node: WheelNode)
      requires Shape() && WithinTurn() && cursor < |lists| && lists[cursor] != []
      modifies this`lists, this`due, nodes`prev, nodes`next, nodes`slot
      ensures Shape() && WithinTurn() && |lists| == |old(lists)| && |lists[cursor]| < |old(lists)[cursor]|
      ensures node in old(due) && old(due)[node] == now && due == old(due) - {node}
    {
      hide Shape;
      SlotHead();
      node := wheel[cursor].next;
      HeadIsDue(node);
      TakeFromSlot(node);
      SlotHead();
    }

    /** What is linked under the cursor is due now. */
    lemma HeadIsDue(node: WheelNode)
      requires Shape() && WithinTurn() && node in nodes && node.slot == cursor + 1
      ensures node in due && due[node] == now && cursor < SLOT_COUNT
      ensures due.Keys <= nodes
    {
      hide Rings, Indexed, Ordered, HeapTimed;
      assert Timed(node);
      SameTurn(now, due[node]);
    }

    /** Empty the slot under the cursor; everything in it is due now. */
    method DrainSlot() returns (batch: seq<WheelNode>)
      requires Shape() && WithinTurn()
      modifies this`lists, this`due, nodes`prev, nodes`next, nodes`slot
      ensures Shape() && Distinct(batch) && due == old(due) - Elements(batch)
      ensures forall x :: x in batch ==> x in old(due) && old(due)[x] == now
      ensures SlotsPending()
    {
      hide Shape, WithinTurn, SlotsPending;
      batch := [];
      SlotHead();
      while wheel[cursor].next != wheel[cursor]
        invariant Shape() && WithinTurn()
        invariant Distinct(batch) && due == old(due) - Elements(batch)
        invariant forall x :: x in batch ==> x in old(due) && old(due)[x] == now
        invariant cursor < |wheel| == |lists|
        invariant wheel[cursor].next == wheel[cursor] <==> lists[cursor] == []
        decreases |lists[cursor]|
      {
        var node := TakeHead();
        batch := batch + [node];
        SlotHead();
      }
      SlotEmpty();
    }

    /** Nothing in a slot is due; what is due now sits in the heap. */
    ghost predicate SlotsPending()
      reads this`due, this`now, due.Keys`slot
    {
      forall n :: n in due && n.slot > 0 ==> due[n] > now
    }

    /** The callback: what `again` names is scheduled once more. */
    method OnExpired(node: WheelNode, again: map<WheelNode, nat>)
      requires Shape() && SlotsPending() && node in nodes && node !in wheel && node !in due
      modifies this`lists, this`heap, this`due, this`nodes, nodes
      ensures Shape() && SlotsPending() && nodes == old(nodes)
      ensures due == if node in again then old(due)[node := now + Delay(again[node])] else old(due)
    {
      hide Shape, Valid;
      KeysKnown();
      if node in again {
        Insert(node, again[node]);
        forall n | n in due && n.slot > 0 ensures due[n] > now {
          assert n != node ==> n in old(due) && old(n.slot) > 0;
        }
      }
    }

    lemma KeysKnown()
      requires Shape()
      ensures due.Keys <= nodes && forall x :: x in wheel ==> x !in due
    {
    }

    method CallBack(batch: seq<WheelNode>, again: map<WheelNode, nat>, ghost due0: map<WheelNode, nat>)
      requires Shape() && SlotsPending() && Distinct(batch) && due0.Keys <= nodes
      requires forall x :: x in wheel ==> x !in due0
      requires Elements(batch) <= due0.Keys && due == due0 - Elements(batch)
      modifies this`lists, this`heap, this`due, this`nodes, nodes
      ensures Shape() && SlotsPending() && nodes == old(nodes)
      ensures due == Refired(due0, Elements(batch), Elements(batch), now, again)
    {
      hide Shape, SlotsPending, Refired;
      ghost var gone := Elements(batch);
      NoneCalled(due0, gone, now, again);
      assert Elements(batch[..0]) == {};
      for i := 0 to |batch|
        invariant Shape() && SlotsPending() && nodes == old(nodes)
        invariant due == Refired(due0, gone, Elements(batch[..i]), now, again)
      {
        ghost var called := Elements(batch[..i]);
        assert batch[i] in gone && batch[i] !in called;
        CalledOnce(due0, gone, called, now, again, batch[i]);
        OnExpired(batch[i], again);
        assert Elements(batch[..i + 1]) == called + {batch[i]};
      }
      assert batch[..|batch|] == batch;
    }

    method ExpireSlot(again: map<WheelNode, nat>) returns (batch: seq<WheelNode>)
      requires Shape() && WithinTurn()
      modifies this`lists, this`heap, this`due, this`nodes, nodes
      ensures Shape() && SlotsPending() && nodes == old(nodes) && Distinct(batch)
      ensures forall x :: x in batch ==> x in old(due) && old(due)[x] == now
      ensures due == Refired(old(due), Elements(batch), Elements(batch), now, again)
    {
      hide Shape, SlotsPending, Refired, WithinTurn;
      KeysKnown();
      batch := DrainSlot();
      CallBack(batch, again, old(due));
    }

    lemma RootIsDue()
      requires Shape() && heap != []
      ensures heap[0].node in due && heap[0].node in nodes && heap[0].node.heapIndex.Some?
      ensures due[heap[0].node] == heap[0].tick >= now && heap[0].node !in wheel
    {
      assert heap[0] in heap;
    }

    lemma HeapPending()
      requires Shape() && SlotsPending() && (heap == [] || heap[0].tick > now)
      ensures Model().Pending()
    {
      forall n | n in due ensures due[n] > now {
        assert Timed(n);
        if n.heapIndex.Some? {
          RootIsEarliest(heap, n.heapIndex.value);
          assert heap[n.heapIndex.value] in heap;
        }
      }
    }

    /** Take the root off the heap, then call back. */
    method FireRoot(again: map<WheelNode, nat>, ghost due0: map<WheelNode, nat>, ghost called: set<WheelNode>)
      returns (node: WheelNode)
      requires Shape() && SlotsPending() && heap != [] && heap[0].tick <= now
      requires due == Refired(due0, called, called, now, again)
      modifies this`lists, this`heap, this`due, this`nodes, nodes
      ensures Shape() && SlotsPending() && nodes == old(nodes)
      ensures node in due0 && due0[node] == now && node !in called
      ensures due == Refired(due0, called + {node}, called + {node}, now, again)
    {
      hide Shape, SlotsPending, Refired;
      node := heap[0].node;
      RootIsDue();
      StillWaiting(due0, called, now, again, node);
      CallsOne(due0, called, now, again, node);
      PopRoot(node);
      OnExpired(node, again);
    }

    /** Fire everything at the top of the heap that is due. */
    method ExpireHeap(again: map<WheelNode, nat>) returns (fired: seq<WheelNode>)
      requires Shape() && SlotsPending()
      modifies this`lists, this`heap, this`due, this`nodes, nodes
      ensures Valid() && nodes == old(nodes) && Distinct(fired)
      ensures forall x :: x in fired ==> x in old(due) && old(due)[x] == now
      ensures due == Refired(old(due), Elements(fired), Elements(fired), now, again)
    {
      hide Shape, SlotsPending, Refired;
      fired := [];
      ghost var called: set<WheelNode> := {};
      ghost var left := due.Keys;
      NoneCalled(due, {}, now, again);
      while heap != [] && heap[0].tick <= now
        invariant Shape() && SlotsPending() && nodes == old(nodes) && Distinct(fired) && called == Elements(fired)
        invariant forall x :: x in fired ==> x in old(due) && old(due)[x] == now
        invariant due == Refired(old(due), called, called, now, again)
        invariant left == old(due).Keys - called
        decreases left
      {
        var node := FireRoot(again, old(due), called);
        fired := fired + [node];
        called := called + {node};
        left := left - {node};
      }
      HeapPending();
    }

    method PopRoot(node: WheelNode)
      requires Shape() && SlotsPending() && node in nodes && node.heapIndex.Some?
      modifies this`heap, this`due, nodes`heapIndex
      ensures Shape() && SlotsPending() && due == old(due) - {node}
    {
      TakeFromHeap(node);
    }

    /** Moving the cursor and the tick count together keeps every slot where it belongs. */
    method Advance()
      requires Valid()
      modifies this`cursor, this`now
      ensures Shape() && WithinTurn() && now == old(now) + 1
    {
      hide Rings, Indexed, Ordered;
      forall n | n in due ensures due[n] > now && Timed(n) { }
      cursor := (cursor + 1) % SLOT_COUNT;
      now := now + 1;
      forall n | n in nodes ensures Timed(n) { assert old(Timed(n)); }
    }

    /** One tick fires exactly the nodes due, each once, and schedules again those the callback asks for. */
    method Tick(again: map<WheelNode, nat>) returns (fired: seq<WheelNode>)
      requires Valid()
      modifies this, nodes
      ensures Valid() && nodes == old(nodes)
      ensures Model() == TtlWheelSpec.Tick(old(Model()), again)
      ensures Distinct(fired) && Elements(fired) == Fired(old(Model()))
    {
      hide Shape, SlotsPending, Refired, WithinTurn;
      Advance();
      var first := ExpireSlot(again);
      ghost var mid := due;
      var second := ExpireHeap(again);
      fired := first + second;
      ghost var s, t := Elements(first), Elements(second);
      FiredTwice(old(due), s, t, mid, now, again);
      DistinctConcat(first, second);
      assert Elements(fired) == s + t;
    }
  }

  lemma DistinctConcat<N>(a: seq<N>, b: seq<N>)
    requires Distinct(a) && Distinct(b) && Elements(a) !! Elements(b)
    ensures Distinct(a + b)
  {
    forall i, j | 0 <= i < j < |a + b| ensures (a + b)[i] != (a + b)[j] {
      if i < |a| <= j { assert a[i] in Elements(a) && b[j - |a|] in Elements(b); }
    }
  }

  /** What is due now has not been through the callback yet. */
  lemma StillWaiting<N>(due: map<N, nat>, called: set<N>, now: nat, again: map<N, nat>, n: N)
    requires n in Refired(due, called, called, now, again) && Refired(due, called, called, now, again)[n] <= now
    ensures n in due && n !in called && due[n] == Refired(due, called, called, now, again)[n]
  {
  }

  lemma CallsOne<N>(due: map<N, nat>, called: set<N>, now: nat, again: map<N, nat>, n: N)
    requires n in due && n !in called
    ensures var d := Refired(due, called, called, now, again) - {n};
            Refired(due, called + {n}, called + {n}, now, again)
            == if n in again then d[n := now + Delay(again[n])] else d
  {
  }

  /** Two rounds of firing at the same tick are one, and together they fire everything due then. */
  lemma FiredTwice<N>(due: map<N, nat>, s: set<N>, t: set<N>, mid: map<N, nat>, now: nat, again: map<N, nat>)
    requires mid == Refired(due, s, s, now, again)
    requires forall n :: n in s ==> n in due && due[n] == now
    requires forall n :: n in t ==> n in mid && mid[n] == now
    requires forall n :: n in Refired(mid, t, t, now, again) ==> Refired(mid, t, t, now, again)[n] > now
    ensures s !! t && s + t == set n | n in due && due[n] == now
    ensures Refired(mid, t, t, now, again) == Refired(due, s + t, s + t, now, again)
  {
    forall n | n in due && due[n] == now ensures n in s + t {
      assert n in s + t || n in Refired(mid, t, t, now, again);
    }
  }

  lemma NoneCalled<N>(due: map<N, nat>, gone: set<N>, now: nat, again: map<N, nat>)
    ensures Refired(due, gone, {}, now, again) == due - gone
  {
  }

  /** One more entry has been through the callback. */
  lemma CalledOnce<N>(due: map<N, nat>, gone: set<N>, called: set<N>, now: nat, again: map<N, nat>, n: N)
    requires n in due && n in gone && n !in called
    ensures n !in Refired(due, gone, called, now, again)
    ensures var d := Refired(due, gone, called, now, again);
            Refired(due, gone, called + {n}, now, again) == if n in again then d[n := now + Delay(again[n])] else d
  {
  }
}
