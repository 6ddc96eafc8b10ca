/**
 The hint queue as it is built: a fixed slot array threaded by a doubly linked FIFO, a free list
 and a never-used suffix, with a generation per slot. Each method is proved to do to `Model()`
 exactly what the sequence-level operation of HintQueueSpec does.
 */
module HintQueueImpl {
  import opened Common
  import opened Lww
  import opened HintQueueSpec

  const NONE: nat := CAPACITY

  datatype Slot = Slot(hint: Option<Hint>, prev: nat, next: nat, freeNext: nat, generation: nat)

  /** The `k`-th slot of the FIFO points at its two neighbours. */
  ghost predicate Linked(s: seq<Slot>, order: seq<nat>, k: int) {
    0 <= k < |order| && order[k] < |s| ==>
      && s[order[k]].prev == (if k == 0 then NONE else order[k - 1])
      && s[order[k]].next == (if k + 1 == |order| then NONE else order[k + 1])
  }

  ghost predicate Filled(s: seq<Slot>, order: seq<nat>) {
    forall k :: 0 <= k < |order| ==> order[k] < |s| && s[order[k]].hint.Some?
  }

  /** The FIFO: following `next` from `head` visits exactly `order`, and `prev` runs it backwards. */
  ghost predicate Chain(s: seq<Slot>, order: seq<nat>, head: nat, tail: nat) {
    && Distinct(order)
    && Filled(s, order)
    && (forall k :: Linked(s, order, k))
    && head == (if order == [] then NONE else order[0])
    && tail == (if order == [] then NONE else order[|order| - 1])
  }

  ghost predicate FreeLinked(s: seq<Slot>, free: seq<nat>, k: int) {
    0 <= k < |free| && free[k] < |s| ==> s[free[k]].freeNext == (if k + 1 == |free| then NONE else free[k + 1])
  }

  ghost predicate Vacant(s: seq<Slot>, free: seq<nat>) {
    forall k :: 0 <= k < |free| ==> free[k] < |s| && s[free[k]].hint.None?
  }

  ghost predicate FreeChain(s: seq<Slot>, free: seq<nat>, freeHead: nat) {
    && Distinct(free)
    && Vacant(s, free)
    && (forall k :: FreeLinked(s, free, k))
    && freeHead == (if free == [] then NONE else free[0])
  }

  ghost function View(s: seq<Slot>, order: seq<nat>): (r: seq<Live>)
    requires Filled(s, order)
  {
    seq(|order|, k requires 0 <= k < |order| =>
      Live(Handle(order[k], s[order[k]].generation), s[order[k]].hint.value))
  }

  // ------------------------------------------------- the lists under the three link updates

  ghost predicate SameLinks(s: seq<Slot>, t: seq<Slot>, order: seq<nat>) {
    && |s| == |t|
    && (forall k :: 0 <= k < |order| && order[k] < |s| ==>
          var a, b := s[order[k]], t[order[k]];
          a.hint == b.hint && a.prev == b.prev && a.next == b.next && a.generation == b.generation)
  }

  lemma ChainFrame(s: seq<Slot>, t: seq<Slot>, order: seq<nat>, head: nat, tail: nat)
    requires Chain(s, order, head, tail) && SameLinks(s, t, order)
    ensures Chain(t, order, head, tail)
    ensures View(t, order) == View(s, order)
  {
    forall k ensures Linked(t, order, k) { assert Linked(s, order, k); }
  }

  lemma FreeChainFrame(s: seq<Slot>, t: seq<Slot>, free: seq<nat>, freeHead: nat)
    requires FreeChain(s, free, freeHead) && |s| == |t|
    requires forall k :: 0 <= k < |free| ==>
               t[free[k]].hint == s[free[k]].hint && t[free[k]].freeNext == s[free[k]].freeNext
    ensures FreeChain(t, free, freeHead)
  {
    forall k ensures FreeLinked(t, free, k) { assert FreeLinked(s, free, k); }
  }

  lemma FreeChainTail(s: seq<Slot>, free: seq<nat>, freeHead: nat)
    requires FreeChain(s, free, freeHead) && free != []
    ensures FreeChain(s, free[1..], s[freeHead].freeNext)
  {
    assert FreeLinked(s, free, 0);
    forall k ensures FreeLinked(s, free[1..], k) { assert FreeLinked(s, free, k + 1); }
  }

  lemma FreeChainCons(s: seq<Slot>, free: seq<nat>, freeHead: nat, index: nat)
    requires FreeChain(s, free, freeHead) && index < |s| && index !in free
    requires s[index].hint.None? && s[index].freeNext == freeHead
    ensures FreeChain(s, [index] + free, index)
  {
    var longer := [index] + free;
    forall k ensures FreeLinked(s, longer, k) { assert FreeLinked(s, free, k - 1); }
  }

  /** The slots after the neighbours of `index` are joined around it. */
  function Bypassed(s: seq<Slot>, index: nat): (t: seq<Slot>)
    requires index < |s|
    ensures |t| == |s|
    ensures forall i :: 0 <= i < |s| ==>
              t[i] == s[i].(next := if i == s[index].prev then s[index].next else s[i].next,
                            prev := if i == s[index].next then s[index].prev else s[i].prev)
  {
    var slot := s[index];
    var u := if slot.prev < |s| then s[slot.prev := s[slot.prev].(next := slot.next)] else s;
    if slot.next < |s| then u[slot.next := u[slot.next].(prev := slot.prev)] else u
  }

  lemma BypassLinked(s: seq<Slot>, order: seq<nat>, head: nat, tail: nat, k: nat, freed: Slot, j: int)
    requires |s| == CAPACITY && Chain(s, order, head, tail) && k < |order|
    ensures Linked(Bypassed(s, order[k])[order[k] := freed], RemoveAt(order, k), j)
  {
    var rest := RemoveAt(order, k);
    if 0 <= j < |rest| {
      var o := if j < k then j else j + 1;
      assert rest[j] == order[o] != order[k];
      assert Linked(s, order, k) && Linked(s, order, o);
      assert j > 0 ==> rest[j - 1] == order[if j - 1 < k then j - 1 else j];
      assert j + 1 < |rest| ==> rest[j + 1] == order[if j + 1 < k then j + 1 else j + 2];
    }
  }

  lemma BypassView(s: seq<Slot>, order: seq<nat>, k: nat, freed: Slot)
    requires |s| == CAPACITY && Filled(s, order) && Distinct(order) && k < |order|
    ensures Filled(Bypassed(s, order[k])[order[k] := freed], RemoveAt(order, k)) && Distinct(RemoveAt(order, k))
    ensures View(Bypassed(s, order[k])[order[k] := freed], RemoveAt(order, k)) == RemoveAt(View(s, order), k)
  {
    var rest := RemoveAt(order, k);
    assert forall j :: 0 <= j < |rest| ==> rest[j] == order[if j < k then j else j + 1];
  }

  lemma ChainBypass(s: seq<Slot>, order: seq<nat>, head: nat, tail: nat, k: nat, freed: Slot)
    requires |s| == CAPACITY && Chain(s, order, head, tail) && k < |order|
    ensures var slot := s[order[k]];
            Chain(Bypassed(s, order[k])[order[k] := freed], RemoveAt(order, k),
                  if slot.prev != NONE then head else slot.next,
                  if slot.next != NONE then tail else slot.prev)
  {
    BypassView(s, order, k, freed);
    var t, rest := Bypassed(s, order[k])[order[k] := freed], RemoveAt(order, k);
    forall j ensures Linked(t, rest, j) {
      BypassLinked(s, order, head, tail, k, freed, j);
    }
    assert Linked(s, order, k);
  }

  lemma ChainAppend(s: seq<Slot>, order: seq<nat>, head: nat, tail: nat, index: nat)
    requires |s| == CAPACITY && Chain(s, order, head, tail)
    requires index < CAPACITY && index !in order && s[index].hint.Some?
    ensures tail == NONE || tail < CAPACITY
    ensures var u := s[index := s[index].(prev := tail, next := NONE)];
            var t := if tail != NONE && tail < CAPACITY then u[tail := u[tail].(next := index)] else u;
            && Chain(t, order + [index], if tail != NONE then head else index, index)
            && View(t, order + [index])
               == View(s, order) + [Live(Handle(index, s[index].generation), s[index].hint.value)]
  {
    var u := s[index := s[index].(prev := tail, next := NONE)];
    var t := if tail != NONE && tail < CAPACITY then u[tail := u[tail].(next := index)] else u;
    var longer := order + [index];
    forall j ensures Linked(t, longer, j) {
      assert Linked(s, order, j);
    }
  }

  ghost predicate Below(t: seq<nat>, n: nat) {
    forall k :: 0 <= k < |t| ==> t[k] < n
  }

  /**
   The whole slot array: the live list, the free list and the never-used suffix, with `transit`
   used slots momentarily in neither list. Live slots hold a hint and free ones do not, so
   the two lists are disjoint, and the lengths add up to the used prefix.
   */
  ghost predicate Shape(s: seq<Slot>, order: seq<nat>, free: seq<nat>, transit: nat,
                        head: nat, tail: nat, freeHead: nat, nextUnused: nat) {
    && |s| == CAPACITY
    && nextUnused <= CAPACITY
    && Chain(s, order, head, tail)
    && FreeChain(s, free, freeHead)
    && Below(order, nextUnused) && Below(free, nextUnused)
    && |order| + |free| + transit == nextUnused
    && (forall i :: nextUnused <= i < CAPACITY ==> s[i].hint.None? && s[i].generation == 0)
  }

  lemma {:induction false} Pigeonhole(a: seq<nat>, n: nat)
    requires Distinct(a) && Below(a, n) && |a| == n
    ensures forall i :: 0 <= i < n ==> i in a
  {
    if n == 0 {
    } else {
      if n - 1 !in a { DistinctBound(a, n - 1); }
      var k :| 0 <= k < n && a[k] == n - 1;
      var b := RemoveAt(a, k);
      assert Below(b, n - 1);
      Pigeonhole(b, n - 1);
      forall i | 0 <= i < n ensures i in a {
        if i < n - 1 { assert i in b; }
      }
    }
  }

  lemma {:induction false} DistinctBound(a: seq<nat>, n: nat)
    requires Distinct(a) && Below(a, n)
    ensures |a| <= n
  {
    if a == [] {
    } else {
      assert a[0] < n;
      if n - 1 in a {
        var k :| 0 <= k < |a| && a[k] == n - 1;
        DistinctBound(RemoveAt(a, k), n - 1);
      } else {
        DistinctBound(a, n - 1);
      }
    }
  }

  /** Live list, free list and unused suffix partition the slots. */
  lemma SlotsArePartitioned(s: seq<Slot>, order: seq<nat>, free: seq<nat>,
                            head: nat, tail: nat, freeHead: nat, nextUnused: nat, i: nat)
    requires Shape(s, order, free, 0, head, tail, freeHead, nextUnused) && i < CAPACITY
    ensures s[i].hint.Some? <==> i in order
    ensures i in order ==> i !in free && i < nextUnused
    ensures i in free ==> i < nextUnused
    ensures i < nextUnused ==> i in order || i in free
  {
    if i < nextUnused {
      var both := order + free;
      assert Distinct(both) by {
        forall a, b | 0 <= a < b < |both| ensures both[a] != both[b] {
          if a < |order| <= b { assert s[order[a]].hint.Some? && s[free[b - |order|]].hint.None?; }
        }
      }
      Pigeonhole(both, nextUnused);
      assert i in both;
    }
  }

  /** Every handle given out is at or behind its slot's generation; the current one names the slot's hint. */
  ghost predicate Issuance(s: seq<Slot>, issued: map<Handle, Hint>) {
    && (forall h :: h in issued ==> h.index < |s| && h.generation <= s[h.index].generation)
    && (forall i :: 0 <= i < |s| && s[i].hint.Some? ==>
          && Handle(i, s[i].generation) in issued
          && issued[Handle(i, s[i].generation)] == s[i].hint.value)
  }

  function Freed(slot: Slot, freeHead: nat): Slot {
    slot.(hint := None, prev := NONE, next := NONE, freeNext := freeHead)
  }

  lemma ReleaseShape(s: seq<Slot>, order: seq<nat>, free: seq<nat>,
                     head: nat, tail: nat, freeHead: nat, nextUnused: nat, k: nat)
    requires Shape(s, order, free, 0, head, tail, freeHead, nextUnused) && k < |order|
    ensures var slot := s[order[k]];
            && slot.prev == (if k == 0 then NONE else order[k - 1])
            && slot.next == (if k + 1 == |order| then NONE else order[k + 1])
            && slot.prev != order[k] && slot.next != order[k]
            && Shape(Bypassed(s, order[k])[order[k] := Freed(slot, freeHead)], RemoveAt(order, k), [order[k]] + free, 0,
                     if slot.prev != NONE then head else slot.next,
                     if slot.next != NONE then tail else slot.prev,
                     order[k], nextUnused)
  {
    var index, slot := order[k], s[order[k]];
    var t := Bypassed(s, index)[index := Freed(slot, freeHead)];
    assert Linked(s, order, k);
    ChainBypass(s, order, head, tail, k, Freed(slot, freeHead));
    FreeChainFrame(s, t, free, freeHead);
    FreeChainCons(t, free, freeHead, index);
  }

  lemma ReleaseIssuance(s: seq<Slot>, t: seq<Slot>, issued: map<Handle, Hint>)
    requires Issuance(s, issued) && |s| == |t|
    requires forall i :: 0 <= i < |s| ==>
               t[i].generation == s[i].generation && (t[i].hint == s[i].hint || t[i].hint.None?)
    ensures Issuance(t, issued)
  {
  }

  lemma ReleaseView(s: seq<Slot>, order: seq<nat>, freeHead: nat, issued: map<Handle, Hint>, k: nat)
    requires |s| == CAPACITY && Filled(s, order) && Distinct(order) && k < |order|
    requires Issuance(s, issued) && Coherent(View(s, order), issued)
    ensures var slot := s[order[k]];
            var t, rest := Bypassed(s, order[k])[order[k] := Freed(slot, freeHead)], RemoveAt(order, k);
            && Issuance(t, issued)
            && Filled(t, rest)
            && View(t, rest) == RemoveAt(View(s, order), k)
            && Coherent(View(t, rest), issued)
            && EstimatedBytes(slot.hint.value) <= TotalBytes(View(s, order))
            && TotalBytes(View(t, rest)) == TotalBytes(View(s, order)) - EstimatedBytes(slot.hint.value)
  {
    var slot := s[order[k]];
    ReleaseIssuance(s, Bypassed(s, order[k])[order[k] := Freed(slot, freeHead)], issued);
    BypassView(s, order, k, Freed(slot, freeHead));
    TotalBytesRemoveAt(View(s, order), k);
    RemoveAtKeeps(View(s, order), issued, k);
  }

  lemma EmplaceIssuance(s: seq<Slot>, issued: map<Handle, Hint>, index: nat, hint: Hint)
    requires Issuance(s, issued) && index < |s|
    ensures var slot := s[index].(generation := s[index].generation + 1, hint := Some(hint));
            var handle := Handle(index, slot.generation);
            && handle !in issued
            && Issuance(s[index := slot], issued[handle := hint])
  {
  }

  /** A handle is live exactly when its slot is filled under its generation. */
  lemma LocateHandle(s: seq<Slot>, order: seq<nat>, free: seq<nat>, head: nat, tail: nat, freeHead: nat,
                     nextUnused: nat, handle: Handle) returns (k: nat)
    requires Shape(s, order, free, 0, head, tail, freeHead, nextUnused)
    ensures k == IndexOf(View(s, order), handle)
    ensures if handle.index < CAPACITY && s[handle.index].hint.Some? && s[handle.index].generation == handle.generation
            then k < |order| && order[k] == handle.index
            else k == |order|
  {
    var live := View(s, order);
    k := IndexOf(live, handle);
    if handle.index < CAPACITY && s[handle.index].hint.Some? && s[handle.index].generation == handle.generation {
      SlotsArePartitioned(s, order, free, head, tail, freeHead, nextUnused, handle.index);
      var j :| 0 <= j < |order| && order[j] == handle.index;
      assert live[j].handle == handle;
    }
  }

  /** A scan in progress: `batch` is copied and `rest` is still to be walked. */
  ghost predicate Scanned(live: seq<Live>, batch: seq<Live>, rest: seq<Live>, now: int, max: nat) {
    && |batch| <= max
    && Scan(live, now, max).0 == batch + Scan(rest, now, max - |batch|).0
    && Scan(live, now, max).1 == batch + Scan(rest, now, max - |batch|).1
  }

  function Kept(e: Live, now: int): seq<Live> {
    if e.hint.expiresAt <= now then [] else [e]
  }

  lemma ScannedStart(live: seq<Live>, now: int, max: nat)
    ensures Scanned(live, [], live, now, max)
    ensures [] + live == live
  {
    assert [] + Scan(live, now, max).0 == Scan(live, now, max).0;
    assert [] + Scan(live, now, max).1 == Scan(live, now, max).1;
  }

  lemma ScannedStep(live: seq<Live>, batch: seq<Live>, rest: seq<Live>, now: int, max: nat)
    requires Scanned(live, batch, rest, now, max) && rest != [] && |batch| < max
    ensures Scanned(live, batch + Kept(rest[0], now), rest[1..], now, max) && |batch + Kept(rest[0], now)| <= max
    ensures (batch + rest)[|batch|] == rest[0]
    ensures var k := |batch|;
            (batch + rest)[..k] + Kept((batch + rest)[k], now) + (batch + rest)[k + 1..]
            == batch + Kept(rest[0], now) + rest[1..]
  {
    if rest[0].hint.expiresAt <= now {
      assert batch + [] == batch;
    } else {
      var tail := Scan(rest[1..], now, max - |batch| - 1);
      assert batch + ([rest[0]] + tail.0) == batch + [rest[0]] + tail.0;
      assert batch + ([rest[0]] + tail.1) == batch + [rest[0]] + tail.1;
    }
  }

  lemma ScannedEnd(live: seq<Live>, batch: seq<Live>, rest: seq<Live>, now: int, max: nat)
    requires Scanned(live, batch, rest, now, max) && (rest == [] || |batch| == max)
    ensures Scan(live, now, max) == (batch + rest, batch)
  {
    assert batch + [] == batch;
  }

  /** A queue without room is not empty, so the eviction loop never reads an empty list. */
  lemma DropCountStep(live: seq<Live>, incoming: nat, maxBytes: nat)
    requires incoming <= maxBytes
    ensures if |live| != CAPACITY && TotalBytes(live) + incoming <= maxBytes
            then DropCount(live, incoming, maxBytes) == 0
            else live != [] && DropCount(live, incoming, maxBytes) == 1 + DropCount(live[1..], incoming, maxBytes)
  {
  }

  lemma SuffixAbsent(live: seq<Live>, d: nat, target: NodeId, key: Key)
    requires Absent(live, target, key) && d <= |live|
    ensures Absent(live[d..], target, key)
  {
  }

  class HintQueue {
    const slots: array<Slot>
    var nextUnused: nat
    var freeHead: nat
    var head: nat
    var tail: nat
    var size: nat
    var currentBytes: nat
    var maxBytes: nat
    var dropped: nat

    ghost var order: seq<nat>
    ghost var free: seq<nat>
    ghost var issued: map<Handle, Hint>

    /** The slot array is well threaded, apart from `transit` slots that belong to no list. */
    ghost predicate Structure(transit: nat)
      reads this, slots
    {
      Shape(slots[..], order, free, transit, head, tail, freeHead, nextUnused)
    }

    ghost predicate Valid()
      reads this, slots
    {
      && Structure(0)
      && Issuance(slots[..], issued)
      && size == |order|
      && currentBytes == TotalBytes(View(slots[..], order))
      && Coherent(View(slots[..], order), issued)
    }

    /** The queue as a value. */
    ghost function Model(): Queue
      reads this, slots
      requires Valid()
    {
      Queue(View(slots[..], order), issued, maxBytes, dropped)
    }

    constructor ()
      ensures Valid() && fresh(slots)
      ensures Model() == Queue([], map[], DEFAULT_MAX_BYTES, 0)
    {
      slots := new Slot[CAPACITY](_ => Slot(None, NONE, NONE, NONE, 0));
      nextUnused, freeHead, head, tail := 0, NONE, NONE, NONE;
      size, currentBytes, maxBytes, dropped := 0, 0, DEFAULT_MAX_BYTES, 0;
      order, free, issued := [], [], map[];
      new;
      assert View(slots[..], order) == [];
    }

    /** What the counters and ends say about the value. */
    lemma Observe()
      requires Valid()
      ensures size == |order| == |Model().live| <= CAPACITY
      ensures currentBytes == TotalBytes(Model().live)
      ensures Model().maxBytes == maxBytes && Model().issued == issued && Model().dropped == dropped
      ensures head == (if order == [] then NONE else order[0]) && (order != [] ==> head < CAPACITY)
    {
    }

    lemma WellFormedModel()
      requires Valid()
      ensures WellFormed(Model())
    {
    }

    lemma ObserveSlot(k: nat)
      requires Valid() && k < |order|
      ensures order[k] < CAPACITY == slots.Length && slots[order[k]].hint.Some? && k < |Model().live|
      ensures Model().live[k] == Live(Handle(order[k], slots[order[k]].generation), slots[order[k]].hint.value)
      ensures slots[order[k]].next == (if k + 1 < |order| then order[k + 1] else NONE)
      ensures slots[order[k]].next == NONE <==> k + 1 == |order|
    {
      assert Linked(slots[..], order, k);
    }

    /** Take a slot from the free list, or the next never-used one. */
    method AcquireSlot() returns (index: nat)
      requires Structure(0) && |order| < CAPACITY
      modifies this`nextUnused, this`freeHead, this`free, slots
      ensures Structure(1)
      ensures index < nextUnused && index !in order && index !in free && slots[index].hint.None?
      ensures View(slots[..], order) == old(View(slots[..], order))
      ensures forall i :: 0 <= i < CAPACITY ==>
                slots[i].hint == old(slots[i].hint) && slots[i].generation == old(slots[i].generation)
    {
      ghost var s := slots[..];
      if freeHead != NONE {
        index := freeHead;
        FreeChainTail(s, free, freeHead);
        freeHead := slots[index].freeNext;
        slots[index] := slots[index].(freeNext := NONE);
        free := free[1..];
        FreeChainFrame(s, slots[..], free, freeHead);
      } else {
        index := nextUnused;
        nextUnused := nextUnused + 1;
      }
      ChainFrame(s, slots[..], order, head, tail);
    }

    /** Append a filled slot to the FIFO. */
    method LinkAtTail(index: nat)
      requires Structure(1) && index < nextUnused && index !in order && index !in free
      requires slots[index].hint.Some?
      modifies this`head, this`tail, this`order, slots
      ensures Structure(0)
      ensures View(slots[..], order) == old(View(slots[..], order)
                + [Live(Handle(index, slots[index].generation), slots[index].hint.value)])
      ensures order == old(order) + [index]
      ensures forall i :: 0 <= i < CAPACITY ==>
                slots[i].hint == old(slots[i].hint) && slots[i].generation == old(slots[i].generation)
    {
      ghost var s := slots[..];
      ChainAppend(s, order, head, tail, index);
      slots[index] := slots[index].(prev := tail, next := NONE);
      if tail != NONE {
        slots[tail] := slots[tail].(next := index);
      } else {
        head := index;
      }
      FreeChainFrame(s, slots[..], free, freeHead);
      tail := index;
      order := order + [index];
    }

    /** The updates alone: join the neighbours, clear the slot, put it at the front of the free list. */
    method Unthread(index: nat, ghost k: nat)
      requires slots.Length == CAPACITY && index < CAPACITY && k < |order|
      requires slots[index].prev <= NONE && slots[index].next <= NONE
      requires slots[index].prev != index && slots[index].next != index
      requires slots[index].hint.Some? && EstimatedBytes(slots[index].hint.value) <= currentBytes && size > 0
      modifies this`head, this`tail, this`freeHead, this`size, this`currentBytes, this`order, this`free, slots
      ensures slots[..] == Bypassed(old(slots[..]), index)[index := Freed(old(slots[index]), old(freeHead))]
      ensures head == (if old(slots[index]).prev != NONE then old(head) else old(slots[index]).next)
      ensures tail == (if old(slots[index]).next != NONE then old(tail) else old(slots[index]).prev)
      ensures freeHead == index && size == old(size) - 1
      ensures currentBytes == old(currentBytes) - EstimatedBytes(old(slots[index]).hint.value)
      ensures order == RemoveAt(old(order), k) && free == [index] + old(free)
    {
      var slot := slots[index];
      currentBytes := currentBytes - EstimatedBytes(slot.hint.value);
      if slot.prev != NONE {
        slots[slot.prev] := slots[slot.prev].(next := slot.next);
      } else {
        head := slot.next;
      }
      if slot.next != NONE {
        slots[slot.next] := slots[slot.next].(prev := slot.prev);
      } else {
        tail := slot.prev;
      }
      slots[index] := slots[index].(hint := None, prev := NONE, next := NONE, freeNext := freeHead);
      freeHead := index;
      size := size - 1;
      order, free := RemoveAt(order, k), [index] + free;
    }

    /** The same on the lists: the slot leaves the FIFO and becomes the first free one. */
    method Release(index: nat, ghost k: nat)
      requires Structure(0) && k < |order| && order[k] == index
      requires EstimatedBytes(slots[index].hint.value) <= currentBytes && size > 0
      modifies this`head, this`tail, this`freeHead, this`size, this`currentBytes, this`order, this`free, slots
      ensures Structure(0)
      ensures order == RemoveAt(old(order), k)
      ensures slots[..] == Bypassed(old(slots[..]), index)[index := Freed(old(slots[index]), old(freeHead))]
      ensures size == old(size) - 1
      ensures currentBytes == old(currentBytes) - EstimatedBytes(old(slots[index]).hint.value)
    {
      ReleaseShape(slots[..], order, free, head, tail, freeHead, nextUnused, k);
      Unthread(index, k);
    }

    /** Take a live slot out of the queue. */
    method UnlinkAndRelease(index: nat, ghost k: nat)
      requires Valid() && k < |order| && order[k] == index
      modifies this`head, this`tail, this`freeHead, this`size, this`currentBytes, this`order, this`free, slots
      ensures Valid()
      ensures order == RemoveAt(old(order), k)
      ensures Model() == old(Model()).(live := RemoveAt(old(Model()).live, k))
    {
      ReleaseView(slots[..], order, freeHead, issued, k);
      Release(index, k);
    }

    /** Walk the FIFO for the hint queued for (target, key). */
    method FindSlot(target: NodeId, key: Key) returns (index: nat, ghost k: nat)
      requires Valid()
      ensures k == Find(Model().live, target, key)
      ensures if k < |order| then index == order[k] < CAPACITY else index == NONE
    {
      hide Valid, Model;
      Observe();
      index, k := head, 0;
      while index != NONE
        invariant k <= |order|
        invariant if k < |order| then index == order[k] < CAPACITY else index == NONE
        invariant forall i :: 0 <= i < k ==> !Names(Model().live[i].hint, target, key)
        decreases |order| - k
      {
        ObserveSlot(k);
        if Names(slots[index].hint.value, target, key) { break; }
        if k + 1 < |order| { ObserveSlot(k + 1); }
        index, k := slots[index].next, k + 1;
      }
    }

    /** Drop the oldest hints until one of `incoming` bytes fits. */
    method MakeRoom(incoming: nat)
      requires Valid() && incoming <= maxBytes
      modifies this`head, this`tail, this`freeHead, this`size, this`currentBytes, this`order, this`free
      modifies this`dropped, slots
      ensures Valid()
      ensures |order| < CAPACITY
      ensures var q, d := old(Model()), DropCount(old(Model()).live, incoming, maxBytes);
              Model() == q.(live := q.live[d..], dropped := q.dropped + d)
    {
      hide Valid, Model, TotalBytes, Fits, DropCount;
      ghost var q, n := Model(), 0;
      Observe();
      assert q.live[0..] == q.live;
      while size == CAPACITY || currentBytes + incoming > maxBytes
        invariant Valid() && n <= |q.live|
        invariant Model() == q.(live := q.live[n..], dropped := q.dropped + n)
        invariant n + DropCount(q.live[n..], incoming, maxBytes) == DropCount(q.live, incoming, maxBytes)
        decreases |q.live| - n
      {
        Observe();
        DropCountStep(q.live[n..], incoming, maxBytes);
        assert q.live[n..][1..] == q.live[n + 1..];
        DropOldest();
        n := n + 1;
      }
      Observe();
      DropCountStep(q.live[n..], incoming, maxBytes);
    }

    method DropOldest()
      requires Valid() && Model().live != []
      modifies this`head, this`tail, this`freeHead, this`size, this`currentBytes, this`order, this`free
      modifies this`dropped, slots
      ensures Valid()
      ensures Model() == old(Model()).(live := old(Model()).live[1..], dropped := old(Model()).dropped + 1)
    {
      hide Valid, Model;
      Observe();
      assert RemoveAt(Model().live, 0) == Model().live[1..];
      UnlinkAndRelease(head, 0);
      DropStep();
    }

    method DropStep()
      requires Valid()
      modifies this`dropped
      ensures Valid() && dropped == old(dropped) + 1
      ensures Model() == old(Model()).(dropped := old(dropped) + 1)
    {
      dropped := dropped + 1;
    }

    /** Fill an acquired slot under a new generation. */
    method Emplace(index: nat, hint: Hint) returns (ghost handle: Handle)
      requires Structure(1) && Issuance(slots[..], issued)
      requires index < nextUnused && index !in order && index !in free && slots[index].hint.None?
      modifies this`size, this`currentBytes, this`issued, slots
      ensures Structure(1) && Issuance(slots[..], issued)
      ensures View(slots[..], order) == old(View(slots[..], order))
      ensures handle == Handle(index, slots[index].generation) && slots[index].hint == Some(hint)
      ensures handle !in old(issued) && issued == old(issued)[handle := hint]
      ensures size == old(size) + 1 && currentBytes == old(currentBytes) + EstimatedBytes(hint)
    {
      ghost var s := slots[..];
      slots[index] := slots[index].(generation := slots[index].generation + 1, hint := Some(hint));
      ghost var t := slots[..];
      handle := Handle(index, t[index].generation);
      EmplaceIssuance(s, issued, index, hint);
      ChainFrame(s, t, order, head, tail);
      FreeChainFrame(s, t, free, freeHead);
      issued := issued[handle := hint];
      currentBytes := currentBytes + EstimatedBytes(hint);
      size := size + 1;
      assert slots[..] == t;
    }

    /** Acquire a slot, fill it and link it at the tail. */
    method AppendSlot(hint: Hint) returns (ghost handle: Handle)
      requires Structure(0) && Issuance(slots[..], issued) && |order| < CAPACITY
      modifies this`nextUnused, this`freeHead, this`free, this`size, this`currentBytes, this`issued,
               this`head, this`tail, this`order, slots
      ensures Structure(0) && Issuance(slots[..], issued)
      ensures View(slots[..], order) == old(View(slots[..], order)) + [Live(handle, hint)]
      ensures handle !in old(issued) && issued == old(issued)[handle := hint]
      ensures size == old(size) + 1 && currentBytes == old(currentBytes) + EstimatedBytes(hint)
      ensures |order| == |old(order)| + 1
    {
      hide View, Issuance, EstimatedBytes;
      var index := AcquireSlot();
      ReleaseIssuance(old(slots[..]), slots[..], issued);
      handle := Emplace(index, hint);
      ghost var s := slots[..];
      LinkAtTail(index);
      ReleaseIssuance(s, slots[..], issued);
    }

    /** Queue the hint at the tail, in a slot of its own. */
    method Enqueue(hint: Hint) returns (ghost handle: Handle)
      requires Valid() && |order| < CAPACITY && Absent(Model().live, hint.target, hint.req.key)
      modifies this`nextUnused, this`freeHead, this`free, this`size, this`currentBytes, this`issued,
               this`head, this`tail, this`order, slots
      ensures Valid()
      ensures handle !in old(issued)
      ensures Model() == old(Model()).(live := old(Model()).live + [Live(handle, hint)],
                                       issued := old(issued)[handle := hint])
    {
      ghost var live, before := View(slots[..], order), issued;
      handle := AppendSlot(hint);
      AppendKeeps(live, before, hint, handle);
      TotalBytesConcat(live, [Live(handle, hint)]);
    }

    /** Replace the hint queued for the same (target, key), unless that one is newer. */
    method Coalesce(hint: Hint) returns (older: bool)
      requires Valid() && EstimatedBytes(hint) <= maxBytes
      modifies this`head, this`tail, this`freeHead, this`size, this`currentBytes, this`order, this`free, slots
      ensures Valid()
      ensures older <==> Judge(old(Model()), hint) == Older
      ensures Model() == if older then old(Model()) else old(Model()).(live := Coalesced(old(Model()).live, hint))
    {
      hide Valid, Model;
      Observe();
      var index; ghost var k;
      index, k := FindSlot(hint.target, hint.req.key);
      older := false;
      if index != NONE {
        ObserveSlot(k);
        older := !Covers(StampOf(hint.req), StampOf(slots[index].hint.value.req));
        if !older { UnlinkAndRelease(index, k); }
      }
    }

    /** Drop the oldest hints until this one fits, then queue it. */
    method Admit(hint: Hint) returns (ghost handle: Handle)
      requires Valid() && EstimatedBytes(hint) <= maxBytes && Absent(Model().live, hint.target, hint.req.key)
      modifies this, slots
      ensures Valid()
      ensures handle !in old(issued)
      ensures var q, d := old(Model()), DropCount(old(Model()).live, EstimatedBytes(hint), old(maxBytes));
              Model() == q.(live := q.live[d..] + [Live(handle, hint)], issued := q.issued[handle := hint],
                            dropped := q.dropped + d)
    {
      hide Valid, Model;
      Observe();
      SuffixAbsent(Model().live, DropCount(Model().live, EstimatedBytes(hint), maxBytes), hint.target, hint.req.key);
      MakeRoom(EstimatedBytes(hint));
      handle := Enqueue(hint);
    }

    method Push(hint: Hint) returns (ok: bool, ghost handle: Handle)
      requires Valid()
      modifies this, slots
      ensures Valid()
      ensures ok <==> Welcome(old(Model()), hint)
      ensures ok ==> handle !in old(issued)
      ensures Model() == HintQueueSpec.Push(old(Model()), hint, handle)
    {
      hide Valid, Model, Coherent, DropCount, Welcome;
      Observe();
      WellFormedModel();
      AcceptedIffWelcome(Model(), hint);
      handle := Handle(0, 0);
      if EstimatedBytes(hint) > maxBytes {
        DropStep();
        return false, handle;
      }
      CoalescedKeeps(Model().live, issued, hint);
      var older := Coalesce(hint);
      if older { return false, handle; }
      handle := Admit(hint);
      ok := true;
    }

    /** Look at one slot of the walk: copy its hint, or unlink it when expired. */
    method ScanSlot(index: nat, now: int, ghost k: nat) returns (next: nat, copied: seq<Live>)
      requires Valid() && k < |order| && order[k] == index
      modifies this`head, this`tail, this`freeHead, this`size, this`currentBytes, this`order, this`free, slots
      ensures Valid()
      ensures copied == Kept(old(Model()).live[k], now)
      ensures var live := old(Model()).live;
              Model() == old(Model()).(live := live[..k] + copied + live[k + 1..])
      ensures |order| == |old(order)| - 1 + |copied|
      ensures if k + |copied| < |order| then next == order[k + |copied|] < CAPACITY else next == NONE
    {
      hide Valid, Model;
      ghost var live := Model().live;
      ObserveSlot(k);
      if k + 1 < |order| { ObserveSlot(k + 1); }
      var slot := slots[index];
      next := slot.next;
      if slot.hint.value.expiresAt <= now {
        copied := [];
        UnlinkAndRelease(index, k);
        assert live[..k] + [] + live[k + 1..] == RemoveAt(live, k);
      } else {
        copied := [Live(Handle(index, slot.generation), slot.hint.value)];
        assert live[..k] + copied + live[k + 1..] == live;
      }
    }

    /** Copy up to `max` live hints with their handles, head first; expired hints met on the way leave the queue. */
    method Snapshot(now: int, max: nat) returns (batch: seq<Live>)
      requires Valid()
      modifies this`head, this`tail, this`freeHead, this`size, this`currentBytes, this`order, this`free, slots
      ensures Valid()
      ensures Model() == HintQueueSpec.Snapshot(old(Model()), now, max)
      ensures batch == Scan(old(Model()).live, now, max).1
    {
      hide Valid, Model, Scan, Scanned, Kept;
      ghost var q, rest := Model(), Model().live;
      Observe();
      ScannedStart(q.live, now, max);
      batch := [];
      var index := head;
      while index != NONE && |batch| < max
        invariant Valid() && Scanned(q.live, batch, rest, now, max) && |batch| <= max
        invariant Model() == q.(live := batch + rest) && |order| == |batch| + |rest|
        invariant if rest != [] then index == order[|batch|] && index != NONE else index == NONE
        decreases |rest|
      {
        ScannedStep(q.live, batch, rest, now, max);
        var copied;
        index, copied := ScanSlot(index, now, |batch|);
        batch := batch + copied;
        rest := rest[1..];
      }
      ScannedEnd(q.live, batch, rest, now, max);
    }

    /** Remove by handle; a handle whose slot was emptied or reused since is ignored. */
    method Remove(handle: Handle)
      requires Valid()
      modifies this`head, this`tail, this`freeHead, this`size, this`currentBytes, this`order, this`free, slots
      ensures Valid()
      ensures Model() == HintQueueSpec.Remove(old(Model()), handle)
    {
      ghost var k := LocateHandle(slots[..], order, free, head, tail, freeHead, nextUnused, handle);
      if handle.index < CAPACITY && slots[handle.index].hint.Some?
         && slots[handle.index].generation == handle.generation
      {
        UnlinkAndRelease(handle.index, k);
      }
    }

    method FindVersionSlot(target: NodeId, key: Key, version: nat) returns (index: nat, ghost k: nat)
      requires Valid()
      ensures k == FindVersion(Model().live, target, key, version)
      ensures if k < |order| then index == order[k] < CAPACITY else index == NONE
    {
      hide Valid, Model;
      Observe();
      index, k := head, 0;
      while index != NONE
        invariant k <= |order|
        invariant if k < |order| then index == order[k] < CAPACITY else index == NONE
        invariant forall i :: 0 <= i < k ==>
                    !(Names(Model().live[i].hint, target, key) && Model().live[i].hint.req.version == version)
        decreases |order| - k
      {
        ObserveSlot(k);
        if Names(slots[index].hint.value, target, key) && slots[index].hint.value.req.version == version { break; }
        if k + 1 < |order| { ObserveSlot(k + 1); }
        index, k := slots[index].next, k + 1;
      }
    }

    /** Remove the hint for (target, key) carrying exactly `version`. */
    method RemoveVersion(target: NodeId, key: Key, version: nat)
      requires Valid()
      modifies this`head, this`tail, this`freeHead, this`size, this`currentBytes, this`order, this`free, slots
      ensures Valid()
      ensures Model() == HintQueueSpec.RemoveVersion(old(Model()), target, key, version)
    {
      hide Valid, Model;
      Observe();
      var index; ghost var k;
      index, k := FindVersionSlot(target, key, version);
      if index != NONE { UnlinkAndRelease(index, k); }
    }

    method SetMaxBytes(bytes: nat)
      requires Valid()
      modifies this`maxBytes
      ensures Valid()
      ensures Model() == old(Model()).(maxBytes := bytes)
    {
      maxBytes := bytes;
    }
  }
}
