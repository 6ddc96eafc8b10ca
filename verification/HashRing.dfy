/**
 The ring as stored: parallel arrays of hashes and node indices, rebuilt copy-on-write on every membership change,
 and searched by bisection. Each rebuild is proved to produce the ring of the new members.
 */
module HashRingImpl {
  import opened Common
  import opened HashRingSpec

  const MAX_PHYSICAL_NODES := 0x1_0000
  const MAX_REPLICAS := 32
  const TOO_MANY := "consistent hash ring exceeds uint16 node index capacity"
  const BAD_COUNT := "replica_count must be between 1 and 32"

  /** A node's in-flight load, shared by all snapshots that know the node. */
  class LoadCell {
    var count: nat

    constructor ()
      ensures count == 0
    {
      count := 0;
    }
  }

  /** Nodes that stay keep their load counters. */
  ghost predicate CellsKept(ns0: seq<NodeId>, cs0: seq<LoadCell>, ns: seq<NodeId>, cs: seq<LoadCell>) {
    |cs0| == |ns0| && |cs| == |ns|
    && forall i, j :: 0 <= i < |ns0| && 0 <= j < |ns| && ns0[i] == ns[j] ==> cs[j] == cs0[i]
  }

  // ---------------------------------------------------------------- parallel arrays as a ring

  ghost predicate Indexed(hashes: seq<u64>, index: seq<nat>, nodes: seq<NodeId>) {
    |hashes| == |index| && forall i :: 0 <= i < |index| ==> index[i] < |nodes|
  }

  ghost function View(hashes: seq<u64>, index: seq<nat>, nodes: seq<NodeId>): (r: Ring)
    requires Indexed(hashes, index, nodes)
    ensures |r| == |hashes| && forall i :: 0 <= i < |r| ==> r[i] == Pair(hashes[i], nodes[index[i]])
  {
    seq(|hashes|, i requires 0 <= i < |hashes| => Pair(hashes[i], nodes[index[i]]))
  }

  lemma ViewSnoc(hashes: seq<u64>, index: seq<nat>, nodes: seq<NodeId>, x: u64, i: nat)
    requires Indexed(hashes, index, nodes) && i < |nodes|
    ensures Indexed(hashes + [x], index + [i], nodes)
    ensures View(hashes + [x], index + [i], nodes) == View(hashes, index, nodes) + [Pair(x, nodes[i])]
  {
  }

  lemma ViewGrows(hashes: seq<u64>, index: seq<nat>, nodes: seq<NodeId>, more: seq<NodeId>)
    requires Indexed(hashes, index, nodes)
    ensures Indexed(hashes, index, nodes + more) && View(hashes, index, nodes + more) == View(hashes, index, nodes)
  {
  }

  // ---------------------------------------------------------------- sorting

  ghost predicate Within(order: seq<nat>, n: nat) {
    forall k :: 0 <= k < |order| ==> order[k] < n
  }

  function Gather<T>(s: seq<T>, order: seq<nat>): (r: seq<T>)
    requires Within(order, |s|)
    ensures |r| == |order| && forall k :: 0 <= k < |r| ==> r[k] == s[order[k]]
  {
    seq(|order|, k requires 0 <= k < |order| => s[order[k]])
  }

  ghost predicate Ascending(hashes: seq<u64>) {
    forall i, j :: 0 <= i < j < |hashes| ==> hashes[i] <= hashes[j]
  }

  lemma GatherInsert<T>(s: seq<T>, order: seq<nat>, j: nat, x: nat)
    requires Within(order, |s|) && j <= |order| && x < |s|
    ensures Within(order[..j] + [x] + order[j..], |s|)
    ensures Gather(s, order[..j] + [x] + order[j..]) == Gather(s, order)[..j] + [s[x]] + Gather(s, order)[j..]
  {
  }

  /** A rearrangement of positions that puts the hashes in order; equal hashes may come either way round. */
  method SortOrder(hashes: seq<u64>, ghost r: Ring) returns (order: seq<nat>)
    requires |r| == |hashes|
    ensures |order| == |hashes| && Within(order, |hashes|)
    ensures Ascending(Gather(hashes, order))
    ensures multiset(Gather(r, order)) == multiset(r)
  {
    hide Ascending;
    order := [];
    EmptyAscending();
    for i := 0 to |hashes|
      invariant |order| == i && Within(order, |hashes|)
      invariant Ascending(Gather(hashes, order))
      invariant multiset(Gather(r, order)) == multiset(r[..i])
    {
      var j := FindPlace(hashes, order, i);
      InsertKeepsOrder(hashes, order, j, i);
      InsertCounts(r, order, j, i);
      order := order[..j] + [i] + order[j..];
    }
    assert r[..|hashes|] == r;
  }

  lemma EmptyAscending()
    ensures forall s: seq<u64> :: |s| == 0 ==> Ascending(s)
  {
  }

  method FindPlace(hashes: seq<u64>, order: seq<nat>, i: nat) returns (j: nat)
    requires i < |hashes| && Within(order, |hashes|)
    ensures j <= |order| && (j > 0 ==> hashes[order[j - 1]] <= hashes[i])
    ensures forall k :: j <= k < |order| ==> hashes[order[k]] > hashes[i]
  {
    j := |order|;
    while j > 0 && hashes[order[j - 1]] > hashes[i]
      invariant j <= |order| && forall k :: j <= k < |order| ==> hashes[order[k]] > hashes[i]
    {
      j := j - 1;
    }
  }

  lemma InsertKeepsOrder(hashes: seq<u64>, order: seq<nat>, j: nat, i: nat)
    requires Within(order, |hashes|) && j <= |order| && i < |hashes| && Ascending(Gather(hashes, order))
    requires j > 0 ==> hashes[order[j - 1]] <= hashes[i]
    requires forall k :: j <= k < |order| ==> hashes[order[k]] > hashes[i]
    ensures Within(order[..j] + [i] + order[j..], |hashes|) && Ascending(Gather(hashes, order[..j] + [i] + order[j..]))
  {
    var g := Gather(hashes, order);
    GatherInsert(hashes, order, j, i);
    assert forall k :: 0 <= k < j ==> g[k] <= g[j - 1] <= hashes[i];
    assert forall k :: j <= k < |g| ==> g[k] > hashes[i];
  }

  lemma InsertCounts(r: Ring, order: seq<nat>, j: nat, i: nat)
    requires Within(order, |r|) && j <= |order| && i < |r| && multiset(Gather(r, order)) == multiset(r[..i])
    ensures Within(order[..j] + [i] + order[j..], |r|)
    ensures multiset(Gather(r, order[..j] + [i] + order[j..])) == multiset(r[..i + 1])
  {
    var g := Gather(r, order);
    GatherInsert(r, order, j, i);
    assert g == g[..j] + g[j..];
    assert r[..i + 1] == r[..i] + [r[i]];
  }

  lemma GatherView(hashes: seq<u64>, index: seq<nat>, nodes: seq<NodeId>, order: seq<nat>)
    requires Indexed(hashes, index, nodes) && Within(order, |hashes|) && Ascending(Gather(hashes, order))
    ensures Indexed(Gather(hashes, order), Gather(index, order), nodes)
    ensures var r := View(Gather(hashes, order), Gather(index, order), nodes);
            r == Gather(View(hashes, index, nodes), order) && Sorted(r)
  {
  }

  /** Sort both arrays in lock step. */
  method SortTogether(hashes: seq<u64>, index: seq<nat>, ghost nodes: seq<NodeId>) returns (hs: seq<u64>, ix: seq<nat>)
    requires Indexed(hashes, index, nodes)
    ensures Indexed(hs, ix, nodes) && Sorted(View(hs, ix, nodes))
    ensures multiset(View(hs, ix, nodes)) == multiset(View(hashes, index, nodes))
  {
    ghost var r := View(hashes, index, nodes);
    var order := SortOrder(hashes, r);
    ghost var g, gi := Gather(hashes, order), Gather(index, order);
    hs, ix := [], [];
    for k := 0 to |order|
      invariant hs == g[..k] && ix == gi[..k]
    {
      hs := hs + [hashes[order[k]]];
      ix := ix + [index[order[k]]];
    }
    GatherView(hashes, index, nodes, order);
    hide Gather, View, Ascending, Sorted;
    assert g[..|order|] == g && gi[..|order|] == gi;
  }

  // ---------------------------------------------------------------- adding virtual nodes

  ghost function Vnodes(h: VnodeHash, n: nat, node: NodeId): Ring {
    if n == 0 then [] else Vnodes(h, n - 1, node) + [Pair(h(node, n - 1), node)]
  }

  lemma {:induction false} VnodesCount(h: VnodeHash, n: nat, node: NodeId, p: Pair)
    ensures multiset(Vnodes(h, n, node))[p] == if p.node == node then Occurs(h, n, p) else 0
  {
    if n == 0 {
    } else {
      VnodesCount(h, n - 1, node, p);
    }
  }

  method PushVnodes(h: VnodeHash, vnodes: nat, nodes: seq<NodeId>, at: nat, hashes: seq<u64>, index: seq<nat>)
    returns (hs: seq<u64>, ix: seq<nat>)
    requires Indexed(hashes, index, nodes) && at < |nodes|
    ensures Indexed(hs, ix, nodes)
    ensures View(hs, ix, nodes) == View(hashes, index, nodes) + Vnodes(h, vnodes, nodes[at])
  {
    hs, ix := hashes, index;
    ghost var r := View(hashes, index, nodes);
    for i := 0 to vnodes
      invariant Indexed(hs, ix, nodes)
      invariant View(hs, ix, nodes) == r + Vnodes(h, i, nodes[at])
    {
      var x := h(nodes[at], i);
      ViewSnoc(hs, ix, nodes, x, at);
      hs, ix := hs + [x], ix + [at];
    }
  }

  /** Old ring and new virtual nodes, in any sorted arrangement, make up the ring with the new member. */
  lemma JoinIsRing(r: Ring, s: Ring, h: VnodeHash, vnodes: nat, members: set<NodeId>, node: NodeId)
    requires IsRing(r, h, vnodes, members) && node !in members
    requires Sorted(s) && multiset(s) == multiset(r) + multiset(Vnodes(h, vnodes, node))
    ensures IsRing(s, h, vnodes, members + {node})
  {
    forall p { VnodesCount(h, vnodes, node, p); }
  }

  /** One entry of the old ring: skipped when it is the removed node's, else appended under its new index. */
  lemma DropStep(hs: seq<u64>, ix: seq<nat>, ns: seq<NodeId>, done: Ring, x: u64, n: NodeId, node: NodeId, moved: nat)
    requires Indexed(hs, ix, ns) && View(hs, ix, ns) == Keep(done, NotOf(node))
    ensures n == node ==> View(hs, ix, ns) == Keep(done + [Pair(x, n)], NotOf(node))
    ensures n != node && moved < |ns| && ns[moved] == n ==>
              Indexed(hs + [x], ix + [moved], ns)
              && View(hs + [x], ix + [moved], ns) == Keep(done + [Pair(x, n)], NotOf(node))
  {
    KeepSnoc(done, Pair(x, n), NotOf(node));
    hide Keep, View;
    if n != node && moved < |ns| && ns[moved] == n { ViewSnoc(hs, ix, ns, x, moved); }
  }

  // ---------------------------------------------------------------- merging

  function In(m: set<NodeId>): NodeId -> bool {
    (n: NodeId) => n in m
  }

  function OfMembers(m: set<NodeId>): Pair -> bool {
    (p: Pair) => p.node in m
  }

  /** Part-way through a merge: `out` is done, `o` is what is left of the old ring, `a` of the additions. */
  ghost predicate Merging(out: Ring, o: Ring, a: Ring, f: Pair -> bool, total: multiset<Pair>) {
    multiset(out) + multiset(Keep(o, f)) + multiset(a) == total
    && Sorted(out) && Sorted(o) && Sorted(a)
    && (forall i, j :: 0 <= i < |out| && 0 <= j < |o| ==> out[i].hash <= o[j].hash)
    && (forall i, j :: 0 <= i < |out| && 0 <= j < |a| ==> out[i].hash <= a[j].hash)
  }

  lemma KeepCons(o: Ring, f: Pair -> bool)
    requires o != []
    ensures Keep(o, f) == if f(o[0]) then [o[0]] + Keep(o[1..], f) else Keep(o[1..], f)
  {
    assert o == [o[0]] + o[1..];
    KeepConcat([o[0]], o[1..], f);
    KeepSnoc([], o[0], f);
  }

  lemma MergeSkip(out: Ring, o: Ring, a: Ring, f: Pair -> bool, total: multiset<Pair>)
    requires Merging(out, o, a, f, total) && o != [] && !f(o[0])
    ensures Merging(out, o[1..], a, f, total)
  {
    KeepCons(o, f);
  }

  lemma MergeOld(out: Ring, o: Ring, a: Ring, f: Pair -> bool, total: multiset<Pair>)
    requires Merging(out, o, a, f, total) && o != [] && f(o[0]) && (a == [] || o[0].hash <= a[0].hash)
    ensures Merging(out + [o[0]], o[1..], a, f, total)
  {
    KeepCons(o, f);
    hide Keep;
  }

  lemma MergeNew(out: Ring, o: Ring, a: Ring, f: Pair -> bool, total: multiset<Pair>)
    requires Merging(out, o, a, f, total) && a != [] && (o == [] || a[0].hash <= o[0].hash)
    ensures Merging(out + [a[0]], o, a[1..], f, total)
  {
    hide Keep;
    assert a == [a[0]] + a[1..];
  }

  /** On equal hashes the virtual nodes of `m` come before all others. */
  ghost predicate SurvivorsFirst(r: Ring, m: set<NodeId>) {
    forall i, j :: 0 <= i < j < |r| && r[i].hash == r[j].hash && r[j].node in m ==> r[i].node in m
  }

  /** So far they do, and nothing added so far ties with what is left of the old ring. */
  ghost predicate Yielding(out: Ring, o: Ring, m: set<NodeId>) {
    SurvivorsFirst(out, m)
    && forall i, j :: 0 <= i < |out| && 0 <= j < |o| && out[i].node !in m ==> out[i].hash < o[j].hash
  }

  lemma YieldOld(out: Ring, o: Ring, m: set<NodeId>, p: Pair)
    requires Yielding(out, o, m) && o != [] && p == o[0] && p.node in m
    ensures Yielding(out + [p], o[1..], m)
  {
  }

  lemma YieldNew(out: Ring, o: Ring, m: set<NodeId>, p: Pair)
    requires Yielding(out, o, m) && Sorted(o) && (o == [] || p.hash < o[0].hash) && p.node !in m
    ensures Yielding(out + [p], o, m)
  {
    assert forall j :: 0 <= j < |o| ==> o[0].hash <= o[j].hash;
  }

  lemma YieldLess(out: Ring, r: Ring, from: nat, pos: nat, m: set<NodeId>)
    requires from <= pos <= |r| && Yielding(out, r[from..], m)
    ensures Yielding(out, r[pos..], m)
  {
    assert r[pos..] == r[from..][pos - from..];
  }

  lemma SuffixSorted(r: Ring, k: nat)
    requires Sorted(r) && k <= |r|
    ensures Sorted(r[k..])
  {
  }

  /** The kept part of a ring and the new members' virtual nodes, merged, are the ring of the new membership. */
  lemma MergeIsRing(r: Ring, a: Ring, s: Ring, h: VnodeHash, vnodes: nat, members: set<NodeId>, desired: set<NodeId>)
    requires IsRing(r, h, vnodes, members) && Sorted(s)
    requires Added(a, h, vnodes, desired - members)
    requires multiset(s) == multiset(Keep(r, OfMembers(desired))) + multiset(a)
    ensures IsRing(s, h, vnodes, desired)
  {
    forall p { KeepCount(r, OfMembers(desired), p); }
  }

  // ---------------------------------------------------------------- the ring

  class HashRing {
    const h: VnodeHash
    const keyHash: Bytes -> u64
    const vnodes: nat
    const factor: real
    var hashes: seq<u64>
    var index: seq<nat>
    var nodes: seq<NodeId>
    var cells: seq<LoadCell>

    ghost function Members(): set<NodeId>
      reads this`nodes
    {
      Elements(nodes)
    }

    ghost predicate Shape()
      reads this
    {
      vnodes > 0 && Indexed(hashes, index, nodes) && Distinct(nodes) && |cells| == |nodes| <= MAX_PHYSICAL_NODES
    }

    ghost function Circle(): Ring
      requires Shape()
      reads this
    {
      View(hashes, index, nodes)
    }

    ghost predicate Valid()
      reads this
    {
      Shape() && Distinct(cells) && IsRing(Circle(), h, vnodes, Members())
    }

    constructor (h: VnodeHash, keyHash: Bytes -> u64, vnodes: nat, factor: real)
      requires vnodes > 0 && factor >= 0.0
      ensures Valid() && Members() == {} && this.h == h && this.keyHash == keyHash
      ensures this.vnodes == vnodes && this.factor == factor
    {
      this.h, this.keyHash, this.vnodes, this.factor := h, keyHash, vnodes, factor;
      hashes, index, nodes, cells := [], [], [], [];
    }

    method FindIndex(node: NodeId) returns (i: nat)
      ensures i <= |nodes| && (i < |nodes| ==> nodes[i] == node)
      ensures i < |nodes| <==> node in Members()
    {
      i := 0;
      while i < |nodes|
        invariant i <= |nodes| && node !in nodes[..i]
      {
        if nodes[i] == node { return; }
        i := i + 1;
      }
    }

    method AddNode(node: NodeId) returns (r: Result<()>)
      requires Valid()
      modifies this
      ensures Valid()
      ensures r == if node !in old(Members()) && |old(nodes)| >= 65536 then Err(TOO_MANY) else Ok(())
      ensures Members() == if r.Ok? then old(Members()) + {node} else old(Members())
      ensures old(nodes) <= nodes && old(cells) <= cells
      ensures node !in old(Members()) && r.Ok? ==>
                |cells| == |old(cells)| + 1 && fresh(cells[|cells| - 1]) && cells[|cells| - 1].count == 0
    {
      hide IsRing, View, Indexed;
      var at := FindIndex(node);
      if at < |nodes| {
        assert Members() + {node} == Members();
        return Ok(());
      }
      if |nodes| >= MAX_PHYSICAL_NODES { return Err(TOO_MANY); }
      var hs, ix := WithNode(node);
      var cell := new LoadCell();
      assert Elements(nodes + [node]) == Members() + {node};
      hashes, index, nodes, cells := hs, ix, nodes + [node], cells + [cell];
      r := Ok(());
    }

    method WithNode(node: NodeId) returns (hs: seq<u64>, ix: seq<nat>)
      requires Valid() && node !in Members()
      ensures Indexed(hs, ix, nodes + [node]) && IsRing(View(hs, ix, nodes + [node]), h, vnodes, Members() + {node})
    {
      hide IsRing, View, Indexed, Vnodes, Sorted;
      var ns := nodes + [node];
      ViewGrows(hashes, index, nodes, [node]);
      hs, ix := PushVnodes(h, vnodes, ns, |nodes|, hashes, index);
      hs, ix := SortTogether(hs, ix, ns);
      JoinIsRing(Circle(), View(hs, ix, ns), h, vnodes, Members(), node);
    }

    method RemoveNode(node: NodeId)
      requires Valid()
      modifies this
      ensures Valid() && Members() == old(Members()) - {node}
      ensures Circle() == Keep(old(Circle()), NotOf(node))
      ensures CellsKept(old(nodes), old(cells), nodes, cells)
    {
      hide IsRing, View, Indexed, Keep;
      var at := FindIndex(node);
      if at == |nodes| {
        NothingToDrop(node);
        return;
      }
      var hs, ix := WithoutNode(node, at);
      RemovalIsRing(Circle(), h, vnodes, Members(), node);
      assert Elements(RemoveAt(nodes, at)) == Members() - {node} by { ElementsRemoveAt(nodes, at); }
      hashes, index, nodes, cells := hs, ix, RemoveAt(nodes, at), RemoveAt(cells, at);
    }

    lemma NothingToDrop(node: NodeId)
      requires Valid() && node !in Members()
      ensures Keep(Circle(), NotOf(node)) == Circle()
    {
      forall p | p in Circle() ensures NotOf(node)(p) { assert p in multiset(Circle()); }
      KeepAll(Circle(), NotOf(node));
    }

    method WithoutNode(node: NodeId, at: nat) returns (hs: seq<u64>, ix: seq<nat>)
      requires Shape() && at < |nodes| && nodes[at] == node
      ensures Indexed(hs, ix, RemoveAt(nodes, at)) && View(hs, ix, RemoveAt(nodes, at)) == Keep(Circle(), NotOf(node))
    {
      hide Keep, View;
      hs, ix := [], [];
      ghost var ns, r := RemoveAt(nodes, at), Circle();
      KeepNone<Pair>(NotOf(node));
      for i := 0 to |hashes|
        invariant Indexed(hs, ix, ns) && View(hs, ix, ns) == Keep(r[..i], NotOf(node))
      {
        assert r[..i + 1] == r[..i] + [r[i]] && r[i] == Pair(hashes[i], nodes[index[i]]);
        var moved := if index[i] > at then index[i] - 1 else index[i];
        DropStep(hs, ix, ns, r[..i], hashes[i], nodes[index[i]], node, moved);
        if index[i] != at {
          hs, ix := hs + [hashes[i]], ix + [moved];
        }
      }
      assert r[..|hashes|] == r;
    }

    // -------------------------------------------------------------- replacing the membership

    /** `remap` takes the old index of every surviving node to its new one, and of the others to nothing. */
    ghost predicate Remaps(remap: seq<Option<nat>>, ns: seq<NodeId>, desired: set<NodeId>)
      reads this`nodes
    {
      |remap| == |nodes| && forall j :: 0 <= j < |nodes| ==> RemapsOne(remap, ns, desired, j)
    }

    ghost predicate RemapsOne(remap: seq<Option<nat>>, ns: seq<NodeId>, desired: set<NodeId>, j: nat)
      requires j < |nodes| && j < |remap|
      reads this`nodes
    {
      if nodes[j] in desired then remap[j].Some? && remap[j].value < |ns| && ns[remap[j].value] == nodes[j]
      else remap[j] == None
    }

    method Retain(desired: set<NodeId>) returns (ns: seq<NodeId>, cs: seq<LoadCell>, remap: seq<Option<nat>>)
      requires Valid()
      ensures Remaps(remap, ns, desired) && |cs| == |ns|
      ensures Distinct(ns) && Elements(ns) == Members() * desired
      ensures Distinct(cs) && forall x :: x in cs ==> x in cells
      ensures CellsKept(nodes, cells, ns, cs)
      ensures ns == Keep(nodes, In(desired))
    {
      hide IsRing, Indexed, Keep;
      ns, cs, remap := [], [], [];
      KeepNone<NodeId>(In(desired));
      for i := 0 to |nodes|
        invariant |remap| == i && |cs| == |ns|
        invariant forall j :: 0 <= j < i ==> RemapsOne(remap, ns, desired, j)
        invariant ns == Keep(nodes[..i], In(desired))
        invariant Distinct(ns) && forall x :: x in ns <==> x in nodes[..i] && x in desired
        invariant Distinct(cs) && forall x :: x in cs ==> x in cells[..i]
        invariant forall k, j :: 0 <= k < i && 0 <= j < |ns| && nodes[k] == ns[j] ==> cs[j] == cells[k]
      {
        ghost var remap0, ns0 := remap, ns;
        assert cells[i] !in cells[..i];
        assert nodes[..i + 1] == nodes[..i] + [nodes[i]];
        KeepSnoc(nodes[..i], nodes[i], In(desired));
        if nodes[i] in desired {
          remap := remap + [Some(|ns|)];
          ns, cs := ns + [nodes[i]], cs + [cells[i]];
        } else {
          remap := remap + [None];
        }
        forall j | 0 <= j <= i ensures RemapsOne(remap, ns, desired, j) {
          assert j < i ==> RemapsOne(remap0, ns0, desired, j);
        }
      }
      assert nodes[..|nodes|] == nodes;
    }

    method SkipRemoved(remap: seq<Option<nat>>, from: nat, ghost ns: seq<NodeId>, ghost desired: set<NodeId>,
                       ghost out: Ring, ghost a: Ring, ghost total: multiset<Pair>) returns (pos: nat)
      requires Shape() && Remaps(remap, ns, desired) && from <= |hashes|
      requires Merging(out, Circle()[from..], a, OfMembers(desired), total)
      ensures from <= pos <= |hashes| && Merging(out, Circle()[pos..], a, OfMembers(desired), total)
      ensures pos < |hashes| ==> remap[index[pos]].Some? && OfMembers(desired)(Circle()[pos])
    {
      hide Merging;
      pos := from;
      while pos < |hashes| && remap[index[pos]] == None
        invariant from <= pos <= |hashes| && Merging(out, Circle()[pos..], a, OfMembers(desired), total)
      {
        assert RemapsOne(remap, ns, desired, index[pos]);
        ghost var o := Circle()[pos..];
        assert o[1..] == Circle()[pos + 1..];
        MergeSkip(out, o, a, OfMembers(desired), total);
        pos := pos + 1;
      }
      assert pos < |hashes| ==> RemapsOne(remap, ns, desired, index[pos]);
    }

    /** Two-way merge of the surviving old entries, re-indexed, with the sorted new ones. */
    method Merge(remap: seq<Option<nat>>, addedHashes: seq<u64>, addedIndex: seq<nat>,
                 ghost ns: seq<NodeId>, ghost desired: set<NodeId>)
      returns (hs: seq<u64>, ix: seq<nat>)
      requires Shape() && Sorted(Circle()) && Remaps(remap, ns, desired)
      requires Indexed(addedHashes, addedIndex, ns) && Sorted(View(addedHashes, addedIndex, ns))
      requires forall p :: p in View(addedHashes, addedIndex, ns) ==> p.node !in Members()
      ensures Indexed(hs, ix, ns) && Sorted(View(hs, ix, ns)) && SurvivorsFirst(View(hs, ix, ns), Members())
      ensures multiset(View(hs, ix, ns))
           == multiset(Keep(Circle(), OfMembers(desired))) + multiset(View(addedHashes, addedIndex, ns))
    {
      hide Keep, Sorted, Merging, Yielding, SurvivorsFirst;
      ghost var o, a, f := Circle(), View(addedHashes, addedIndex, ns), OfMembers(desired);
      ghost var total := multiset(Keep(o, f)) + multiset(a);
      hs, ix := [], [];
      MergeStart(o, a, f);
      assert o[0..] == o && a[0..] == a && View(hs, ix, ns) == [];
      var kept := SkipRemoved(remap, 0, ns, desired, [], a, total);
      YieldStart(o[kept..], Members());
      var added := 0;
      while kept < |hashes| || added < |addedHashes|
        invariant kept <= |hashes| && added <= |addedHashes| && Indexed(hs, ix, ns)
        invariant kept < |hashes| ==> index[kept] < |remap| && remap[index[kept]].Some? && f(o[kept])
        invariant Merging(View(hs, ix, ns), o[kept..], a[added..], f, total)
        invariant Yielding(View(hs, ix, ns), o[kept..], Members())
        decreases |hashes| - kept + |addedHashes| - added
      {
        var takeOld := added == |addedHashes| || (kept < |hashes| && hashes[kept] <= addedHashes[added]);
        ghost var out := View(hs, ix, ns);
        if takeOld {
          var to := remap[index[kept]].value;
          Remapped(remap, ns, desired, index[kept]);
          MergeOld(out, o[kept..], a[added..], f, total);
          assert o[kept..][1..] == o[kept + 1..];
          YieldOld(out, o[kept..], Members(), o[kept]);
          ViewSnoc(hs, ix, ns, hashes[kept], to);
          hs, ix := hs + [hashes[kept]], ix + [to];
          ghost var from := kept + 1;
          kept := SkipRemoved(remap, kept + 1, ns, desired, View(hs, ix, ns), a[added..], total);
          YieldLess(View(hs, ix, ns), o, from, kept, Members());
        } else {
          MergeNew(out, o[kept..], a[added..], f, total);
          assert a[added..][1..] == a[added + 1..];
          SuffixSorted(o, kept);
          YieldNew(out, o[kept..], Members(), a[added]);
          ViewSnoc(hs, ix, ns, addedHashes[added], addedIndex[added]);
          hs, ix := hs + [addedHashes[added]], ix + [addedIndex[added]];
          added := added + 1;
        }
      }
      assert o[kept..] == [] && a[added..] == [];
      MergeEnd(View(hs, ix, ns), f, total);
      YieldEnd(View(hs, ix, ns), Members());
    }

    lemma Remapped(remap: seq<Option<nat>>, ns: seq<NodeId>, desired: set<NodeId>, j: nat)
      requires Remaps(remap, ns, desired) && j < |remap| && remap[j].Some?
      ensures |remap| == |nodes| && remap[j].value < |ns| && ns[remap[j].value] == nodes[j]
    {
      assert RemapsOne(remap, ns, desired, j);
    }

    /** New members go to the end, in the order given and once each, with a fresh load counter. */
    method AppendNew(ids: seq<NodeId>, ns0: seq<NodeId>, cs0: seq<LoadCell>)
      returns (ns: seq<NodeId>, cs: seq<LoadCell>, hs: seq<u64>, ix: seq<nat>)
      requires Distinct(ns0) && Distinct(cs0) && |cs0| == |ns0|
      ensures ns0 <= ns && cs0 <= cs && |cs| == |ns| && Distinct(ns) && Distinct(cs)
      ensures Elements(ns) == Elements(ns0) + Elements(ids)
      ensures forall j :: |cs0| <= j < |cs| ==> fresh(cs[j]) && cs[j].count == 0
      ensures Indexed(hs, ix, ns)
      ensures Added(View(hs, ix, ns), h, vnodes, Elements(ns) - Elements(ns0))
      ensures ns == Dedup(ns0 + ids)
    {
      hide Occurs, View, Indexed, Added, Vnodes, Dedup, Elements, Distinct;
      ns, cs, hs, ix := ns0, cs0, [], [];
      assert ns0 + ids[..0] == ns0;
      DedupDistinct(ns0);
      NothingAdded(ns);
      assert Elements(ns) - Elements(ns0) == {};
      assert ids[..0] == [] && Elements<NodeId>([]) == {} by { NoElements<NodeId>(); }
      for i := 0 to |ids|
        invariant ns0 <= ns && cs0 <= cs && |cs| == |ns| && Distinct(ns) && Distinct(cs)
        invariant Elements(ns) == Elements(ns0) + Elements(ids[..i]) && ns == Dedup(ns0 + ids[..i])
        invariant forall j :: |cs0| <= j < |cs| ==> fresh(cs[j]) && cs[j].count == 0
        invariant Indexed(hs, ix, ns) && Added(View(hs, ix, ns), h, vnodes, Elements(ns) - Elements(ns0))
      {
        assert ids[..i + 1] == ids[..i] + [ids[i]];
        ElementsSnoc(ids[..i], ids[i]);
        ElementsSnoc(ns, ids[i]);
        assert ns0 + ids[..i + 1] == ns0 + ids[..i] + [ids[i]];
        DedupSnoc(ns0 + ids[..i], ids[i]);
        if ids[i] !in ns {
          var cell := new LoadCell();
          assert cell !in cs;
          DistinctSnoc(ns, ids[i]);
          DistinctSnoc(cs, cell);
          NewIsNew(ns0, ns, ids[i]);
          ghost var before := View(hs, ix, ns);
          ViewGrows(hs, ix, ns, [ids[i]]);
          ghost var was := Elements(ns) - Elements(ns0);
          ns, cs := ns + [ids[i]], cs + [cell];
          hs, ix := PushVnodes(h, vnodes, ns, |ns| - 1, hs, ix);
          AddedOne(before, h, vnodes, was, ids[i]);
        }
      }
      assert ids[..|ids|] == ids;
    }

    lemma NothingAdded(ns: seq<NodeId>)
      ensures Indexed([], [], ns) && Added(View([], [], ns), h, vnodes, {})
    {
    }

    method SetNodes(ids: seq<NodeId>) returns (r: Result<()>)
      requires Valid()
      modifies this
      ensures Valid()
      ensures r == if |Elements(ids)| > 65536 then Err(TOO_MANY) else Ok(())
      ensures Members() == if r.Ok? then Elements(ids) else old(Members())
      ensures r.Ok? ==> nodes == Dedup(Keep(old(nodes), In(Elements(ids))) + ids)
      ensures CellsKept(old(nodes), old(cells), nodes, cells)
      ensures SurvivorsFirst(Circle(), old(Members()))
    {
      hide IsRing, View, Indexed, CellsKept, SurvivorsFirst, Dedup, Keep;
      CellsStay(nodes, cells);
      AllSurvive();
      var desired := set x | x in ids;
      assert desired == Elements(ids);
      if |desired| > MAX_PHYSICAL_NODES { return Err(TOO_MANY); }
      DistinctSize(nodes, Members());
      if |nodes| == |desired| && forall x :: x in nodes ==> x in desired {
        SameSize(Members(), desired);
        NothingNew(nodes, ids);
        return Ok(());
      }
      var hs, ix, ns, cs := Build(ids, desired);
      hashes, index, nodes, cells := hs, ix, ns, cs;
      r := Ok(());
    }

    lemma AllSurvive()
      requires Shape()
      ensures SurvivorsFirst(Circle(), Members())
    {
    }

    /** The snapshot for a new membership: survivors first, newcomers after them, the two runs merged. */
    method Build(ids: seq<NodeId>, desired: set<NodeId>)
      returns (hs: seq<u64>, ix: seq<nat>, ns: seq<NodeId>, cs: seq<LoadCell>)
      requires Valid() && desired == Elements(ids)
      ensures Distinct(ns) && Elements(ns) == desired && |ns| == |desired|
      ensures |cs| == |ns| && Distinct(cs) && CellsKept(nodes, cells, ns, cs)
      ensures Indexed(hs, ix, ns) && IsRing(View(hs, ix, ns), h, vnodes, desired)
      ensures SurvivorsFirst(View(hs, ix, ns), Members())
      ensures ns == Dedup(Keep(nodes, In(desired)) + ids)
    {
      hide IsRing, View, Indexed, Remaps, Added, CellsKept, SurvivorsFirst, Dedup, Keep;
      var ns0, cs0, remap := Retain(desired);
      ns, cs, hs, ix := AppendNew(ids, ns0, cs0);
      assert Elements(ns) == desired && Elements(ns) - Elements(ns0) == desired - Members();
      KeptFurther(nodes, cells, ns0, cs0, ns, cs, desired);
      DistinctSize(ns, desired);
      hs, ix := Rebuilt(remap, hs, ix, ns0, ns, desired);
    }

    method Rebuilt(remap: seq<Option<nat>>, hs0: seq<u64>, ix0: seq<nat>, ghost ns0: seq<NodeId>, ghost ns: seq<NodeId>,
                   ghost desired: set<NodeId>) returns (hs: seq<u64>, ix: seq<nat>)
      requires Valid() && Remaps(remap, ns0, desired) && ns0 <= ns
      requires Indexed(hs0, ix0, ns) && Added(View(hs0, ix0, ns), h, vnodes, desired - Members())
      ensures Indexed(hs, ix, ns) && IsRing(View(hs, ix, ns), h, vnodes, desired)
      ensures SurvivorsFirst(View(hs, ix, ns), Members())
    {
      hide View, Indexed, Added, Remaps, Sorted, SurvivorsFirst;
      RemapsMore(remap, ns0, ns, desired);
      var sortedHashes, sortedIndex := SortTogether(hs0, ix0, ns);
      ghost var a := View(sortedHashes, sortedIndex, ns);
      AddedSame(View(hs0, ix0, ns), a, h, vnodes, desired - Members());
      AddedAreNew(a, h, vnodes, desired - Members());
      hs, ix := Merge(remap, sortedHashes, sortedIndex, ns, desired);
      MergeIsRing(Circle(), a, View(hs, ix, ns), h, vnodes, Members(), desired);
    }

    lemma RemapsMore(remap: seq<Option<nat>>, ns0: seq<NodeId>, ns: seq<NodeId>, desired: set<NodeId>)
      requires Remaps(remap, ns0, desired) && ns0 <= ns
      ensures Remaps(remap, ns, desired)
    {
      forall j | 0 <= j < |nodes| ensures RemapsOne(remap, ns, desired, j) {
        assert RemapsOne(remap, ns0, desired, j);
      }
    }

    // -------------------------------------------------------------- looking up

    /** The first position whose hash is at least `x`, by bisection. */
    method LowerBound(x: u64) returns (i: nat)
      requires Valid()
      ensures i <= |hashes|
      ensures (forall k :: 0 <= k < i ==> hashes[k] < x) && (forall k :: i <= k < |hashes| ==> hashes[k] >= x)
    {
      assert forall k :: 0 <= k < |hashes| ==> Circle()[k].hash == hashes[k];
      i := 0;
      var count: nat := |hashes|;
      while count > 0
        invariant i + count <= |hashes|
        invariant forall k :: 0 <= k < i ==> hashes[k] < x
        invariant forall k :: i + count <= k < |hashes| ==> hashes[k] >= x
      {
        var step := count / 2;
        if hashes[i + step] < x {
          assert forall k :: 0 <= k <= i + step ==> Circle()[k].hash <= Circle()[i + step].hash;
          i, count := i + step + 1, count - step - 1;
        } else {
          assert forall k :: i + step <= k < |hashes| ==> Circle()[i + step].hash <= Circle()[k].hash;
          count := step;
        }
      }
    }

    /** Where the walk for a key starts. */
    method Start(key: Bytes) returns (start: nat)
      requires Valid() && |hashes| > 0
      ensures start < |hashes| && Walk(Circle(), keyHash(key)) == Circle()[start..] + Circle()[..start]
      ensures start < |index| && index[start] < |nodes| && nodes[index[start]] == Owner(Circle(), keyHash(key))
    {
      start := LowerBound(keyHash(key));
      hide IsRing;
      WalkIsClockwise(Circle(), keyHash(key), start);
      if start == |hashes| {
        start := 0;
        assert Circle()[..|hashes|] == Circle() == Circle()[0..];
      }
    }

    method GetNode(key: Bytes) returns (node: NodeId)
      requires Valid()
      ensures node == Owner(Circle(), keyHash(key))
    {
      hide IsRing;
      if |hashes| == 0 { return []; }
      var start := Start(key);
      node := nodes[index[start]];
    }

    method GetNodes(key: Bytes, count: int) returns (r: Result<seq<NodeId>>)
      requires Valid()
      ensures r == if count <= 0 || count > 32 then Err(BAD_COUNT)
                   else Ok(Replicas(Circle(), keyHash(key), count))
    {
      hide IsRing, Dedup, Nodes, Keep, Walk;
      if count <= 0 || count > MAX_REPLICAS { return Err(BAD_COUNT); }
      if |hashes| == 0 {
        EmptyRing(Circle(), keyHash(key));
        return Ok([]);
      }
      var start := Start(key);
      RotationTraces(start);
      var result := WalkDistinct(start, count, Nodes(Walk(Circle(), keyHash(key))));
      return Ok(result);
    }

    /** Where the walk is after some steps. */
    ghost function At(start: nat, steps: nat): int
      reads this`hashes
    {
      if start + steps < |hashes| then start + steps else start + steps - |hashes|
    }

    /** `walk` lists the nodes met going once around from `start`. */
    ghost predicate Traces(walk: seq<NodeId>, start: nat)
      reads this
    {
      |walk| == |hashes| == |index| && forall t: nat :: t < |walk| ==> TracesAt(walk, start, t)
    }

    ghost predicate TracesAt(walk: seq<NodeId>, start: nat, t: nat)
      requires t < |walk| && |hashes| == |index|
      reads this
    {
      0 <= At(start, t) < |index| && index[At(start, t)] < |nodes| && walk[t] == nodes[index[At(start, t)]]
    }

    lemma RotationTraces(start: nat)
      requires Shape() && start < |hashes|
      ensures Traces(Nodes(Circle()[start..] + Circle()[..start]), start)
    {
      hide Nodes;
    }

    /** Walk once around from `start`, keeping the first `count` nodes not seen before. */
    method WalkDistinct(start: nat, count: nat, ghost walk: seq<NodeId>) returns (result: seq<NodeId>)
      requires Distinct(nodes) && start < |hashes| && count > 0 && Traces(walk, start)
      ensures result == Take(Dedup(walk), count)
    {
      hide Dedup, Mirrors;
      ghost var steps: nat := 0;
      var seen: seq<nat> := [];
      result := [];
      var cur := start;
      DedupEmpty();
      MirrorsNone();
      while |result| < count
        invariant steps < |walk| && cur == At(start, steps)
        invariant result == Dedup(walk[..steps]) && |result| <= count
        invariant Mirrors(seen, result)
        decreases |hashes| - steps
      {
        assert TracesAt(walk, start, steps);
        var i := index[cur];
        DedupSnoc(walk[..steps], walk[steps]);
        assert walk[..steps + 1] == walk[..steps] + [walk[steps]];
        SeenIffListed(seen, result, i);
        if i !in seen {
          seen := seen + [i];
          result := result + [nodes[i]];
        }
        cur := cur + 1;
        steps := steps + 1;
        if cur == |hashes| { cur := 0; }
        if cur == start { break; }
      }
      assert steps == |walk| ==> walk[..steps] == walk;
      DedupPrefix(walk, steps);
    }

    lemma MirrorsNone()
      ensures Mirrors([], [])
    {
    }

    // -------------------------------------------------------------- bounded load

    ghost function Loads(): (l: seq<nat>)
      reads this, cells
      ensures |l| == |cells| && forall i :: 0 <= i < |l| ==> l[i] == cells[i].count
    {
      seq(|cells|, i requires 0 <= i < |cells| reads this, cells => cells[i].count)
    }

    method TotalLoad() returns (total: nat)
      ensures total == Sum(Loads())
    {
      total := 0;
      for i := 0 to |cells|
        invariant total == Sum(Loads()[..i])
      {
        assert Loads()[..i + 1][..i] == Loads()[..i];
        total := total + cells[i].count;
      }
      assert Loads()[..|cells|] == Loads();
    }

    ghost predicate Overloaded(p: Pair, cap: int)
      reads this`nodes, this`cells, cells
    {
      forall i :: 0 <= i < |nodes| && i < |cells| && nodes[i] == p.node ==> cells[i].count >= cap
    }

    ghost predicate AllFull(w: Ring, cap: int)
      reads this`nodes, this`cells, cells
    {
      forall k :: 0 <= k < |w| ==> Overloaded(w[k], cap)
    }

    /** `node` is below the cap, and nobody before it on the walk is. */
    ghost predicate FirstWithRoom(w: Ring, cap: int, node: NodeId)
      reads this`nodes, this`cells, cells
    {
      exists k :: 0 <= k < |w| && node == w[k].node && !Overloaded(w[k], cap)
                  && forall j :: 0 <= j < k ==> Overloaded(w[j], cap)
    }

    /**
     The first node clockwise whose load is below the cap, or the owner when there is none; a single node, or a
     factor of zero, turns the bound off.
     */
    method GetNodeBounded(key: Bytes) returns (node: NodeId)
      requires Valid()
      ensures var w := Walk(Circle(), keyHash(key));
              if factor <= 0.0 || |nodes| <= 1 then node == Owner(Circle(), keyHash(key))
              else
                var cap := MaxLoad(Sum(Loads()), |nodes|, factor);
                if AllFull(w, cap) then node == Owner(Circle(), keyHash(key)) else FirstWithRoom(w, cap, node)
    {
      hide IsRing, View, Walk, MaxLoad, Sum, Loads, AllFull, FirstWithRoom, Owner;
      if factor <= 0.0 {
        node := GetNode(key);
        return;
      }
      RingNeedsMembers();
      if |hashes| == 0 {
        node := GetNode(key);
        return;
      }
      var start := Start(key);
      if |nodes| == 1 { return nodes[index[start]]; }
      var total := TotalLoad();
      var found := FirstBelow(start, MaxLoad(total, |nodes|, factor), Walk(Circle(), keyHash(key)));
      node := if found.Some? then found.value else nodes[index[start]];
    }

    method FirstBelow(start: nat, cap: int, ghost w: Ring) returns (found: Option<NodeId>)
      requires Shape() && start < |hashes| && w == Circle()[start..] + Circle()[..start]
      ensures if found == None then AllFull(w, cap) else !AllFull(w, cap) && FirstWithRoom(w, cap, found.value)
    {
      hide Overloaded;
      ghost var steps: nat := 0;
      var cur := start;
      while true
        invariant steps < |w| == |hashes| && cur == At(start, steps)
        invariant forall j :: 0 <= j < steps ==> Overloaded(w[j], cap)
        decreases |hashes| - steps
      {
        var i := index[cur];
        assert w[steps] == Pair(hashes[cur], nodes[i]);
        LoadDecides(w[steps], i, cap);
        if cells[i].count < cap { return Some(nodes[i]); }
        cur := cur + 1;
        steps := steps + 1;
        if cur == |hashes| { cur := 0; }
        if cur == start { return None; }
      }
    }

    lemma LoadDecides(p: Pair, i: nat, cap: int)
      requires Shape() && i < |nodes| && p.node == nodes[i]
      ensures Overloaded(p, cap) <==> cells[i].count >= cap
    {
    }

    /** Every member has a virtual node, so an empty ring has no members. */
    lemma RingNeedsMembers()
      requires Valid()
      ensures |hashes| == 0 <==> |nodes| == 0
    {
      assert |hashes| > 0 ==> index[0] < |nodes|;
      if |nodes| > 0 {
        var k := OnRing(Circle(), h, vnodes, Members(), nodes[0], 0);
      }
    }

    /** With a factor above one and some load in flight the search succeeds: some node on the walk has room. */
    lemma BoundedSearchSucceeds(key: Bytes)
      requires Valid() && factor > 1.0 && |nodes| > 1 && Sum(Loads()) > 0
      ensures !AllFull(Walk(Circle(), keyHash(key)), MaxLoad(Sum(Loads()), |nodes|, factor))
    {
      SomeoneIsBelowCap(Loads(), factor);
      var cap := MaxLoad(Sum(Loads()), |nodes|, factor);
      var i :| 0 <= i < |nodes| && Loads()[i] < cap;
      var at := OnRing(Circle(), h, vnodes, Members(), nodes[i], 0);
      var w := Walk(Circle(), keyHash(key));
      InWalk(Circle(), keyHash(key), Circle()[at]);
      var k :| 0 <= k < |w| && w[k] == Circle()[at];
      assert !Overloaded(w[k], cap);
    }

    /** The indices seen are those of the nodes listed. */
    ghost predicate Mirrors(seen: seq<nat>, result: seq<NodeId>)
      reads this`nodes
    {
      |seen| == |result| && forall k :: 0 <= k < |seen| ==> seen[k] < |nodes| && nodes[seen[k]] == result[k]
    }

    lemma SeenIffListed(seen: seq<nat>, result: seq<NodeId>, i: nat)
      requires Distinct(nodes) && Mirrors(seen, result) && i < |nodes|
      ensures i in seen <==> nodes[i] in result
      ensures Mirrors(seen + [i], result + [nodes[i]])
    {
    }
  }

  /** Ids that are all there already change neither the members nor their order. */
  lemma NothingNew(ns: seq<NodeId>, ids: seq<NodeId>)
    requires Distinct(ns) && Elements(ns) == Elements(ids)
    ensures Dedup(Keep(ns, In(Elements(ids))) + ids) == ns
  {
    KeepAll(ns, In(Elements(ids)));
    forall x | x in ids ensures x in ns { assert x in Elements(ids); }
    DedupAbsorbs(ns, ids);
  }

  ghost predicate Collide(h: VnodeHash, vnodes: nat, a: NodeId, b: NodeId) {
    exists i: nat, j: nat :: i < vnodes && j < vnodes && h(a, i) == h(b, j)
  }

  /** With a collision, the order on the ring tells which of the two was there first. */
  lemma OrderTellsHistory(r: Ring, h: VnodeHash, vnodes: nat, members: set<NodeId>, a: NodeId, b: NodeId,
                          before: set<NodeId>, other: set<NodeId>)
    requires IsRing(r, h, vnodes, members) && a in members && b in members && Collide(h, vnodes, a, b)
    requires a in before && b !in before && b in other && a !in other
    ensures !(SurvivorsFirst(r, before) && SurvivorsFirst(r, other))
  {
    var i: nat, j: nat :| i < vnodes && j < vnodes && h(a, i) == h(b, j);
    var k := OnRing(r, h, vnodes, members, a, i);
    var l := OnRing(r, h, vnodes, members, b, j);
    assert k != l;
  }

  method WithoutOne(ids: seq<NodeId>, x: NodeId) returns (rest: seq<NodeId>)
    ensures Elements(rest) == Elements(ids) - {x}
  {
    rest := [];
    for i := 0 to |ids|
      invariant Elements(rest) == Elements(ids[..i]) - {x}
    {
      assert Elements(ids[..i + 1]) == Elements(ids[..i]) + {ids[i]};
      if ids[i] != x {
        assert Elements(rest + [ids[i]]) == Elements(rest) + {ids[i]};
        rest := rest + [ids[i]];
      }
    }
    assert ids[..|ids|] == ids;
  }

  /** All members but one, then all of them. */
  method JoinedLast(h: VnodeHash, keyHash: Bytes -> u64, vnodes: nat, factor: real, ids: seq<NodeId>, last: NodeId)
    returns (ring: HashRing)
    requires vnodes > 0 && factor >= 0.0 && |Elements(ids)| <= MAX_PHYSICAL_NODES
    ensures fresh(ring) && ring.Valid() && ring.h == h && ring.vnodes == vnodes && ring.Members() == Elements(ids)
    ensures SurvivorsFirst(ring.Circle(), Elements(ids) - {last})
  {
    hide IsRing, View, SurvivorsFirst, CellsKept, Dedup, Keep;
    ring := new HashRing(h, keyHash, vnodes, factor);
    var rest := WithoutOne(ids, last);
    SubsetSize(Elements(rest), Elements(ids));
    var first := ring.SetNodes(rest);
    var second := ring.SetNodes(ids);
  }

  /**
   For any two members that collide, and whatever the others: two histories that end with the same members, and in
   which one or the other of the two joins last, build different rings.
   */
  method CollisionRemembersHistory(h: VnodeHash, keyHash: Bytes -> u64, vnodes: nat, factor: real,
                                   ids: seq<NodeId>, a: NodeId, b: NodeId)
    returns (x: HashRing, y: HashRing)
    requires vnodes > 0 && factor >= 0.0 && |Elements(ids)| <= MAX_PHYSICAL_NODES
    requires a in ids && b in ids && a != b
    ensures x.Valid() && y.Valid() && x.h == y.h == h && x.vnodes == y.vnodes == vnodes
    ensures x.Members() == y.Members() == Elements(ids)
    ensures Collide(h, vnodes, a, b) ==> x.Circle() != y.Circle()
  {
    x := JoinedLast(h, keyHash, vnodes, factor, ids, b);
    y := JoinedLast(h, keyHash, vnodes, factor, ids, a);
    hide IsRing, View, SurvivorsFirst;
    if Collide(h, vnodes, a, b) {
      OrderTellsHistory(x.Circle(), h, vnodes, Elements(ids), a, b, Elements(ids) - {b}, Elements(ids) - {a});
    }
  }

  /** Whatever joins, removals and replacements two rings went through, the same members make the same ring. */
  lemma SameMembersSameRing(a: HashRing, b: HashRing)
    requires a.Valid() && b.Valid() && a.h == b.h && a.vnodes == b.vnodes && a.Members() == b.Members()
    requires CollisionFree(a.h, a.vnodes, a.Members())
    ensures a.Circle() == b.Circle()
  {
    RingIsUnique(a.Circle(), b.Circle(), a.h, a.vnodes, a.Members());
  }

  lemma CellsStay(ns: seq<NodeId>, cs: seq<LoadCell>)
    requires |cs| == |ns| && Distinct(ns)
    ensures CellsKept(ns, cs, ns, cs)
  {
  }

  lemma KeptFurther(ns0: seq<NodeId>, cs0: seq<LoadCell>, ns1: seq<NodeId>, cs1: seq<LoadCell>,
                    ns: seq<NodeId>, cs: seq<LoadCell>, desired: set<NodeId>)
    requires CellsKept(ns0, cs0, ns1, cs1) && ns1 <= ns && cs1 <= cs && |ns| == |cs| && Distinct(ns)
    requires Elements(ns) == desired && Elements(ns1) == Elements(ns0) * desired
    ensures CellsKept(ns0, cs0, ns, cs)
  {
    forall i, j | 0 <= i < |ns0| && 0 <= j < |ns| && ns0[i] == ns[j] ensures cs[j] == cs0[i] {
      assert ns[j] in Elements(ns1);
      var k :| 0 <= k < |ns1| && ns1[k] == ns[j];
      assert ns[k] == ns[j];
    }
  }

  lemma AddedAreNew(a: Ring, h: VnodeHash, vnodes: nat, m: set<NodeId>)
    requires Added(a, h, vnodes, m)
    ensures forall p :: p in a ==> p.node in m
  {
    forall p | p in a ensures p.node in m { assert p in multiset(a); }
  }

  lemma AddedSame(a: Ring, b: Ring, h: VnodeHash, vnodes: nat, m: set<NodeId>)
    requires Added(a, h, vnodes, m) && multiset(a) == multiset(b)
    ensures Added(b, h, vnodes, m)
  {
  }

  lemma {:induction false} SameSize<T>(a: set<T>, b: set<T>)
    requires a <= b && |a| == |b|
    ensures a == b
  {
    if a == {} {
    } else {
      var x :| x in a;
      SameSize(a - {x}, b - {x});
    }
  }

  /** These are the virtual nodes of exactly the members `m`, in any order. */
  ghost predicate Added(a: Ring, h: VnodeHash, vnodes: nat, m: set<NodeId>) {
    forall p :: multiset(a)[p] == if p.node in m then Occurs(h, vnodes, p) else 0
  }

  lemma NoElements<T>()
    ensures Elements<T>([]) == {}
  {
  }

  lemma ElementsSnoc<T>(s: seq<T>, x: T)
    ensures Elements(s + [x]) == Elements(s) + {x}
    ensures x in s ==> Elements(s) + {x} == Elements(s)
  {
  }

  lemma DistinctSnoc<T>(s: seq<T>, x: T)
    requires Distinct(s) && x !in s
    ensures Distinct(s + [x])
  {
  }

  lemma NewIsNew(ns0: seq<NodeId>, ns: seq<NodeId>, x: NodeId)
    requires ns0 <= ns && x !in ns
    ensures x !in Elements(ns) && Elements(ns + [x]) - Elements(ns0) == Elements(ns) - Elements(ns0) + {x}
  {
  }

  lemma AddedOne(a: Ring, h: VnodeHash, vnodes: nat, m: set<NodeId>, node: NodeId)
    requires Added(a, h, vnodes, m) && node !in m
    ensures Added(a + Vnodes(h, vnodes, node), h, vnodes, m + {node})
  {
    forall p { VnodesCount(h, vnodes, node, p); }
  }

  lemma YieldStart(o: Ring, m: set<NodeId>)
    ensures Yielding([], o, m)
  {
  }

  lemma YieldEnd(out: Ring, m: set<NodeId>)
    requires Yielding(out, [], m)
    ensures SurvivorsFirst(out, m)
  {
  }

  lemma MergeStart(o: Ring, a: Ring, f: Pair -> bool)
    requires Sorted(o) && Sorted(a)
    ensures Merging([], o, a, f, multiset(Keep(o, f)) + multiset(a))
  {
  }

  lemma MergeEnd(out: Ring, f: Pair -> bool, total: multiset<Pair>)
    requires Merging(out, [], [], f, total)
    ensures Sorted(out) && multiset(out) == total
  {
  }

  lemma ElementsRemoveAt<T>(s: seq<T>, k: nat)
    requires Distinct(s) && k < |s|
    ensures Distinct(RemoveAt(s, k)) && Elements(RemoveAt(s, k)) == Elements(s) - {s[k]}
  {
    var t := RemoveAt(s, k);
    forall x | x in s && x != s[k] ensures x in t {
      var i :| 0 <= i < |s| && s[i] == x;
      assert t[if i < k then i else i - 1] == x;
    }
  }
}
