/**
 Consistent hashing as mathematics: the ring of a set of members is the hash-sorted sequence of their virtual
 nodes, and a key is served by the members met first when walking clockwise from its hash. The two hash functions
 are parameters.
 */
module HashRingSpec {
  import opened Common

  type VnodeHash = (NodeId, nat) -> u64

  datatype Pair = Pair(hash: nat, node: NodeId)
  type Ring = seq<Pair>

  ghost predicate Sorted(r: Ring) {
    forall i, j :: 0 <= i < j < |r| ==> r[i].hash <= r[j].hash
  }

  /** How many of the first `n` virtual nodes of `p.node` hash to `p.hash`. */
  ghost function Occurs(h: VnodeHash, n: nat, p: Pair): nat {
    if n == 0 then 0 else Occurs(h, n - 1, p) + if h(p.node, n - 1) == p.hash then 1 else 0
  }

  /** `r` is sorted and holds the virtual nodes of exactly the members. */
  ghost predicate IsRing(r: Ring, h: VnodeHash, vnodes: nat, members: set<NodeId>) {
    Sorted(r) && forall p :: multiset(r)[p] == if p.node in members then Occurs(h, vnodes, p) else 0
  }

  ghost predicate CollisionFree(h: VnodeHash, vnodes: nat, members: set<NodeId>) {
    forall a, b, i: nat, j: nat ::
      a in members && b in members && i < vnodes && j < vnodes && h(a, i) == h(b, j) ==> a == b
  }

  lemma {:induction false} OccursWitness(h: VnodeHash, n: nat, p: Pair) returns (i: nat)
    requires Occurs(h, n, p) > 0
    ensures i < n && h(p.node, i) == p.hash
  {
    if h(p.node, n - 1) == p.hash {
      i := n - 1;
    } else {
      i := OccursWitness(h, n - 1, p);
    }
  }

  /** What a ring is made of: for each member, one virtual node at the hash of each of its numbers. */
  lemma RingIsVirtualNodes(r: Ring, h: VnodeHash, vnodes: nat, members: set<NodeId>, p: Pair)
    requires IsRing(r, h, vnodes, members)
    ensures p in r <==> p.node in members && exists i: nat :: i < vnodes && h(p.node, i) == p.hash
  {
    if p in r {
      assert p in multiset(r);
      var i := OccursWitness(h, vnodes, p);
    }
    if p.node in members && exists i: nat :: i < vnodes && h(p.node, i) == p.hash {
      var i: nat :| i < vnodes && h(p.node, i) == p.hash;
      OccursAtLeastOnce(h, vnodes, p.node, i);
      assert p in multiset(r);
    }
  }

  /** The ring of a set of members without colliding hashes is unique, whatever history built it. */
  lemma RingIsUnique(a: Ring, b: Ring, h: VnodeHash, vnodes: nat, members: set<NodeId>)
    requires IsRing(a, h, vnodes, members) && IsRing(b, h, vnodes, members) && CollisionFree(h, vnodes, members)
    ensures a == b
  {
    assert multiset(a) == multiset(b);
    forall p, q | p in multiset(a) && q in multiset(a) && p.hash == q.hash ensures p == q {
      var i := OccursWitness(h, vnodes, p);
      var j := OccursWitness(h, vnodes, q);
    }
    SortedIsUnique(a, b);
  }

  /** Among these pairs the hash determines the node. */
  ghost predicate Decided(m: multiset<Pair>) {
    forall p, q :: p in m && q in m && p.hash == q.hash ==> p == q
  }

  lemma SameHead(a: Ring, b: Ring)
    requires Sorted(a) && Sorted(b) && multiset(a) == multiset(b) && Decided(multiset(a)) && a != [] && b != []
    ensures a[0] == b[0]
  {
    assert a[0] in multiset(b) && b[0] in multiset(a);
    var i :| 0 <= i < |b| && b[i] == a[0];
    var j :| 0 <= j < |a| && a[j] == b[0];
  }

  lemma Tail(a: Ring)
    requires a != []
    ensures multiset(a[1..]) == multiset(a) - multiset{a[0]}
    ensures Sorted(a) ==> Sorted(a[1..])
    ensures Decided(multiset(a)) ==> Decided(multiset(a[1..]))
  {
    assert a == [a[0]] + a[1..];
  }

  lemma SameLength(a: Ring, b: Ring)
    requires multiset(a) == multiset(b)
    ensures |a| == |b|
  {
    assert |multiset(a)| == |a|;
  }

  lemma SameAt(a: Ring, b: Ring, i: nat)
    requires |a| == |b| && i < |a| && a[0] == b[0] && a[1..] == b[1..]
    ensures a[i] == b[i]
  {
    assert i > 0 ==> a[i] == a[1..][i - 1] && b[i] == b[1..][i - 1];
  }

  lemma {:induction false} SortedIsUnique(a: Ring, b: Ring)
    requires Sorted(a) && Sorted(b) && multiset(a) == multiset(b) && Decided(multiset(a))
    ensures a == b
  {
    hide Sorted, Decided;
    SameLength(a, b);
    if a == [] {
    } else {
      SameHead(a, b);
      Tail(a);
      Tail(b);
      SortedIsUnique(a[1..], b[1..]);
      forall i: nat | i < |a| ensures a[i] == b[i] {
        SameAt(a, b, i);
      }
    }
  }

  lemma SwapEqualHashes(r: Ring, i: nat, j: nat)
    requires Sorted(r) && i < |r| && j < |r| && r[i].hash == r[j].hash
    ensures var s := r[i := r[j]][j := r[i]]; Sorted(s) && multiset(s) == multiset(r)
  {
    var s := r[i := r[j]][j := r[i]];
    assert forall k :: 0 <= k < |r| ==> s[k].hash == r[k].hash;
  }

  lemma Rearranged(r: Ring, s: Ring, h: VnodeHash, vnodes: nat, members: set<NodeId>)
    requires IsRing(r, h, vnodes, members) && Sorted(s) && multiset(s) == multiset(r)
    ensures IsRing(s, h, vnodes, members)
  {
  }

  lemma OnRing(r: Ring, h: VnodeHash, vnodes: nat, members: set<NodeId>, n: NodeId, i: nat) returns (k: nat)
    requires IsRing(r, h, vnodes, members) && n in members && i < vnodes
    ensures Sorted(r) && k < |r| && r[k] == Pair(h(n, i), n)
  {
    OccursAtLeastOnce(h, vnodes, n, i);
    assert Pair(h(n, i), n) in multiset(r);
    k :| 0 <= k < |r| && r[k] == Pair(h(n, i), n);
  }

  /** Conversely, with a collision between two members their order on the ring is open: another ring is as good. */
  lemma CollisionLeavesOrderOpen(r: Ring, h: VnodeHash, vnodes: nat, members: set<NodeId>)
    requires IsRing(r, h, vnodes, members) && !CollisionFree(h, vnodes, members)
    ensures exists s :: IsRing(s, h, vnodes, members) && s != r
  {
    var a, b, i: nat, j: nat :|
      a in members && b in members && i < vnodes && j < vnodes && h(a, i) == h(b, j) && a != b;
    hide IsRing, Sorted;
    var k := OnRing(r, h, vnodes, members, a, i);
    var l := OnRing(r, h, vnodes, members, b, j);
    var s := r[k := r[l]][l := r[k]];
    SwapEqualHashes(r, k, l);
    Rearranged(r, s, h, vnodes, members);
    assert s[k] != r[k];
  }

  // ---------------------------------------------------------------- walking clockwise

  function Keep<T>(s: seq<T>, f: T -> bool): seq<T> {
    if s == [] then []
    else if f(s[|s| - 1]) then Keep(s[..|s| - 1], f) + [s[|s| - 1]]
    else Keep(s[..|s| - 1], f)
  }

  function From(at: nat): Pair -> bool {
    (p: Pair) => p.hash >= at
  }

  function Before(at: nat): Pair -> bool {
    (p: Pair) => p.hash < at
  }

  function NotOf(x: NodeId): Pair -> bool {
    (p: Pair) => p.node != x
  }

  function Not(x: NodeId): NodeId -> bool {
    n => n != x
  }

  /** The ring from the first virtual node at or after `at`, all the way round. */
  function Walk(r: Ring, at: nat): Ring {
    Keep(r, From(at)) + Keep(r, Before(at))
  }

  function Nodes(r: Ring): (ns: seq<NodeId>)
    ensures |ns| == |r| && forall i :: 0 <= i < |r| ==> ns[i] == r[i].node
  {
    if r == [] then [] else Nodes(r[..|r| - 1]) + [r[|r| - 1].node]
  }

  /** First occurrences, in order. */
  function Dedup(s: seq<NodeId>): seq<NodeId> {
    if s == [] then []
    else
      var d := Dedup(s[..|s| - 1]);
      if s[|s| - 1] in d then d else d + [s[|s| - 1]]
  }

  /** All members in the order in which they are asked to serve `at`. */
  function Preference(r: Ring, at: nat): seq<NodeId> {
    Dedup(Nodes(Walk(r, at)))
  }

  function Take<T>(s: seq<T>, k: nat): seq<T> {
    if k <= |s| then s[..k] else s
  }

  /** The replicas of a key. */
  function Replicas(r: Ring, at: nat, k: nat): seq<NodeId> {
    Take(Preference(r, at), k)
  }

  /** The owner of a key; the empty name when nobody is there. */
  function Owner(r: Ring, at: nat): NodeId {
    if r == [] then [] else Walk(r, at)[0].node
  }

  /** The walk for `at` starts at the first virtual node whose hash is not below it, and goes once around. */
  lemma WalkIsClockwise(r: Ring, at: nat, k: nat)
    requires k <= |r| && (forall i :: 0 <= i < k ==> r[i].hash < at) && (forall i :: k <= i < |r| ==> r[i].hash >= at)
    ensures Walk(r, at) == r[k..] + r[..k]
    ensures Owner(r, at) == if r == [] then [] else r[if k < |r| then k else 0].node
  {
    hide Keep;
    assert r == r[..k] + r[k..];
    KeepConcat(r[..k], r[k..], From(at));
    KeepConcat(r[..k], r[k..], Before(at));
    KeepNothing(r[..k], From(at));
    KeepAll(r[k..], From(at));
    KeepAll(r[..k], Before(at));
    KeepNothing(r[k..], Before(at));
  }

  /** Duplicates are dropped after their first occurrence: before the `j`-th node come only the earlier ones. */
  lemma {:induction false} DedupByFirst(s: seq<NodeId>, j: nat) returns (b: nat)
    requires j < |Dedup(s)|
    ensures b < |s| && s[b] == Dedup(s)[j] && forall c :: 0 <= c < b ==> s[c] in Dedup(s)[..j]
  {
    var init := s[..|s| - 1];
    var d := Dedup(init);
    if j < |d| {
      b := DedupByFirst(init, j);
      assert Dedup(s)[..j] == d[..j];
    } else {
      b := |s| - 1;
      assert Dedup(s)[..j] == d;
      forall c | 0 <= c < b ensures s[c] in d {
        DedupIn(init, s[c]);
        assert init[c] in init;
      }
    }
  }

  /** Going clockwise from a key, the members are preferred in the order they are first met. */
  lemma PreferenceIsClockwise(r: Ring, at: nat, k: nat, j: nat) returns (b: nat)
    requires k <= |r| && (forall i :: 0 <= i < k ==> r[i].hash < at) && (forall i :: k <= i < |r| ==> r[i].hash >= at)
    requires j < |Preference(r, at)|
    ensures var walk := r[k..] + r[..k];
            && b < |walk| && walk[b].node == Preference(r, at)[j]
            && forall c :: 0 <= c < b ==> walk[c].node in Preference(r, at)[..j]
  {
    WalkIsClockwise(r, at, k);
    var walk := r[k..] + r[..k];
    NodesAre(walk);
    b := DedupByFirst(Nodes(walk), j);
  }

  lemma {:induction false} NodesAre(r: Ring)
    ensures |Nodes(r)| == |r| && forall i :: 0 <= i < |r| ==> Nodes(r)[i] == r[i].node
  {
    if r == [] {
    } else {
      NodesAre(r[..|r| - 1]);
    }
  }

  lemma {:induction false} KeepConcat<T>(a: seq<T>, b: seq<T>, f: T -> bool)
    ensures Keep(a + b, f) == Keep(a, f) + Keep(b, f)
  {
    if b == [] {
      assert a + b == a;
    } else {
      assert (a + b)[..|a + b| - 1] == a + b[..|b| - 1];
      KeepConcat(a, b[..|b| - 1], f);
    }
  }

  lemma KeepSnoc<T>(s: seq<T>, x: T, f: T -> bool)
    ensures Keep(s + [x], f) == if f(x) then Keep(s, f) + [x] else Keep(s, f)
  {
    assert (s + [x])[..|s|] == s;
  }

  lemma KeepNone<T>(f: T -> bool)
    ensures Keep([], f) == []
  {
  }

  lemma {:induction false} KeepAll<T>(s: seq<T>, f: T -> bool)
    requires forall x :: x in s ==> f(x)
    ensures Keep(s, f) == s
  {
    if s == [] {
    } else {
      KeepAll(s[..|s| - 1], f);
    }
  }

  lemma {:induction false} KeepNothing<T>(s: seq<T>, f: T -> bool)
    requires forall x :: x in s ==> !f(x)
    ensures Keep(s, f) == []
  {
    if s == [] {
    } else {
      KeepNothing(s[..|s| - 1], f);
    }
  }

  lemma {:induction false} KeepIn<T>(s: seq<T>, f: T -> bool, x: T)
    ensures x in Keep(s, f) <==> x in s && f(x)
  {
    if s == [] {
    } else {
      assert s == s[..|s| - 1] + [s[|s| - 1]];
      KeepIn(s[..|s| - 1], f, x);
    }
  }

  lemma {:induction false} KeepTwice<T>(s: seq<T>, f: T -> bool, g: T -> bool)
    ensures Keep(Keep(s, f), g) == Keep(Keep(s, g), f)
  {
    if s == [] {
    } else {
      var t, x := s[..|s| - 1], s[|s| - 1];
      KeepTwice(t, f, g);
      KeepSnoc(Keep(t, f), x, g);
      KeepSnoc(Keep(t, g), x, f);
    }
  }

  lemma {:induction false} NodesKeep(r: Ring, x: NodeId)
    ensures Nodes(Keep(r, NotOf(x))) == Keep(Nodes(r), Not(x))
  {
    if r == [] {
    } else {
      var t, p := r[..|r| - 1], r[|r| - 1];
      NodesKeep(t, x);
      KeepSnoc(Nodes(t), p.node, Not(x));
      if p.node != x {
        var k := Keep(r, NotOf(x));
        assert k[..|k| - 1] == Keep(t, NotOf(x));
      }
    }
  }

  lemma {:induction false} DedupIn(s: seq<NodeId>, x: NodeId)
    ensures x in Dedup(s) <==> x in s
  {
    if s == [] {
    } else {
      assert s == s[..|s| - 1] + [s[|s| - 1]];
      DedupIn(s[..|s| - 1], x);
    }
  }

  lemma DedupSnoc(s: seq<NodeId>, x: NodeId)
    ensures Dedup(s + [x]) == if x in Dedup(s) then Dedup(s) else Dedup(s) + [x]
  {
    assert (s + [x])[..|s|] == s;
  }

  lemma DedupEmpty()
    ensures Dedup([]) == []
  {
  }

  lemma {:induction false} DedupPrefix(s: seq<NodeId>, k: nat)
    requires k <= |s|
    ensures Dedup(s[..k]) <= Dedup(s)
    decreases |s|
  {
    if k == |s| {
      assert s[..k] == s;
    } else {
      DedupPrefix(s[..|s| - 1], k);
      assert s[..|s| - 1][..k] == s[..k];
    }
  }

  lemma {:induction false} DedupDistinct(s: seq<NodeId>)
    requires Distinct(s)
    ensures Dedup(s) == s
  {
    if s == [] {
    } else {
      DedupDistinct(s[..|s| - 1]);
      assert s == s[..|s| - 1] + [s[|s| - 1]];
    }
  }

  lemma {:induction false} DedupAbsorbs(a: seq<NodeId>, b: seq<NodeId>)
    requires Distinct(a) && forall x :: x in b ==> x in a
    ensures Dedup(a + b) == a
  {
    if b == [] {
      assert a + b == a;
      DedupDistinct(a);
    } else {
      DedupAbsorbs(a, b[..|b| - 1]);
      assert (a + b)[..|a + b| - 1] == a + b[..|b| - 1];
    }
  }

  lemma {:induction false} DedupKeep(s: seq<NodeId>, x: NodeId)
    ensures Dedup(Keep(s, Not(x))) == Keep(Dedup(s), Not(x))
  {
    if s == [] {
    } else {
      var t, y := s[..|s| - 1], s[|s| - 1];
      DedupKeep(t, x);
      DedupSnoc(Keep(t, Not(x)), y);
      KeepSnoc(Dedup(t), y, Not(x));
      KeepIn(Dedup(t), Not(x), y);
    }
  }

  /** Losing a member only takes it out of every key's preference order. */
  lemma RemovalKeepsPreference(r: Ring, at: nat, x: NodeId)
    ensures Preference(Keep(r, NotOf(x)), at) == Keep(Preference(r, at), Not(x))
  {
    KeepTwice(r, From(at), NotOf(x));
    KeepTwice(r, Before(at), NotOf(x));
    KeepConcat(Keep(r, From(at)), Keep(r, Before(at)), NotOf(x));
    NodesKeep(Walk(r, at), x);
    DedupKeep(Nodes(Walk(r, at)), x);
  }

  lemma {:induction false} KeepShrinks<T>(s: seq<T>, f: T -> bool)
    ensures |Keep(s, f)| <= |s|
  {
    if s == [] {
    } else {
      KeepShrinks(s[..|s| - 1], f);
    }
  }

  /** The replicas of a key that survive a removal stay its first replicas, in the same order. */
  lemma RemovalKeepsReplicas(r: Ring, at: nat, k: nat, x: NodeId)
    ensures Keep(Replicas(r, at, k), Not(x)) <= Replicas(Keep(r, NotOf(x)), at, k)
  {
    RemovalKeepsPreference(r, at, x);
    hide Preference, Keep;
    var p := Preference(r, at);
    var n := if k <= |p| then k else |p|;
    KeepShrinks(p[..n], Not(x));
    assert p == p[..n] + p[n..];
    KeepConcat(p[..n], p[n..], Not(x));
    assert Replicas(r, at, k) == p[..n];
  }

  /** A joining member changes the owner of a key only to itself. */
  lemma JoinMovesOnlyToJoiner(r: Ring, at: nat, x: NodeId)
    ensures Owner(r, at) == Owner(Keep(r, NotOf(x)), at) || Owner(r, at) == x
  {
    OwnerIsPreferred(r, at);
    OwnerIsPreferred(Keep(r, NotOf(x)), at);
    RemovalKeepsPreference(r, at, x);
    var p := Preference(r, at);
    if p != [] && p[0] != x {
      assert p == [p[0]] + p[1..];
      KeepConcat([p[0]], p[1..], Not(x));
      KeepSnoc([], p[0], Not(x));
      EmptyRing(Keep(r, NotOf(x)), at);
    }
  }

  lemma EmptyRing(r: Ring, at: nat)
    ensures r == [] ==> Preference(r, at) == []
  {
  }

  lemma {:induction false} DedupHead(s: seq<NodeId>)
    ensures Distinct(Dedup(s))
    ensures s != [] ==> Dedup(s) != [] && Dedup(s)[0] == s[0]
  {
    if s == [] {
    } else {
      DedupHead(s[..|s| - 1]);
      if |s| > 1 { assert s[..|s| - 1][0] == s[0]; }
    }
  }

  lemma {:induction false} WalkCoversAll(r: Ring, at: nat)
    ensures |Walk(r, at)| == |r|
  {
    if r == [] {
    } else {
      WalkCoversAll(r[..|r| - 1], at);
    }
  }

  lemma OwnerIsPreferred(r: Ring, at: nat)
    ensures |Walk(r, at)| == |r|
    ensures if r == [] then Owner(r, at) == [] && Preference(r, at) == []
            else Preference(r, at) != [] && Owner(r, at) == Preference(r, at)[0]
  {
    WalkCoversAll(r, at);
    DedupHead(Nodes(Walk(r, at)));
  }

  // ---------------------------------------------------------------- rings and their members

  lemma {:induction false} KeepCount(r: Ring, f: Pair -> bool, p: Pair)
    ensures multiset(Keep(r, f))[p] == if f(p) then multiset(r)[p] else 0
  {
    if r == [] {
    } else {
      assert r == r[..|r| - 1] + [r[|r| - 1]];
      KeepCount(r[..|r| - 1], f, p);
    }
  }

  lemma {:induction false} KeepSorted(r: Ring, f: Pair -> bool)
    requires Sorted(r)
    ensures Sorted(Keep(r, f))
  {
    if r == [] {
    } else {
      var t, k := r[..|r| - 1], Keep(r[..|r| - 1], f);
      KeepSorted(t, f);
      forall i | 0 <= i < |k| ensures k[i].hash <= r[|r| - 1].hash {
        KeepIn(t, f, k[i]);
        assert k[i] in t;
      }
    }
  }

  /** Dropping a member's virtual nodes from a ring leaves the ring of the others. */
  lemma RemovalIsRing(r: Ring, h: VnodeHash, vnodes: nat, members: set<NodeId>, x: NodeId)
    requires IsRing(r, h, vnodes, members)
    ensures IsRing(Keep(r, NotOf(x)), h, vnodes, members - {x})
  {
    KeepSorted(r, NotOf(x));
    forall p { KeepCount(r, NotOf(x), p); }
  }

  lemma {:induction false} OccursAtLeastOnce(h: VnodeHash, n: nat, node: NodeId, i: nat)
    requires i < n
    ensures Occurs(h, n, Pair(h(node, i), node)) > 0
  {
    if i == n - 1 {
    } else {
      OccursAtLeastOnce(h, n - 1, node, i);
    }
  }

  lemma InWalk(r: Ring, at: nat, p: Pair)
    ensures p in Walk(r, at) <==> p in r
  {
    KeepIn(r, From(at), p);
    KeepIn(r, Before(at), p);
  }

  lemma MembersAreMet(r: Ring, h: VnodeHash, vnodes: nat, members: set<NodeId>, at: nat, n: NodeId)
    requires IsRing(r, h, vnodes, members) && vnodes > 0
    ensures n in Preference(r, at) <==> n in members
  {
    var w := Walk(r, at);
    DedupIn(Nodes(w), n);
    if n in Nodes(w) {
      var i :| 0 <= i < |w| && w[i].node == n;
      InWalk(r, at, w[i]);
      assert w[i] in multiset(r);
    }
    if n in members {
      var p := Pair(h(n, 0), n);
      OccursAtLeastOnce(h, vnodes, n, 0);
      assert p in multiset(r);
      InWalk(r, at, p);
      var i :| 0 <= i < |w| && w[i] == p;
      assert Nodes(w)[i] == n;
    }
  }

  lemma PreferenceIsDistinct(r: Ring, at: nat)
    ensures Distinct(Preference(r, at))
  {
    DedupHead(Nodes(Walk(r, at)));
  }

  /**
   A key has as many replicas as asked for, or all the members when there are fewer; they are distinct members,
   the owner comes first, and asking for more only adds at the end.
   */
  lemma ReplicasAreDistinctMembers(r: Ring, h: VnodeHash, vnodes: nat, members: set<NodeId>, at: nat, k: nat)
    requires IsRing(r, h, vnodes, members) && vnodes > 0
    ensures var s := Replicas(r, at, k);
            |s| == (if k <= |members| then k else |members|)
            && Distinct(s) && (forall n :: n in s ==> n in members)
            && (s != [] ==> s[0] == Owner(r, at))
            && forall j: nat :: j <= k ==> Replicas(r, at, j) <= s
  {
    PreferenceIsDistinct(r, at);
    hide Preference, IsRing, Owner;
    var p := Preference(r, at);
    forall n ensures n in p <==> n in members { MembersAreMet(r, h, vnodes, members, at, n); }
    OwnerIsPreferred(r, at);
    DistinctSize(p, members);
  }

  /** When `x` joins, every other member keeps its place in every key's order; ownership moves to `x` or not at all. */
  lemma JoinKeepsPreference(r: Ring, s: Ring, h: VnodeHash, vnodes: nat, members: set<NodeId>, x: NodeId, at: nat)
    requires IsRing(r, h, vnodes, members) && IsRing(s, h, vnodes, members + {x}) && x !in members
    requires CollisionFree(h, vnodes, members)
    ensures Keep(Preference(s, at), Not(x)) == Preference(r, at)
    ensures Owner(s, at) == Owner(r, at) || Owner(s, at) == x
  {
    RemovalIsRing(s, h, vnodes, members + {x}, x);
    assert members + {x} - {x} == members;
    RingIsUnique(r, Keep(s, NotOf(x)), h, vnodes, members);
    RemovalKeepsPreference(s, at, x);
    JoinMovesOnlyToJoiner(s, at, x);
  }

  // ---------------------------------------------------------------- bounded load

  function Ceil(x: real): int {
    -((-x).Floor)
  }

  /** The cap on a node's load: the average times the factor, rounded up. */
  function MaxLoad(total: nat, nodes: nat, factor: real): int
    requires nodes > 0
  {
    Ceil(total as real / nodes as real * factor)
  }

  /** The cap is the least whole number that is not below the average times the factor. */
  lemma CapIsLeast(total: nat, nodes: nat, factor: real, cap: int)
    requires nodes > 0
    ensures total as real / nodes as real * factor <= cap as real <==> MaxLoad(total, nodes, factor) <= cap
  {
    var x := total as real / nodes as real * factor;
    assert (-x).Floor as real <= -x < (-x).Floor as real + 1.0;
  }

  function Sum(loads: seq<nat>): nat {
    if loads == [] then 0 else Sum(loads[..|loads| - 1]) + loads[|loads| - 1]
  }

  lemma {:induction false} SumAtLeast(loads: seq<nat>, low: int)
    requires forall i :: 0 <= i < |loads| ==> loads[i] >= low
    ensures Sum(loads) >= low * |loads|
  {
    if loads == [] {
    } else {
      SumAtLeast(loads[..|loads| - 1], low);
      assert low * |loads| == low * (|loads| - 1) + low;
    }
  }

  lemma Scale(a: real, b: real, c: real)
    requires a > b && c > 0.0
    ensures a * c > b * c
  {
    assert (a - b) * c > 0.0;
  }

  lemma CapAboveAverage(total: nat, nodes: nat, factor: real)
    requires nodes > 0 && total > 0 && factor > 1.0
    ensures MaxLoad(total, nodes, factor) * nodes > total
  {
    var n, t := nodes as real, total as real;
    var avg := t / n;
    var cap := MaxLoad(total, nodes, factor);
    Scale(factor, 1.0, avg);
    Scale(cap as real, avg, n);
    ProductAsReal(cap, nodes);
  }

  lemma {:induction false} ProductAsReal(a: int, n: nat)
    ensures (a * n) as real == a as real * n as real
  {
    if n == 0 {
    } else {
      ProductAsReal(a, n - 1);
      assert a * n == a * (n - 1) + a;
      assert a as real * n as real == a as real * (n - 1) as real + a as real;
    }
  }

  /** A factor above one and some load in flight leave at least one node below the cap. */
  lemma SomeoneIsBelowCap(loads: seq<nat>, factor: real)
    requires loads != [] && Sum(loads) > 0 && factor > 1.0
    ensures exists i :: 0 <= i < |loads| && loads[i] < MaxLoad(Sum(loads), |loads|, factor)
  {
    var cap := MaxLoad(Sum(loads), |loads|, factor);
    CapAboveAverage(Sum(loads), |loads|, factor);
    if forall i :: 0 <= i < |loads| ==> loads[i] >= cap {
      SumAtLeast(loads, cap);
    }
  }
}
