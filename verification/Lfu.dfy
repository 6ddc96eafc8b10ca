/**
 Least-frequently-used bookkeeping of one store shard: nodes found by key, grouped in buckets by access count, each
 knowing its position in its bucket so that it can be swapped out in constant time.
 */
module Lfu {
  import opened Common
  import opened Lww

  const NODE_SIZE := 136

  // ---------------------------------------------------------------- the plain view

  /** What the bookkeeping amounts to: per key, how often it was used and what it holds. */
  datatype Item = Item(freq: nat, entry: Entry)
  type Items = map<Key, Item>

  predicate Alive(m: Items, k: Key) {
    k in m && !m[k].entry.stamp.tombstone
  }

  /** Eviction may take `k`: it is no delete marker, and no other such entry was used less often. */
  ghost predicate LeastUsed(m: Items, k: Key) {
    Alive(m, k) && forall j :: Alive(m, j) ==> m[k].freq <= m[j].freq
  }

  // ---------------------------------------------------------------- buckets as values

  class LfuNode {
    const key: Key
    var entry: Entry
    var freq: nat
    var freqIndex: nat

    constructor (key: Key, entry: Entry)
      ensures this.key == key && this.entry == entry && freq == 1 && freqIndex == 0
    {
      this.key, this.entry, freq, freqIndex := key, entry, 1, 0;
    }
  }

  datatype Place = Place(freq: nat, at: nat)
  type Buckets = map<nat, seq<LfuNode>>
  type Places = map<LfuNode, Place>

  ghost predicate IsAt(buckets: Buckets, n: LfuNode, p: Place) {
    p.freq in buckets && p.at < |buckets[p.freq]| && buckets[p.freq][p.at] == n
  }

  ghost predicate BucketOk(buckets: Buckets, places: Places, f: nat)
    requires f in buckets
  {
    && buckets[f] != []
    && forall i: nat :: i < |buckets[f]| ==> buckets[f][i] in places && places[buckets[f][i]] == Place(f, i)
  }

  /** Every node is at its recorded place, nothing else is in a bucket, and no bucket is empty. */
  ghost predicate Filed(buckets: Buckets, places: Places) {
    (forall n :: n in places ==> IsAt(buckets, n, places[n]))
    && (forall f :: f in buckets ==> BucketOk(buckets, places, f))
  }

  function Bucket(buckets: Buckets, f: nat): seq<LfuNode> {
    if f in buckets then buckets[f] else []
  }

  function WithBucket(buckets: Buckets, f: nat, b: seq<LfuNode>): Buckets {
    if b == [] then buckets - {f} else buckets[f := b]
  }

  /** Fill position `i` with the last node and shorten. */
  function SwapPop(b: seq<LfuNode>, i: nat): seq<LfuNode>
    requires i < |b|
  {
    b[i := b[|b| - 1]][..|b| - 1]
  }

  lemma RemoveKeepsFiled(buckets: Buckets, places: Places, n: LfuNode)
    requires Filed(buckets, places) && n in places
    ensures IsAt(buckets, n, places[n])
    ensures var p := places[n]; var b := buckets[p.freq]; var last := b[|b| - 1];
            Filed(WithBucket(buckets, p.freq, SwapPop(b, p.at)), places[last := p] - {n})
  {
    assert IsAt(buckets, n, places[n]);
    var p := places[n];
    var b := buckets[p.freq];
    var last := b[|b| - 1];
    var b', q := WithBucket(buckets, p.freq, SwapPop(b, p.at)), places[last := p] - {n};
    assert BucketOk(buckets, places, p.freq);
    forall m | m in q ensures IsAt(b', m, q[m]) {
      assert IsAt(buckets, m, places[m]);
    }
    forall f | f in b' ensures BucketOk(b', q, f) {
      assert BucketOk(buckets, places, f);
      forall i: nat | i < |b'[f]| ensures b'[f][i] in q && q[b'[f][i]] == Place(f, i) { }
    }
  }

  lemma PushKeepsFiled(buckets: Buckets, places: Places, n: LfuNode, f: nat)
    requires Filed(buckets, places) && n !in places
    ensures var b := Bucket(buckets, f);
            Filed(WithBucket(buckets, f, b + [n]), places[n := Place(f, |b|)])
  {
    var b := Bucket(buckets, f);
    var b', q := WithBucket(buckets, f, b + [n]), places[n := Place(f, |b|)];
    forall m | m in q ensures IsAt(b', m, q[m]) {
      assert m in places ==> IsAt(buckets, m, places[m]);
    }
    forall g | g in b' ensures BucketOk(b', q, g) {
      assert g in buckets ==> BucketOk(buckets, places, g);
    }
  }

  // ---------------------------------------------------------------- the shard

  class LfuShard {
    var index: map<Key, LfuNode>
    var buckets: Buckets

    ghost function PlacesNow(): Places
      reads this`index, index.Values`freq, index.Values`freqIndex
    {
      map n | n in index.Values :: Place(n.freq, n.freqIndex)
    }

    ghost predicate Valid()
      reads this, index.Values
    {
      (forall k :: k in index ==> index[k].key == k) && Filed(buckets, PlacesNow())
    }

    ghost function Model(): Items
      reads this`index, index.Values
    {
      map k | k in index :: Item(index[k].freq, index[k].entry)
    }

    constructor ()
      ensures Valid() && Model() == map[]
    {
      index, buckets := map[], map[];
    }

    lemma PlacesAre(places: Places)
      requires places.Keys == index.Values && forall n :: n in index.Values ==> places[n] == Place(n.freq, n.freqIndex)
      ensures PlacesNow() == places
    {
    }

    lemma ModelIs(m: Items)
      requires m.Keys == index.Keys && forall k :: k in index ==> m[k] == Item(index[k].freq, index[k].entry)
      ensures Model() == m
    {
    }

    /** Swap the node out of bucket `f`; an emptied bucket goes. Its recorded position is all that is needed. */
    method RemoveFromBucket(node: LfuNode, f: nat, ghost places: Places)
      requires Filed(buckets, places) && node in places && places[node] == Place(f, node.freqIndex)
      modifies this`buckets, places.Keys`freqIndex
      ensures IsAt(old(buckets), node, places[node])
      ensures var b := old(buckets)[f]; var last := b[|b| - 1];
              last in places && places[last].freq == f
              && Filed(buckets, places[last := places[node]] - {node})
              && (forall n :: n in places && n != last ==> n.freqIndex == old(n.freqIndex))
              && (last != node ==> last.freqIndex == places[node].at)
    {
      RemoveKeepsFiled(buckets, places, node);
      assert BucketOk(buckets, places, f);
      hide Filed;
      var b := buckets[f];
      var at := node.freqIndex;
      if at != |b| - 1 {
        var last := b[|b| - 1];
        assert places[last] == Place(f, |b| - 1);
        last.freqIndex := at;
        b := b[at := last];
      }
      b := b[..|b| - 1];
      assert b == SwapPop(buckets[f], at);
      buckets := if b == [] then buckets - {f} else buckets[f := b];
    }

    method PushToBucket(node: LfuNode, f: nat, ghost places: Places)
      requires Filed(buckets, places) && node !in places
      modifies this`buckets, node`freqIndex
      ensures Filed(buckets, places[node := Place(f, node.freqIndex)])
    {
      PushKeepsFiled(buckets, places, node, f);
      hide Filed;
      var b := if f in buckets then buckets[f] else [];
      node.freqIndex := |b|;
      buckets := buckets[f := b + [node]];
    }

    /** Move a node to the bucket of another frequency. */
    method Refile(node: LfuNode, freq: nat)
      requires Valid() && node in index.Values
      modifies this`buckets, index.Values`freq, index.Values`freqIndex
      ensures Valid() && node.freq == freq && forall n :: n in index.Values && n != node ==> n.freq == old(n.freq)
    {
      ghost var places := PlacesNow();
      hide Filed;
      var was := node.freq;
      node.freq := freq;
      RemoveFromBucket(node, was, places);
      ghost var b := old(buckets)[was];
      ghost var last := b[|b| - 1];
      ghost var rest := places[last := places[node]] - {node};
      assert forall n :: n in rest ==> n in index.Values && rest[n] == Place(n.freq, n.freqIndex);
      PushToBucket(node, freq, rest);
      PlacesAre(rest[node := Place(freq, node.freqIndex)]);
    }

    lemma Entries(k: Key)
      requires Valid() && k in index
      ensures index[k] in index.Values && forall j :: j in index && j != k ==> index[j] != index[k]
    {
    }

    /** A write to a known key: the new entry, used once more. */
    method ApplyExisting(k: Key, entry: Entry)
      requires Valid() && k in index
      modifies this`buckets, index.Values
      ensures Valid() && Model() == old(Model())[k := Item(old(index[k].freq) + 1, entry)]
    {
      hide Filed;
      Entries(k);
      index[k].entry := entry;
      Refile(index[k], index[k].freq + 1);
    }

    method OnAccess(k: Key)
      requires Valid() && k in index
      modifies this`buckets, index.Values
      ensures Valid() && Model() == old(Model())[k := Item(old(index[k].freq) + 1, old(index[k].entry))]
    {
      hide Filed;
      Entries(k);
      Refile(index[k], index[k].freq + 1);
    }

    /** After a restart a key gets its frequency back, unless it has been used more since. */
    method RestoreFreq(k: Key, freq: nat)
      requires Valid()
      modifies this`buckets, index.Values
      ensures Valid()
      ensures Model() == if k in old(Model()) && old(Model())[k].freq < freq && freq > 1
                         then old(Model())[k := Item(freq, old(Model())[k].entry)] else old(Model())
    {
      hide Filed;
      if freq <= 1 { return; }
      if k !in index || index[k].freq >= freq { return; }
      Entries(k);
      Refile(index[k], freq);
    }

    method InsertNew(k: Key, entry: Entry)
      requires Valid() && k !in index
      modifies this
      ensures Valid() && Model() == old(Model())[k := Item(1, entry)] && k in index && fresh(index[k])
      ensures index == old(index)[k := index[k]]
    {
      hide Valid, Model;
      var node := new LfuNode(k, entry);
      Enlist(node);
    }

    /** Put a new node into its bucket and the index. */
    method Enlist(node: LfuNode)
      requires Valid() && node.key !in index && node !in index.Values
      modifies this, node`freqIndex
      ensures Valid() && Model() == old(Model())[node.key := Item(node.freq, node.entry)]
      ensures index == old(index)[node.key := node]
    {
      hide Filed;
      ghost var places := PlacesNow();
      PushToBucket(node, node.freq, places);
      ValuesAdd(index, node.key, node);
      index := index[node.key := node];
      PlacesAre(places[node := Place(node.freq, node.freqIndex)]);
      ModelIs(old(Model())[node.key := Item(node.freq, node.entry)]);
    }

    /** Removal and expiry: the node leaves its bucket, then the index. */
    method Erase(k: Key)
      requires Valid() && k in index
      modifies this, index.Values
      ensures Valid() && Model() == old(Model()) - {k} && index == old(index) - {k}
    {
      hide Filed;
      ghost var places := PlacesNow();
      var node := index[k];
      Entries(k);
      RemoveFromBucket(node, node.freq, places);
      ghost var b := old(buckets)[node.freq];
      ghost var rest := places[b[|b| - 1] := places[node]] - {node};
      ValuesRemove(index, k);
      index := index - {k};
      PlacesAre(rest);
      ModelIs(old(Model()) - {k});
    }

    /** Go through the buckets from the lowest frequency up to the first node that is alive. */
    method Scan() returns (r: Option<(nat, nat)>)
      ensures r == None ==> forall f :: f in buckets ==> AllMarkers(f)
      ensures r.Some? ==> var (f, i) := r.value;
                && f in buckets && i < |buckets[f]| && !buckets[f][i].entry.stamp.tombstone
                && (forall j :: 0 <= j < i ==> buckets[f][j].entry.stamp.tombstone)
                && (forall g :: g in buckets && g < f ==> AllMarkers(g))
    {
      var left := buckets.Keys;
      while left != {}
        invariant left <= buckets.Keys
        invariant forall f :: f in buckets && f !in left ==> AllMarkers(f) && Below(f, left)
        decreases left
      {
        LeastExists(left);
        var f :| f in left && IsLeast(left, f);
        var i := FirstAlive(buckets[f]);
        if i < |buckets[f]| { return Some((f, i)); }
        left := left - {f};
      }
      r := None;
    }

    method FindVictim() returns (r: Option<LfuNode>)
      requires Valid()
      ensures r == None ==> forall k :: k in Model() ==> !Alive(Model(), k)
      ensures r.Some? ==> r.value.key in index && index[r.value.key] == r.value && LeastUsed(Model(), r.value.key)
    {
      hide Valid, Model, AllMarkers, LeastUsed;
      var at := Scan();
      if at == None {
        NoneAlive();
        return None;
      }
      var (f, i) := at.value;
      VictimIsLeast(f, i);
      r := Some(buckets[f][i]);
    }

    /** Bucket `f` holds nothing but delete markers. */
    ghost predicate AllMarkers(f: nat)
      reads this`buckets, if f in buckets then buckets[f] else []
    {
      f in buckets ==> forall i :: 0 <= i < |buckets[f]| ==> buckets[f][i].entry.stamp.tombstone
    }

    lemma AliveNeedsBucket(k: Key)
      requires Valid() && Alive(Model(), k)
      ensures Model()[k].freq in buckets && !AllMarkers(Model()[k].freq)
    {
      var n := index[k];
      assert IsAt(buckets, n, PlacesNow()[n]);
    }

    lemma NoneAlive()
      requires Valid() && forall f :: f in buckets ==> AllMarkers(f)
      ensures forall k :: k in Model() ==> !Alive(Model(), k)
    {
      forall k | k in Model() ensures !Alive(Model(), k) {
        if Alive(Model(), k) { AliveNeedsBucket(k); }
      }
    }

    lemma VictimIsLeast(f: nat, i: nat)
      requires Valid() && f in buckets && i < |buckets[f]| && !buckets[f][i].entry.stamp.tombstone
      requires forall g :: g in buckets && g < f ==> AllMarkers(g)
      ensures buckets[f][i].key in index && index[buckets[f][i].key] == buckets[f][i]
      ensures LeastUsed(Model(), buckets[f][i].key)
    {
      var n := buckets[f][i];
      assert BucketOk(buckets, PlacesNow(), f);
      var k :| k in index && index[k] == n;
      forall j | Alive(Model(), j) ensures Model()[n.key].freq <= Model()[j].freq {
        AliveNeedsBucket(j);
      }
    }

    /** Evict one entry for capacity, or nothing when only delete markers remain; returns the bytes freed. */
    method EvictOne() returns (freed: nat, ghost victim: Option<Key>)
      requires Valid()
      modifies this, index.Values
      ensures Valid()
      ensures match victim
              case None => Model() == old(Model()) && freed == 0 && forall k :: k in Model() ==> !Alive(Model(), k)
              case Some(k) => LeastUsed(old(Model()), k) && Model() == old(Model()) - {k}
                              && freed == |k| + |old(Model())[k].entry.value| + 136
    {
      hide Filed;
      var node := FindVictim();
      if node == None { return 0, None; }
      var k := node.value.key;
      freed := |k| + |node.value.entry.value| + NODE_SIZE;
      victim := Some(k);
      Erase(k);
    }
  }

  method FirstAlive(b: seq<LfuNode>) returns (i: nat)
    ensures i <= |b| && (forall j :: 0 <= j < i ==> b[j].entry.stamp.tombstone)
    ensures i < |b| ==> !b[i].entry.stamp.tombstone
  {
    i := 0;
    while i < |b|
      invariant i <= |b| && forall j :: 0 <= j < i ==> b[j].entry.stamp.tombstone
    {
      if !b[i].entry.stamp.tombstone { return; }
      i := i + 1;
    }
  }

  ghost predicate Below(f: nat, s: set<nat>) {
    forall g :: g in s ==> f < g
  }

  predicate IsLeast(s: set<nat>, f: nat) {
    f in s && forall g :: g in s ==> f <= g
  }

  lemma {:induction false} LeastExists(s: set<nat>)
    requires s != {}
    ensures exists f :: f in s && IsLeast(s, f)
  {
    var x :| x in s;
    if s == {x} {
      assert IsLeast(s, x);
    } else {
      LeastExists(s - {x});
      var f :| f in s - {x} && IsLeast(s - {x}, f);
      var least := if f <= x then f else x;
      forall g | g in s ensures least <= g {
        assert g == x || g in s - {x};
      }
      assert IsLeast(s, least);
    }
  }

  lemma ValuesAdd(m: map<Key, LfuNode>, k: Key, n: LfuNode)
    requires k !in m
    ensures m[k := n].Values == m.Values + {n}
  {
    var w := m[k := n];
    forall x | x in m.Values + {n} ensures x in w.Values {
      if x in m.Values {
        var j :| j in m && m[j] == x;
        assert w[j] == x;
      } else {
        assert w[k] == x;
      }
    }
  }

  lemma ValuesRemove(m: map<Key, LfuNode>, k: Key)
    requires k in m && forall j :: j in m && j != k ==> m[j] != m[k]
    ensures (m - {k}).Values == m.Values - {m[k]}
  {
    var w := m - {k};
    forall x | x in m.Values - {m[k]} ensures x in w.Values {
      var j :| j in m && m[j] == x;
      assert w[j] == x;
    }
  }
}
