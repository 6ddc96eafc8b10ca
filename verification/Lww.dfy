/**
 Last-writer-wins order on stamps, and the store as a map whose apply is a join in that order.
 Every convergence path (store apply, read reduction, hint coalescing) shares this order.
 */
module Lww {
  import opened Common

  datatype Stamp = Stamp(version: nat, writer: nat, tombstone: bool)

  datatype Order = Less | Equal | Greater

  function Compare(a: Stamp, b: Stamp): Order {
    if a.version != b.version then
      if a.version < b.version then Less else Greater
    else if a.writer != b.writer then
      if a.writer < b.writer then Less else Greater
    else if a.tombstone != b.tombstone then
      if a.tombstone then Greater else Less
    else
      Equal
  }

  predicate WinsOver(incoming: Stamp, resident: Stamp) {
    Compare(incoming, resident) == Greater
  }

  predicate Covers(incoming: Stamp, resident: Stamp) {
    Compare(incoming, resident) != Less
  }

  lemma CompareIsTotalOrder(a: Stamp, b: Stamp, c: Stamp)
    ensures Compare(a, b) == Equal <==> a == b
    ensures Compare(a, b) == Less <==> Compare(b, a) == Greater
    ensures Covers(a, b) && Covers(b, c) ==> Covers(a, c)
    ensures Covers(a, b) && Covers(b, a) ==> a == b
    ensures WinsOver(a, b) <==> !Covers(b, a)
  {
  }

  /** Versions decide, then writers, and at one version and writer a delete marker beats a value. */
  ghost predicate AsNew(a: Stamp, b: Stamp) {
    && a.version >= b.version
    && (a.version == b.version ==> a.writer >= b.writer)
    && (a.version == b.version && a.writer == b.writer && b.tombstone ==> a.tombstone)
  }

  lemma CoversInFields(a: Stamp, b: Stamp)
    ensures Covers(a, b) <==> AsNew(a, b)
    ensures Covers(a, b) ==> a.version >= b.version
    ensures a.version > b.version ==> WinsOver(a, b)
    ensures a.version == b.version && a.writer > b.writer ==> WinsOver(a, b)
    ensures a.version == b.version && a.writer == b.writer && a.tombstone && !b.tombstone ==> WinsOver(a, b)
  {
  }

  function StampOf(req: Request): Stamp {
    Stamp(req.version, req.writer, req.tombstone)
  }

  /** What a node stores for a key; `expiresAt` is absent when the entry has no deadline. */
  datatype Entry = Entry(stamp: Stamp, value: Bytes, expiresAt: Option<int>)

  type Store = map<Key, Entry>

  /** Versioned apply: a strictly older write is ignored, an equal stamp re-applies. */
  function Put(store: Store, key: Key, entry: Entry): Store {
    if key in store && Compare(entry.stamp, store[key].stamp) == Less then store
    else store[key := entry]
  }

  /** A write is stored unless the entry it meets is later in version, in writer or by its delete marker. */
  lemma PutStoresUnlessOlder(store: Store, key: Key, entry: Entry)
    ensures var late, now := entry.stamp, Put(store, key, entry);
            if key in store && !AsNew(late, store[key].stamp) then now == store
            else && now.Keys == store.Keys + {key} && now[key] == entry
                 && forall k :: k in store && k != key ==> now[k] == store[k]
  {
  }

  /** The store answers for `key` with something at least as new as `stamp`. */
  predicate Holds(store: Store, key: Key, stamp: Stamp) {
    key in store && Covers(store[key].stamp, stamp)
  }

  lemma PutHolds(store: Store, key: Key, entry: Entry, k: Key, s: Stamp)
    ensures Holds(Put(store, key, entry), key, entry.stamp)
    ensures Holds(store, k, s) ==> Holds(Put(store, key, entry), k, s)
  {
  }

  datatype Write = Write(key: Key, entry: Entry)

  /** The writes applied in order. */
  function PutAll(store: Store, ws: seq<Write>): Store {
    if ws == [] then store
    else
      var w := ws[|ws| - 1];
      Put(PutAll(store, ws[..|ws| - 1]), w.key, w.entry)
  }

  /** `e` is one of the entries offered for `key`, initially or by a write. */
  ghost predicate Offered(store: Store, ws: seq<Write>, key: Key, e: Entry) {
    (key in store && store[key] == e) || Write(key, e) in ws
  }

  /** Whatever the order of arrival, the store ends with a maximal offered entry, and only then has one. */
  lemma {:induction false} PutAllIsMaximum(store: Store, ws: seq<Write>, key: Key)
    ensures key in PutAll(store, ws) ==> Offered(store, ws, key, PutAll(store, ws)[key])
    ensures forall e :: Offered(store, ws, key, e) ==> Holds(PutAll(store, ws), key, e.stamp)
  {
    if ws == [] {
    } else {
      var init, w := ws[..|ws| - 1], ws[|ws| - 1];
      assert ws == init + [w];
      PutAllIsMaximum(store, init, key);
      forall e | Offered(store, ws, key, e) ensures Holds(PutAll(store, ws), key, e.stamp) {
        assert Offered(store, init, key, e) || Write(key, e) == w;
      }
    }
  }

  /**
   Last writer wins, in the stamp's own fields: of everything offered for a key the store keeps an entry of the highest
   version, among those one of the highest writer, and a delete marker rather than a value among those.
   */
  lemma LastWriterWins(store: Store, ws: seq<Write>, key: Key, e: Entry)
    requires Offered(store, ws, key, e)
    ensures var after := PutAll(store, ws);
            && key in after && Offered(store, ws, key, after[key])
            && after[key].stamp.version >= e.stamp.version
            && (after[key].stamp.version == e.stamp.version ==> after[key].stamp.writer >= e.stamp.writer)
            && (after[key].stamp.version == e.stamp.version && after[key].stamp.writer == e.stamp.writer ==>
                  !e.stamp.tombstone || after[key].stamp.tombstone)
  {
    PutAllIsMaximum(store, ws, key);
    CoversInFields(PutAll(store, ws)[key].stamp, e.stamp);
  }

  /** Two entries offered for one key under one stamp are the same entry. */
  ghost predicate StampDeterminesEntry(store: Store, ws: seq<Write>) {
    forall key, e, f :: Offered(store, ws, key, e) && Offered(store, ws, key, f) && e.stamp == f.stamp ==> e == f
  }

  /** Two replicas that received the same writes, in any order and any number of times, agree. */
  lemma Convergence(store: Store, ws: seq<Write>, vs: seq<Write>)
    requires forall w :: w in ws <==> w in vs
    requires StampDeterminesEntry(store, ws)
    ensures PutAll(store, ws) == PutAll(store, vs)
  {
    var a, b := PutAll(store, ws), PutAll(store, vs);
    forall key ensures key in a <==> key in b
               ensures key in a && key in b ==> a[key] == b[key]
    {
      PutAllIsMaximum(store, ws, key);
      PutAllIsMaximum(store, vs, key);
      if key in a { assert Offered(store, vs, key, a[key]); }
      if key in b { assert Offered(store, ws, key, b[key]); }
    }
  }

  /**
   The exact limit of commutativity: two writes to a key commute unless they carry one stamp,
   differ, and nothing newer is already stored.
   */
  lemma PutCommutesIff(store: Store, key: Key, a: Entry, b: Entry)
    ensures Put(Put(store, key, a), key, b) == Put(Put(store, key, b), key, a)
       <==> a == b || a.stamp != b.stamp || (key in store && WinsOver(store[key].stamp, a.stamp))
  {
    var ab, ba := Put(Put(store, key, a), key, b), Put(Put(store, key, b), key, a);
    assert key in ab && key in ba;
    if a == b || a.stamp != b.stamp || (key in store && WinsOver(store[key].stamp, a.stamp)) {
      assert ab == ba;
    } else {
      assert ab[key] == b && ba[key] == a;
    }
  }
}
