/**
 The hint queue as a value: a bounded sequence of hints for unreachable replicas, one per
 (target, key), oldest dropped first. Each live hint carries the handle it was issued under;
 `issued` remembers every handle ever given out and the hint it named.
 */
module HintQueueSpec {
  import opened Common
  import opened Lww

  const CAPACITY: nat := 1024
  const DEFAULT_MAX_BYTES: nat := 67_108_864
  // Size of the hint record itself (three strings' inline parts and the fixed fields).
  const HINT_SIZE: nat := 184

  datatype Hint = Hint(target: NodeId, req: Request, expiresAt: int)

  datatype Handle = Handle(index: nat, generation: nat)

  datatype Live = Live(handle: Handle, hint: Hint)

  datatype Queue = Queue(live: seq<Live>, issued: map<Handle, Hint>, maxBytes: nat, dropped: nat)

  function EstimatedBytes(h: Hint): nat {
    HINT_SIZE + |h.target| + |h.req.key| + |h.req.value|
  }

  function TotalBytes(live: seq<Live>): nat {
    if live == [] then 0 else EstimatedBytes(live[0].hint) + TotalBytes(live[1..])
  }

  predicate Names(h: Hint, target: NodeId, key: Key) {
    h.target == target && h.req.key == key
  }

  /** Nothing is queued for (target, key). */
  predicate Absent(live: seq<Live>, target: NodeId, key: Key) {
    forall i :: 0 <= i < |live| ==> !Names(live[i].hint, target, key)
  }

  /** One live hint per (target, key), distinct handles, each still naming the hint it was issued for. */
  ghost predicate Coherent(live: seq<Live>, issued: map<Handle, Hint>) {
    && |live| <= CAPACITY
    && (forall i :: 0 <= i < |live| ==> live[i].handle in issued && issued[live[i].handle] == live[i].hint)
    && (forall i, j :: 0 <= i < j < |live| ==> live[i].handle != live[j].handle)
    && (forall i, j :: 0 <= i < j < |live| ==> !Names(live[j].hint, live[i].hint.target, live[i].hint.req.key))
  }

  ghost predicate WellFormed(q: Queue) {
    Coherent(q.live, q.issued)
  }

  /** Position of the live hint for (target, key), or the length when there is none. */
  function Find(live: seq<Live>, target: NodeId, key: Key): (k: nat)
    ensures k <= |live|
    ensures k < |live| ==> Names(live[k].hint, target, key)
    ensures forall i :: 0 <= i < k ==> !Names(live[i].hint, target, key)
  {
    if live == [] || Names(live[0].hint, target, key) then 0 else 1 + Find(live[1..], target, key)
  }

  /** There is room for `incoming` more bytes and one more hint. */
  predicate Fits(live: seq<Live>, incoming: nat, maxBytes: nat) {
    |live| != CAPACITY && TotalBytes(live) + incoming <= maxBytes
  }

  /** How many of the oldest hints go: the fewest that leave room. */
  function DropCount(live: seq<Live>, incoming: nat, maxBytes: nat): (d: nat)
    requires incoming <= maxBytes
    ensures d <= |live|
    ensures Fits(live[d..], incoming, maxBytes)
    ensures forall e :: 0 <= e < d ==> !Fits(live[e..], incoming, maxBytes)
  {
    if Fits(live, incoming, maxBytes) then assert live[0..] == live; 0
    else
      var d := DropCount(live[1..], incoming, maxBytes);
      assert live[1..][d..] == live[d + 1..];
      assert forall e :: 0 < e < d + 1 ==> live[e..] == live[1..][e - 1..];
      assert live[0..] == live;
      d + 1
  }

  /** The hints left after coalescing: the one for the same (target, key) is replaced. */
  function Coalesced(live: seq<Live>, h: Hint): (r: seq<Live>) {
    var k := Find(live, h.target, h.req.key);
    if k < |live| then RemoveAt(live, k) else live
  }

  datatype Verdict = TooLarge | Older | Accepted

  /** What a push does: refuse a hint over the whole budget, ignore one older than the queued write, else queue it. */
  function Judge(q: Queue, h: Hint): Verdict {
    if EstimatedBytes(h) > q.maxBytes then TooLarge
    else
      var k := Find(q.live, h.target, h.req.key);
      if k < |q.live| && !Covers(StampOf(h.req), StampOf(q.live[k].hint.req)) then Older else Accepted
  }

  /** Hints the push pushed out, oldest first. */
  function Evicted(q: Queue, h: Hint): (r: seq<Live>)
    requires Judge(q, h) == Accepted
  {
    var rest := Coalesced(q.live, h);
    rest[..DropCount(rest, EstimatedBytes(h), q.maxBytes)]
  }

  function Push(q: Queue, h: Hint, handle: Handle): Queue {
    match Judge(q, h)
    case TooLarge => q.(dropped := q.dropped + 1)
    case Older => q
    case Accepted =>
      var rest := Coalesced(q.live, h);
      var d := DropCount(rest, EstimatedBytes(h), q.maxBytes);
      q.(live := rest[d..] + [Live(handle, h)], issued := q.issued[handle := h], dropped := q.dropped + d)
  }

  /** Walk from the head until `max` hints are collected: expired ones leave the queue, the others are copied. */
  function Scan(live: seq<Live>, now: int, max: nat): (r: (seq<Live>, seq<Live>)) {
    if live == [] || max == 0 then (live, [])
    else if live[0].hint.expiresAt <= now then Scan(live[1..], now, max)
    else
      var (kept, batch) := Scan(live[1..], now, max - 1);
      ([live[0]] + kept, [live[0]] + batch)
  }

  function Snapshot(q: Queue, now: int, max: nat): Queue {
    q.(live := Scan(q.live, now, max).0)
  }

  function IndexOf(live: seq<Live>, handle: Handle): (k: nat)
    ensures k <= |live|
    ensures k < |live| ==> live[k].handle == handle
    ensures forall i :: 0 <= i < k ==> live[i].handle != handle
  {
    if live == [] || live[0].handle == handle then 0 else 1 + IndexOf(live[1..], handle)
  }

  function Remove(q: Queue, handle: Handle): Queue {
    var k := IndexOf(q.live, handle);
    if k < |q.live| then q.(live := RemoveAt(q.live, k)) else q
  }

  /** Removal by (target, key, version), as journal recovery does. */
  function RemoveVersion(q: Queue, target: NodeId, key: Key, version: nat): Queue {
    var k := FindVersion(q.live, target, key, version);
    if k < |q.live| then q.(live := RemoveAt(q.live, k)) else q
  }

  function FindVersion(live: seq<Live>, target: NodeId, key: Key, version: nat): (k: nat)
    ensures k <= |live|
    ensures k < |live| ==> Names(live[k].hint, target, key) && live[k].hint.req.version == version
    ensures forall i :: 0 <= i < k ==> !(Names(live[i].hint, target, key) && live[i].hint.req.version == version)
  {
    if live == [] || (Names(live[0].hint, target, key) && live[0].hint.req.version == version) then 0
    else 1 + FindVersion(live[1..], target, key, version)
  }

  // ---------------------------------------------------------------- what each operation keeps

  lemma {:induction false} TotalBytesConcat(a: seq<Live>, b: seq<Live>)
    ensures TotalBytes(a + b) == TotalBytes(a) + TotalBytes(b)
  {
    if a == [] {
      assert a + b == b;
    } else {
      assert (a + b)[1..] == a[1..] + b;
      TotalBytesConcat(a[1..], b);
    }
  }

  lemma {:induction false} TotalBytesRemoveAt(live: seq<Live>, k: nat)
    requires k < |live|
    ensures TotalBytes(live) == TotalBytes(RemoveAt(live, k)) + EstimatedBytes(live[k].hint)
  {
    if k == 0 {
      assert RemoveAt(live, k) == live[1..];
    } else {
      assert RemoveAt(live, k)[1..] == RemoveAt(live[1..], k - 1);
      TotalBytesRemoveAt(live[1..], k - 1);
    }
  }

  /** The scan keeps order, drops only expired hints, and copies a prefix of what it keeps. */
  lemma {:induction false} ScanKeeps(live: seq<Live>, now: int, max: nat)
    ensures var (kept, batch) := Scan(live, now, max);
            && batch <= kept
            && |batch| <= max
            && (forall e :: e in batch ==> e.hint.expiresAt > now)
            && (forall e :: e in live && e.hint.expiresAt > now ==> e in kept)
            && (forall e :: e in kept ==> e in live)
            && (|batch| < max ==> kept == batch)
  {
    if live == [] || max == 0 {
    } else {
      ScanKeeps(live[1..], now, if live[0].hint.expiresAt <= now then max else max - 1);
    }
  }

  /** Deleting entries at will keeps a queue well formed. */
  lemma SublistKeeps(live: seq<Live>, issued: map<Handle, Hint>, sub: seq<Live>, pos: seq<nat>)
    requires Coherent(live, issued) && |pos| == |sub|
    requires forall i :: 0 <= i < |pos| ==> pos[i] < |live| && sub[i] == live[pos[i]]
    requires forall i, j :: 0 <= i < j < |pos| ==> pos[i] < pos[j]
    ensures Coherent(sub, issued)
  {
    if |pos| > 0 { StrictlyIncreasingBound(pos, |pos| - 1); }
  }

  lemma {:induction false} StrictlyIncreasingBound(pos: seq<nat>, i: nat)
    requires i < |pos|
    requires forall a, b :: 0 <= a < b < |pos| ==> pos[a] < pos[b]
    ensures i <= pos[i]
  {
    if i == 0 {
    } else {
      StrictlyIncreasingBound(pos, i - 1);
    }
  }

  lemma {:induction false} ScanPositions(live: seq<Live>, now: int, max: nat) returns (pos: seq<nat>)
    ensures |pos| == |Scan(live, now, max).0|
    ensures forall i :: 0 <= i < |pos| ==> pos[i] < |live| && Scan(live, now, max).0[i] == live[pos[i]]
    ensures forall i, j :: 0 <= i < j < |pos| ==> pos[i] < pos[j]
  {
    if live == [] || max == 0 {
      pos := seq(|live|, i requires 0 <= i => i);
    } else if live[0].hint.expiresAt <= now {
      var p := ScanPositions(live[1..], now, max);
      pos := seq(|p|, i requires 0 <= i < |p| => p[i] + 1);
    } else {
      var p := ScanPositions(live[1..], now, max - 1);
      pos := [0] + seq(|p|, i requires 0 <= i < |p| => p[i] + 1);
    }
  }

  lemma RemoveAtKeeps(live: seq<Live>, issued: map<Handle, Hint>, k: nat)
    requires Coherent(live, issued) && k < |live|
    ensures Coherent(RemoveAt(live, k), issued)
  {
    SublistKeeps(live, issued, RemoveAt(live, k),
                 seq(|live| - 1, i requires 0 <= i => if i < k then i else i + 1));
  }

  lemma AppendKeeps(live: seq<Live>, issued: map<Handle, Hint>, h: Hint, handle: Handle)
    requires Coherent(live, issued) && handle !in issued && |live| < CAPACITY
    requires Absent(live, h.target, h.req.key)
    ensures Coherent(live + [Live(handle, h)], issued[handle := h])
  {
  }

  lemma CoalescedKeeps(live: seq<Live>, issued: map<Handle, Hint>, h: Hint)
    requires Coherent(live, issued)
    ensures Coherent(Coalesced(live, h), issued)
    ensures Absent(Coalesced(live, h), h.target, h.req.key)
  {
    var k := Find(live, h.target, h.req.key);
    if k < |live| { RemoveAtKeeps(live, issued, k); }
  }

  lemma SuffixKeeps(live: seq<Live>, issued: map<Handle, Hint>, d: nat)
    requires Coherent(live, issued) && d <= |live|
    ensures Coherent(live[d..], issued)
  {
    SublistKeeps(live, issued, live[d..], seq(|live| - d, i requires 0 <= i => i + d));
  }

  lemma CoherentIsBounded(live: seq<Live>, issued: map<Handle, Hint>)
    requires Coherent(live, issued)
    ensures |live| <= CAPACITY
  {
  }

  lemma AbsentLater(live: seq<Live>, target: NodeId, key: Key, d: nat)
    requires Absent(live, target, key) && d <= |live|
    ensures Absent(live[d..], target, key)
  {
  }

  /** A push keeps one hint per (target, key). */
  lemma PushKeeps(q: Queue, h: Hint, handle: Handle)
    requires WellFormed(q) && handle !in q.issued
    ensures WellFormed(Push(q, h, handle))
  {
    hide Coherent, Coalesced, Judge, TotalBytes, EstimatedBytes, Absent;
    if Judge(q, h) == Accepted {
      var rest, d := Coalesced(q.live, h), |Evicted(q, h)|;
      CoalescedKeeps(q.live, q.issued, h);
      CoherentIsBounded(rest, q.issued);
      SuffixKeeps(rest, q.issued, d);
      AbsentLater(rest, h.target, h.req.key, d);
      AppendKeeps(rest[d..], q.issued, h, handle);
    }
  }

  /** An accepted push splits the coalesced queue, its own hint last, into what it drops and what it keeps. */
  lemma PushSplits(q: Queue, h: Hint, handle: Handle)
    requires Judge(q, h) == Accepted
    ensures Evicted(q, h) + Push(q, h, handle).live == Coalesced(q.live, h) + [Live(handle, h)]
  {
    var rest, d := Coalesced(q.live, h), |Evicted(q, h)|;
    assert rest == rest[..d] + rest[d..];
  }

  /** An accepted push leaves both bounds satisfied and counts what it dropped. */
  lemma PushFits(q: Queue, h: Hint, handle: Handle)
    requires |q.live| <= CAPACITY && Judge(q, h) == Accepted
    ensures var r := Push(q, h, handle);
            && TotalBytes(r.live) <= q.maxBytes
            && |r.live| <= CAPACITY
            && r.dropped == q.dropped + |Evicted(q, h)|
  {
    var rest, d := Coalesced(q.live, h), |Evicted(q, h)|;
    TotalBytesConcat(rest[d..], [Live(handle, h)]);
    assert TotalBytes([Live(handle, h)]) == EstimatedBytes(h);
  }

  /** What a queue is charged for: each hint's own record and its three strings. */
  lemma BytesOfOne(e: Live)
    ensures TotalBytes([]) == 0
    ensures TotalBytes([e]) == 184 + |e.hint.target| + |e.hint.req.key| + |e.hint.req.value|
  {
  }

  /** The queued hints for other targets or keys, in order. */
  function Others(live: seq<Live>, h: Hint): seq<Live> {
    if live == [] then []
    else
      var e := live[0];
      (if e.hint.target == h.target && e.hint.req.key == h.req.key then [] else [e]) + Others(live[1..], h)
  }

  lemma {:induction false} OthersAreAll(live: seq<Live>, h: Hint)
    requires Absent(live, h.target, h.req.key)
    ensures Others(live, h) == live
  {
    if live == [] {
    } else {
      assert !Names(live[0].hint, h.target, h.req.key);
      OthersAreAll(live[1..], h);
    }
  }

  lemma {:induction false} OthersWithout(live: seq<Live>, h: Hint, k: nat)
    requires k < |live| && Names(live[k].hint, h.target, h.req.key)
    requires forall i :: 0 <= i < |live| && i != k ==> !Names(live[i].hint, h.target, h.req.key)
    ensures Others(live, h) == RemoveAt(live, k)
  {
    if k == 0 {
      OthersAreAll(live[1..], h);
    } else {
      assert !Names(live[0].hint, h.target, h.req.key);
      OthersWithout(live[1..], h, k - 1);
    }
  }

  lemma CoalescedIsOthers(live: seq<Live>, issued: map<Handle, Hint>, h: Hint)
    requires Coherent(live, issued)
    ensures Coalesced(live, h) == Others(live, h)
  {
    var k := Find(live, h.target, h.req.key);
    if k < |live| { OthersWithout(live, h, k); } else { OthersAreAll(live, h); }
  }

  /** The hint fits the whole budget, and nothing later is queued for its target and key. */
  ghost predicate Welcome(q: Queue, h: Hint) {
    && 184 + |h.target| + |h.req.key| + |h.req.value| <= q.maxBytes
    && forall e :: e in q.live && e.hint.target == h.target && e.hint.req.key == h.req.key ==>
         AsNew(StampOf(h.req), StampOf(e.hint.req))
  }

  lemma AcceptedIffWelcome(q: Queue, h: Hint)
    requires WellFormed(q)
    ensures Judge(q, h) == Accepted <==> Welcome(q, h)
    ensures Judge(q, h) == TooLarge <==> 184 + |h.target| + |h.req.key| + |h.req.value| > q.maxBytes
  {
    var k := Find(q.live, h.target, h.req.key);
    if k < |q.live| {
      CoversInFields(StampOf(h.req), StampOf(q.live[k].hint.req));
      assert q.live[k] in q.live;
      forall e | e in q.live && Names(e.hint, h.target, h.req.key) ensures e == q.live[k] {
        var i :| 0 <= i < |q.live| && q.live[i] == e;
      }
    }
  }

  /**
   A welcome hint is queued last, whatever it takes: of the hints for other targets and keys the oldest go, and no more
   of them than leave room for it. Any other hint leaves the queue as it was, and only one too large counts as dropped.
   */
  lemma PushQueuesWelcome(q: Queue, h: Hint, handle: Handle) returns (d: nat)
    requires WellFormed(q)
    ensures !Welcome(q, h) ==>
              Push(q, h, handle) == q.(dropped := q.dropped + if EstimatedBytes(h) > q.maxBytes then 1 else 0)
    ensures Welcome(q, h) ==>
              var rest := Others(q.live, h);
              && d <= |rest| && Push(q, h, handle).live == rest[d..] + [Live(handle, h)]
              && Push(q, h, handle).dropped == q.dropped + d
              && |rest[d..]| < 1024 && TotalBytes(rest[d..]) + EstimatedBytes(h) <= q.maxBytes
              && forall i :: 0 <= i < d ==>
                   |rest[i..]| >= 1024 || TotalBytes(rest[i..]) + EstimatedBytes(h) > q.maxBytes
  {
    AcceptedIffWelcome(q, h);
    CoalescedIsOthers(q.live, q.issued, h);
    d := 0;
    if Welcome(q, h) {
      var rest := Coalesced(q.live, h);
      d := DropCount(rest, EstimatedBytes(h), q.maxBytes);
      CoalescedKeeps(q.live, q.issued, h);
      hide Coherent, Coalesced, TotalBytes, Welcome, Judge, Others;
      CoherentIsBounded(rest, q.issued);
      assert forall i :: 0 <= i < d ==> !Fits(rest[i..], EstimatedBytes(h), q.maxBytes);
    }
  }

  /** What a snapshot copies and removes: it goes through the oldest hints up to the `max`-th that has not expired. */
  lemma {:induction false} ScanIsPrefix(live: seq<Live>, now: int, max: nat) returns (k: nat)
    ensures k <= |live|
    ensures Scan(live, now, max).1 == NotYetExpired(live[..k], now)
    ensures Scan(live, now, max).0 == NotYetExpired(live[..k], now) + live[k..]
    ensures k < |live| ==> |NotYetExpired(live[..k], now)| == max
  {
    if live == [] || max == 0 {
      k := 0;
      assert live[0..] == live;
    } else {
      var j := ScanIsPrefix(live[1..], now, if live[0].hint.expiresAt <= now then max else max - 1);
      k := j + 1;
      assert live[..k] == [live[0]] + live[1..][..j] && live[..k][1..] == live[1..][..j] && live[k..] == live[1..][j..];
    }
  }

  function NotYetExpired(live: seq<Live>, now: int): seq<Live> {
    if live == [] then []
    else (if live[0].hint.expiresAt > now then [live[0]] else []) + NotYetExpired(live[1..], now)
  }

  lemma SnapshotKeeps(q: Queue, now: int, max: nat)
    requires WellFormed(q)
    ensures WellFormed(Snapshot(q, now, max))
  {
    var pos := ScanPositions(q.live, now, max);
    SublistKeeps(q.live, q.issued, Scan(q.live, now, max).0, pos);
  }

  // ---------------------------------------------------------------- runs

  datatype Op =
    | PushOp(hint: Hint, handle: Handle)
    | SnapshotOp(now: int, max: nat)
    | RemoveOp(handle: Handle)
    | RemoveVersionOp(target: NodeId, key: Key, version: nat)
    | SetMaxBytesOp(maxBytes: nat)

  /** A push may only use a handle never issued before. */
  predicate Enabled(q: Queue, op: Op) {
    op.PushOp? ==> op.handle !in q.issued
  }

  function Step(q: Queue, op: Op): Queue {
    match op
    case PushOp(h, handle) => Push(q, h, handle)
    case SnapshotOp(now, max) => Snapshot(q, now, max)
    case RemoveOp(handle) => Remove(q, handle)
    case RemoveVersionOp(target, key, version) => RemoveVersion(q, target, key, version)
    case SetMaxBytesOp(max) => q.(maxBytes := max)
  }

  ghost predicate EnabledRun(q: Queue, ops: seq<Op>)
    decreases |ops|
  {
    ops == [] || (Enabled(q, ops[0]) && EnabledRun(Step(q, ops[0]), ops[1..]))
  }

  function Run(q: Queue, ops: seq<Op>): Queue
    decreases |ops|
  {
    if ops == [] then q else Run(Step(q, ops[0]), ops[1..])
  }

  lemma StepKeeps(q: Queue, op: Op)
    requires WellFormed(q) && Enabled(q, op)
    ensures WellFormed(Step(q, op))
    ensures forall h :: h in q.issued ==> h in Step(q, op).issued && Step(q, op).issued[h] == q.issued[h]
  {
    match op
    case PushOp(h, handle) => PushKeeps(q, h, handle);
    case SnapshotOp(now, max) => SnapshotKeeps(q, now, max);
    case RemoveOp(handle) =>
      var k := IndexOf(q.live, handle);
      if k < |q.live| { RemoveAtKeeps(q.live, q.issued, k); }
    case RemoveVersionOp(target, key, version) =>
      var k := FindVersion(q.live, target, key, version);
      if k < |q.live| { RemoveAtKeeps(q.live, q.issued, k); }
    case SetMaxBytesOp(max) =>
  }

  /** Over every run, the queue stays well formed and no issued handle ever comes to name another hint. */
  lemma {:induction false} RunKeeps(q: Queue, ops: seq<Op>)
    requires WellFormed(q) && EnabledRun(q, ops)
    ensures WellFormed(Run(q, ops))
    ensures forall h :: h in q.issued ==> h in Run(q, ops).issued && Run(q, ops).issued[h] == q.issued[h]
    decreases |ops|
  {
    if ops == [] {
    } else {
      StepKeeps(q, ops[0]);
      RunKeeps(Step(q, ops[0]), ops[1..]);
    }
  }

  /**
   A hint copied by a snapshot, after any further operations: removing by its handle deletes
   exactly that hint when it is still queued and changes nothing otherwise, so never a
   replacement and never the new owner of a reused slot.
   */
  lemma StaleHandleIsHarmless(q: Queue, now: int, max: nat, e: Live, ops: seq<Op>)
    requires WellFormed(q) && e in Scan(q.live, now, max).1
    requires EnabledRun(Snapshot(q, now, max), ops)
    ensures var later := Run(Snapshot(q, now, max), ops);
            var after := Remove(later, e.handle);
            if e in later.live then
              exists k ::
                0 <= k < |later.live| && later.live[k] == e && after == later.(live := RemoveAt(later.live, k))
            else after == later
  {
    ScanKeeps(q.live, now, max);
    StepKeeps(q, SnapshotOp(now, max));
    var snap := Snapshot(q, now, max);
    assert e in snap.live;
    RunKeeps(snap, ops);
    var later := Run(snap, ops);
    var k := IndexOf(later.live, e.handle);
    if k < |later.live| {
      assert later.live[k].hint == later.issued[e.handle] == snap.issued[e.handle] == e.hint;
      assert later.live[k] == e;
    }
  }
}
