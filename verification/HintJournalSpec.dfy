/**
 The hint journal: every enqueued hint and every successful replay is appended to a file, and recovery runs the same
 operations over an empty queue. What must come back is the queue as it was, hint by hint and in order.
 */
module HintJournalSpec {
  import opened Common
  import opened Lww
  import opened HintQueueSpec
  import Wire

  /** What of a hint reaches the disk; an expiry of zero milliseconds stands for none. */
  datatype Essence = Essence(target: NodeId, key: Key, value: Bytes, version: u64, writer: u64, expiryMs: u64,
                             tombstone: bool)

  function ExpiryMs(at: Option<int>): u64 {
    if at.None? then 0 else Wire.ToMs(at.value)
  }

  function EssenceOf(h: Hint): Essence {
    Essence(h.target, h.req.key, h.req.value, h.req.version, h.req.writer, ExpiryMs(h.req.expiresAt), h.req.tombstone)
  }

  /** The hint recovery makes of it, good for another `deadline`. */
  function Revived(e: Essence, deadline: int): Hint {
    Hint(e.target,
         Request(REPLICATE, 0, 0, e.key, e.value, e.version, e.writer, None,
                 if e.expiryMs == 0 then None else Some(e.expiryMs * Wire.NS_PER_MS), e.tombstone),
         deadline)
  }

  lemma RevivedIsSame(e: Essence, deadline: int)
    ensures EssenceOf(Revived(e, deadline)) == e
  {
  }

  datatype Record = Add(hint: Essence, sysExpiryMs: u64) | Del(target: NodeId, key: Key, version: u64)

  /** Recovery: intents go through the same push, completions remove by version; expired intents are skipped. */
  function Apply(q: Queue, r: Record, nowMs: nat, deadline: int, handle: Handle): Queue {
    match r
    case Add(e, expiry) => if expiry > nowMs then Push(q, Revived(e, deadline), handle) else q
    case Del(target, key, version) => RemoveVersion(q, target, key, version)
  }

  function Replay(rs: seq<Record>, maxBytes: nat, nowMs: nat, deadline: int): Queue {
    if rs == [] then Queue([], map[], maxBytes, 0)
    else Apply(Replay(rs[..|rs| - 1], maxBytes, nowMs, deadline), rs[|rs| - 1], nowMs, deadline, Handle(|rs|, 0))
  }

  // ---------------------------------------------------------------- queues that hold the same hints

  ghost predicate SameHints(a: seq<Live>, b: seq<Live>) {
    |a| == |b| && forall i :: 0 <= i < |a| ==> EssenceOf(a[i].hint) == EssenceOf(b[i].hint)
  }

  ghost predicate Similar(a: Queue, b: Queue) {
    a.maxBytes == b.maxBytes && SameHints(a.live, b.live)
  }

  lemma {:induction false} SameBytes(a: seq<Live>, b: seq<Live>)
    requires SameHints(a, b)
    ensures TotalBytes(a) == TotalBytes(b)
  {
    if a == [] {
    } else {
      assert EssenceOf(a[0].hint) == EssenceOf(b[0].hint);
      SameBytes(a[1..], b[1..]);
    }
  }

  lemma SameFind(a: seq<Live>, b: seq<Live>, target: NodeId, key: Key)
    requires SameHints(a, b)
    ensures Find(a, target, key) == Find(b, target, key)
  {
    var i, j := Find(a, target, key), Find(b, target, key);
    assert i < |a| ==> EssenceOf(a[i].hint) == EssenceOf(b[i].hint);
    assert j < |b| ==> EssenceOf(a[j].hint) == EssenceOf(b[j].hint);
  }

  lemma SameFindVersion(a: seq<Live>, b: seq<Live>, target: NodeId, key: Key, version: nat)
    requires SameHints(a, b)
    ensures FindVersion(a, target, key, version) == FindVersion(b, target, key, version)
  {
    var i, j := FindVersion(a, target, key, version), FindVersion(b, target, key, version);
    assert i < |a| ==> EssenceOf(a[i].hint) == EssenceOf(b[i].hint);
    assert j < |b| ==> EssenceOf(a[j].hint) == EssenceOf(b[j].hint);
  }

  lemma SameDropCount(a: seq<Live>, b: seq<Live>, incoming: nat, maxBytes: nat)
    requires SameHints(a, b) && incoming <= maxBytes
    ensures DropCount(a, incoming, maxBytes) == DropCount(b, incoming, maxBytes)
  {
    var d, e := DropCount(a, incoming, maxBytes), DropCount(b, incoming, maxBytes);
    var m := if d <= e then d else e;
    SameBytes(a[m..], b[m..]);
    assert Fits(a[m..], incoming, maxBytes) == Fits(b[m..], incoming, maxBytes);
  }

  lemma SameRemoveAt(a: seq<Live>, b: seq<Live>, k: nat)
    requires SameHints(a, b) && k < |a|
    ensures SameHints(RemoveAt(a, k), RemoveAt(b, k))
  {
  }

  lemma SameCoalesced(a: seq<Live>, b: seq<Live>, g: Hint, h: Hint)
    requires SameHints(a, b) && EssenceOf(g) == EssenceOf(h)
    ensures SameHints(Coalesced(a, g), Coalesced(b, h))
  {
    SameFind(a, b, g.target, g.req.key);
    var k := Find(a, g.target, g.req.key);
    if k < |a| { SameRemoveAt(a, b, k); }
  }

  lemma SameJudge(a: Queue, b: Queue, g: Hint, h: Hint)
    requires Similar(a, b) && EssenceOf(g) == EssenceOf(h)
    ensures Judge(a, g) == Judge(b, h) && EstimatedBytes(g) == EstimatedBytes(h)
  {
    SameFind(a.live, b.live, g.target, g.req.key);
    var k := Find(a.live, g.target, g.req.key);
    assert k < |a.live| ==> EssenceOf(a.live[k].hint) == EssenceOf(b.live[k].hint);
  }

  /** Queues that hold the same hints do so after pushing the same hint, whatever handles they use. */
  lemma SimilarPush(a: Queue, b: Queue, g: Hint, h: Hint, x: Handle, y: Handle)
    requires Similar(a, b) && EssenceOf(g) == EssenceOf(h)
    ensures Similar(Push(a, g, x), Push(b, h, y))
  {
    SameJudge(a, b, g, h);
    if Judge(a, g) == Accepted {
      var r, s := Coalesced(a.live, g), Coalesced(b.live, h);
      SameCoalesced(a.live, b.live, g, h);
      SameDropCount(r, s, EstimatedBytes(g), a.maxBytes);
    }
  }

  lemma SimilarRemoveVersion(a: Queue, b: Queue, target: NodeId, key: Key, version: nat)
    requires Similar(a, b)
    ensures Similar(RemoveVersion(a, target, key, version), RemoveVersion(b, target, key, version))
  {
    SameFindVersion(a.live, b.live, target, key, version);
    var k := FindVersion(a.live, target, key, version);
    if k < |a.live| { SameRemoveAt(a.live, b.live, k); }
  }

  lemma SimilarApply(a: Queue, b: Queue, r: Record, nowMs: nat, deadline: int, other: int, x: Handle, y: Handle)
    requires Similar(a, b)
    ensures Similar(Apply(a, r, nowMs, deadline, x), Apply(b, r, nowMs, other, y))
  {
    match r
    case Add(e, expiry) =>
      RevivedIsSame(e, deadline);
      RevivedIsSame(e, other);
      SimilarPush(a, b, Revived(e, deadline), Revived(e, other), x, y);
    case Del(target, key, version) => SimilarRemoveVersion(a, b, target, key, version);
  }

  // ---------------------------------------------------------------- runs

  /** The queue and what the journal says so far. */
  datatype Journaled = Journaled(queue: Queue, records: seq<Record>)

  datatype JournalOp =
    | Enqueue(hint: Hint, handle: Handle, sysExpiryMs: u64)
    | Complete(handle: Handle) // a replayed hint was delivered; its handle may be stale by now

  /** Handles are never reused, and writes for one target and key have distinct versions. */
  ghost predicate Allowed(s: Journaled, op: JournalOp) {
    match op
    case Enqueue(h, handle, _) =>
      handle !in s.queue.issued
      && forall g :: g in s.queue.issued && Names(s.queue.issued[g], h.target, h.req.key)
                     ==> s.queue.issued[g].req.version != h.req.version
    case Complete(handle) => handle in s.queue.issued
  }

  function Do(s: Journaled, op: JournalOp): Journaled
    requires op.Complete? ==> op.handle in s.queue.issued
  {
    match op
    case Enqueue(h, handle, expiry) =>
      Journaled(Push(s.queue, h, handle), s.records + [Add(EssenceOf(h), expiry)])
    case Complete(handle) =>
      var h := s.queue.issued[handle];
      Journaled(Remove(s.queue, handle), s.records + [Del(h.target, h.req.key, h.req.version)])
  }

  ghost predicate AllowedRun(s: Journaled, ops: seq<JournalOp>)
    decreases |ops|
  {
    ops == [] || (Allowed(s, ops[0]) && AllowedRun(Do(s, ops[0]), ops[1..]))
  }

  function DoAll(s: Journaled, ops: seq<JournalOp>): Journaled
    requires AllowedRun(s, ops)
    decreases |ops|
  {
    if ops == [] then s else DoAll(Do(s, ops[0]), ops[1..])
  }

  /** Some queued hint other than the one completed looks the same to a removal by version. */
  ghost predicate Mistakable(q: Queue, handle: Handle)
    requires handle in q.issued
  {
    var h := q.issued[handle];
    exists i :: 0 <= i < |q.live| && q.live[i].handle != handle
                && Names(q.live[i].hint, h.target, h.req.key) && q.live[i].hint.req.version == h.req.version
  }

  /** Removal by version does what the queue's removal by handle did, exactly when it cannot be mistaken. */
  lemma CompletionAgreesIff(q: Queue, handle: Handle)
    requires WellFormed(q) && handle in q.issued
    ensures var h := q.issued[handle];
            SameHints(Remove(q, handle).live, RemoveVersion(q, h.target, h.req.key, h.req.version).live)
            <==> !Mistakable(q, handle)
  {
    var h := q.issued[handle];
    var i, j := IndexOf(q.live, handle), FindVersion(q.live, h.target, h.req.key, h.req.version);
    if i < |q.live| {
      assert Names(q.live[i].hint, h.target, h.req.key);
      assert i == j;
      EssencesRefl(RemoveAt(q.live, i));
    } else if j < |q.live| {
      assert Mistakable(q, handle);
    } else {
      EssencesRefl(q.live);
    }
  }

  lemma EssencesRefl(live: seq<Live>)
    ensures SameHints(live, live)
  {
  }

  lemma SimilarTrans(a: Queue, b: Queue, c: Queue)
    requires Similar(a, b) && Similar(b, c)
    ensures Similar(a, c)
  {
    forall i | 0 <= i < |a.live| ensures EssenceOf(a.live[i].hint) == EssenceOf(c.live[i].hint) {
      assert EssenceOf(a.live[i].hint) == EssenceOf(b.live[i].hint);
    }
  }

  ghost predicate DistinctVersions(issued: map<Handle, Hint>) {
    forall a, b :: a in issued && b in issued && a != b && Names(issued[a], issued[b].target, issued[b].req.key)
                   ==> issued[a].req.version != issued[b].req.version
  }

  ghost predicate Unexpired(rs: seq<Record>, nowMs: nat) {
    forall i :: 0 <= i < |rs| && rs[i].Add? ==> rs[i].sysExpiryMs > nowMs
  }

  /** Replaying the journal now would rebuild the queue. */
  ghost predicate Faithful(s: Journaled, nowMs: nat, deadline: int) {
    WellFormed(s.queue) && DistinctVersions(s.queue.issued)
    && Similar(s.queue, Replay(s.records, s.queue.maxBytes, nowMs, deadline))
  }

  lemma ReplaySnoc(rs: seq<Record>, r: Record, maxBytes: nat, nowMs: nat, deadline: int)
    ensures Replay(rs + [r], maxBytes, nowMs, deadline)
         == Apply(Replay(rs, maxBytes, nowMs, deadline), r, nowMs, deadline, Handle(|rs| + 1, 0))
  {
    assert (rs + [r])[..|rs|] == rs;
  }

  lemma EnqueueKeepsFaithful(s: Journaled, h: Hint, handle: Handle, expiry: u64, nowMs: nat, deadline: int)
    requires Faithful(s, nowMs, deadline) && Allowed(s, Enqueue(h, handle, expiry)) && expiry > nowMs
    ensures Faithful(Do(s, Enqueue(h, handle, expiry)), nowMs, deadline)
  {
    hide Push, Similar, WellFormed, Replay, DistinctVersions, Revived, EssenceOf;
    var r := Add(EssenceOf(h), expiry);
    var back := Replay(s.records, s.queue.maxBytes, nowMs, deadline);
    PushKeeps(s.queue, h, handle);
    PushKeepsDistinct(s, h, handle, expiry);
    PushIssues(s.queue, h, handle);
    ReplaySnoc(s.records, r, s.queue.maxBytes, nowMs, deadline);
    RevivedIsSame(EssenceOf(h), deadline);
    SimilarPush(s.queue, back, h, Revived(EssenceOf(h), deadline), handle, Handle(|s.records| + 1, 0));
  }

  lemma PushKeepsDistinct(s: Journaled, h: Hint, handle: Handle, expiry: u64)
    requires DistinctVersions(s.queue.issued) && Allowed(s, Enqueue(h, handle, expiry))
    ensures DistinctVersions(Push(s.queue, h, handle).issued)
  {
    PushIssues(s.queue, h, handle);
    hide Push;
  }

  lemma PushIssues(q: Queue, h: Hint, handle: Handle)
    ensures Push(q, h, handle).maxBytes == q.maxBytes
    ensures Push(q, h, handle).issued == q.issued || Push(q, h, handle).issued == q.issued[handle := h]
  {
  }

  lemma CompleteKeepsFaithful(s: Journaled, handle: Handle, nowMs: nat, deadline: int)
    requires Faithful(s, nowMs, deadline) && handle in s.queue.issued
    ensures Faithful(Do(s, Complete(handle)), nowMs, deadline)
  {
    var h := s.queue.issued[handle];
    var back := Replay(s.records, s.queue.maxBytes, nowMs, deadline);
    StepKeeps(s.queue, RemoveOp(handle));
    CompletionAgreesIff(s.queue, handle);
    assert !Mistakable(s.queue, handle);
    ReplaySnoc(s.records, Del(h.target, h.req.key, h.req.version), s.queue.maxBytes, nowMs, deadline);
    hide SameHints, Coherent, Replay;
    SimilarRemoveVersion(s.queue, back, h.target, h.req.key, h.req.version);
    SimilarTrans(Remove(s.queue, handle), RemoveVersion(s.queue, h.target, h.req.key, h.req.version),
                 RemoveVersion(back, h.target, h.req.key, h.req.version));
  }

  lemma {:induction false} RecordsGrow(s: Journaled, ops: seq<JournalOp>)
    requires AllowedRun(s, ops)
    ensures s.records <= DoAll(s, ops).records
    decreases |ops|
  {
    if ops == [] {
    } else {
      RecordsGrow(Do(s, ops[0]), ops[1..]);
      assert s.records <= Do(s, ops[0]).records;
    }
  }

  lemma {:induction false} RunsKeepFaithful(s: Journaled, ops: seq<JournalOp>, nowMs: nat, deadline: int)
    requires Faithful(s, nowMs, deadline) && AllowedRun(s, ops) && Unexpired(DoAll(s, ops).records, nowMs)
    ensures Faithful(DoAll(s, ops), nowMs, deadline)
    decreases |ops|
  {
    if ops == [] {
    } else {
      var t := Do(s, ops[0]);
      RecordsGrow(t, ops[1..]);
      hide Faithful;
      match ops[0] {
        case Enqueue(h, handle, expiry) =>
          assert t.records[|s.records|] == DoAll(s, ops).records[|s.records|];
          EnqueueKeepsFaithful(s, h, handle, expiry, nowMs, deadline);
        case Complete(handle) =>
          CompleteKeepsFaithful(s, handle, nowMs, deadline);
      }
      RunsKeepFaithful(t, ops[1..], nowMs, deadline);
    }
  }

  /**
   After any run of enqueues (with their coalescing, refusals and evictions) and of completions through live or
   stale handles, replaying the journal rebuilds the live queue hint by hint, oldest first.
   */
  lemma JournalRebuildsQueue(maxBytes: nat, ops: seq<JournalOp>, nowMs: nat, deadline: int)
    requires AllowedRun(Journaled(Queue([], map[], maxBytes, 0), []), ops)
    requires Unexpired(DoAll(Journaled(Queue([], map[], maxBytes, 0), []), ops).records, nowMs)
    ensures var s := DoAll(Journaled(Queue([], map[], maxBytes, 0), []), ops);
            var back := Replay(s.records, s.queue.maxBytes, nowMs, deadline);
            && SameHints(s.queue.live, back.live)
            && forall i :: 0 <= i < |s.queue.live| ==> SameWrite(s.queue.live[i].hint, back.live[i].hint)
  {
    var start := Journaled(Queue([], map[], maxBytes, 0), []);
    assert Faithful(start, nowMs, deadline);
    RunsKeepFaithful(start, ops, nowMs, deadline);
    var s := DoAll(start, ops);
    var back := Replay(s.records, s.queue.maxBytes, nowMs, deadline);
    hide Replay, DoAll, EssenceOf, SameWrite;
    forall i | 0 <= i < |s.queue.live| ensures SameWrite(s.queue.live[i].hint, back.live[i].hint) {
      SameInFields(s.queue.live[i].hint, back.live[i].hint);
    }
  }

  /** Everything of the write that a replica stores, its deadline to the millisecond. */
  ghost predicate SameWrite(g: Hint, h: Hint) {
    && g.target == h.target && g.req.key == h.req.key && g.req.value == h.req.value
    && g.req.version == h.req.version && g.req.writer == h.req.writer && g.req.tombstone == h.req.tombstone
    && ExpiryMs(g.req.expiresAt) == ExpiryMs(h.req.expiresAt)
  }

  lemma SameInFields(g: Hint, h: Hint)
    ensures EssenceOf(g) == EssenceOf(h) <==> SameWrite(g, h)
  {
  }

  // ---------------------------------------------------------------- expired intents

  /** The records without the intents whose time has passed. */
  function Current(rs: seq<Record>, nowMs: nat): seq<Record> {
    if rs == [] then []
    else
      var r := rs[|rs| - 1];
      Current(rs[..|rs| - 1], nowMs) + if r.Add? && r.sysExpiryMs <= nowMs then [] else [r]
  }

  /** A journal with expired intents recovers to what it would without them. */
  lemma {:induction false} ExpiredAreSkipped(rs: seq<Record>, maxBytes: nat, nowMs: nat, deadline: int)
    ensures Similar(Replay(rs, maxBytes, nowMs, deadline), Replay(Current(rs, nowMs), maxBytes, nowMs, deadline))
  {
    if rs == [] {
    } else {
      hide Push, RemoveVersion, Similar;
      var init, r := rs[..|rs| - 1], rs[|rs| - 1];
      ExpiredAreSkipped(init, maxBytes, nowMs, deadline);
      var a, b := Replay(init, maxBytes, nowMs, deadline), Replay(Current(init, nowMs), maxBytes, nowMs, deadline);
      if r.Add? && r.sysExpiryMs <= nowMs {
        assert Current(rs, nowMs) == Current(init, nowMs);
      } else {
        ReplaySnoc(Current(init, nowMs), r, maxBytes, nowMs, deadline);
        SimilarApply(a, b, r, nowMs, deadline, deadline, Handle(|rs|, 0), Handle(|Current(init, nowMs)| + 1, 0));
      }
    }
  }

  /** An intent that has not expired stands behind the hint. */
  ghost predicate Intended(rs: seq<Record>, nowMs: nat, h: Hint) {
    exists r :: r in rs && r.Add? && r.sysExpiryMs > nowMs && r.hint == EssenceOf(h)
  }

  /** Nothing comes back but what an unexpired intent names, with the new deadline. */
  lemma {:induction false} OnlyIntendedComesBack(rs: seq<Record>, maxBytes: nat, nowMs: nat, deadline: int, e: Live)
    requires e in Replay(rs, maxBytes, nowMs, deadline).live
    ensures Intended(rs, nowMs, e.hint) && e.hint.expiresAt == deadline
  {
    var init, r := rs[..|rs| - 1], rs[|rs| - 1];
    var before := Replay(init, maxBytes, nowMs, deadline);
    if e in before.live {
      OnlyIntendedComesBack(init, maxBytes, nowMs, deadline, e);
    } else {
      AppliedAdds(before, r, nowMs, deadline, Handle(|rs|, 0), e);
      assert r in rs;
    }
  }

  lemma AppliedAdds(q: Queue, r: Record, nowMs: nat, deadline: int, handle: Handle, e: Live)
    requires e in Apply(q, r, nowMs, deadline, handle).live && e !in q.live
    ensures r.Add? && r.sysExpiryMs > nowMs && r.hint == EssenceOf(e.hint) && e.hint.expiresAt == deadline
  {
    hide DropCount, Judge, EssenceOf;
    if r.Add? { RevivedIsSame(r.hint, deadline); }
  }
}
