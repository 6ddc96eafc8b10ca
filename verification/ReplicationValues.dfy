/** Where values come from: nodes store, and reads return, only what some write or repair of the run said. */
module ReplicationValues {
  import opened Common
  import opened Lww
  import opened HintQueueSpec
  import opened ReadQuorum
  import opened Replication
  import opened ReplicationRuns
  import R = Replication

  /** The entry is what one of the requests says, value and deadline included. */
  ghost predicate Stored(reqs: set<Request>, key: Key, e: Entry) {
    exists q :: q in reqs && q.key == key && e == Entry(Stamp(q.version, q.writer, q.tombstone), q.value, q.expiresAt)
  }

  ghost predicate AllStored(reqs: set<Request>, key: Key, e: Option<Entry>) {
    e.Some? ==> Stored(reqs, key, e.value)
  }

  /** The stores and what reads have been served. */
  ghost predicate StoresFrom(reqs: set<Request>, s: State) {
    && (forall n, k :: k in StoreAt(s, n) ==> Stored(reqs, k, StoreAt(s, n)[k]))
    && (forall rid, n :: rid in s.readOps && n in s.readOps[rid].served ==>
          AllStored(reqs, s.readOps[rid].key, s.readOps[rid].served[n]))
  }

  ghost predicate QueueFrom(reqs: set<Request>, q: Queue) {
    forall e :: e in q.live ==> e.hint.req in reqs
  }

  /** What is on its way, and what is queued. */
  ghost predicate TrafficFrom(reqs: set<Request>, s: State) {
    && (forall m :: m in s.sent ==> m.req in reqs)
    && (forall id :: id in s.calls ==> s.calls[id].req in reqs)
    && (forall n :: QueueFrom(reqs, QueueAt(s, n)))
  }

  /** The requests a step brings in from outside. */
  function Brought(step: R.Step): set<Request> {
    match step
    case Write(_, _, req, _) => {req}
    case Repair(_, req, _) => {req}
    case _ => {}
  }

  function Requests(steps: seq<R.Step>): set<Request> {
    if steps == [] then {} else Requests(steps[..|steps| - 1]) + Brought(steps[|steps| - 1])
  }

  lemma MoreRequests(reqs: set<Request>, more: set<Request>, s: State)
    requires StoresFrom(reqs, s) && TrafficFrom(reqs, s) && reqs <= more
    ensures StoresFrom(more, s) && TrafficFrom(more, s)
  {
    forall k, e | Stored(reqs, k, e) ensures Stored(more, k, e) {}
    forall n ensures QueueFrom(more, QueueAt(s, n)) { assert QueueFrom(reqs, QueueAt(s, n)); }
    hide Stored, StoreAt, QueueAt;
  }

  lemma ApplyStores(reqs: set<Request>, s: State, node: NodeId, req: Request)
    requires StoresFrom(reqs, s) && req in reqs
    ensures StoresFrom(reqs, Apply(s, node, req))
  {
    var e := EntryOfRequest(req);
    assert Stored(reqs, req.key, e);
    PutIsOneOf(StoreAt(s, node), req.key, e);
    hide Put, Stored, EntryOfRequest;
    var t := Apply(s, node, req);
    forall n, k | k in StoreAt(t, n) ensures Stored(reqs, k, StoreAt(t, n)[k]) {
      if n != node { assert StoreAt(t, n) == StoreAt(s, n); }
    }
  }

  lemma PutIsOneOf(store: Store, key: Key, e: Entry)
    ensures forall k :: k in Put(store, key, e) ==>
              (k == key && Put(store, key, e)[k] == e) || (k in store && Put(store, key, e)[k] == store[k])
  {
  }

  lemma SameStores(reqs: set<Request>, s: State, t: State)
    requires StoresFrom(reqs, s) && t.stores == s.stores && t.readOps == s.readOps
    ensures StoresFrom(reqs, t)
  {
    forall n ensures StoreAt(t, n) == StoreAt(s, n) {}
    hide Stored, StoreAt;
  }

  lemma NextStores(reqs: set<Request>, s: State, step: R.Step)
    requires StoresFrom(reqs, s) && TrafficFrom(reqs, s) && R.Enabled(s, step) && Brought(step) <= reqs
    ensures StoresFrom(reqs, Next(s, step))
  {
    hide StoresFrom, Apply, Push, Remove, Snapshot, Scan, PushLosses, Numbered, StoreAt, QueueAt, LookUp;
    match step
    case Write(_, coord, req, _) =>
      ApplyStores(reqs, s, coord, req);
      SameStores(reqs, Apply(s, coord, req), Next(s, step));
    case Deliver(id) =>
      var c := s.calls[id];
      ApplyStores(reqs, s, c.target, c.req);
      SameStores(reqs, Apply(s, c.target, c.req), Next(s, step));
    case Redeliver(msg) => ApplyStores(reqs, s, msg.target, msg.req);
    case Repair(coord, req, _) =>
      ApplyStores(reqs, s, coord, req);
      SameStores(reqs, Apply(s, coord, req), Next(s, step));
    case Read(rid, coord, key) => ServedStores(reqs, s, Next(s, step), rid, coord);
    case Serve(rid, node) => ServedStores(reqs, s, Next(s, step), rid, node);
    case Note(rid, node, _) => NotedStores(reqs, s, Next(s, step), rid);
    case _ => SameStores(reqs, s, Next(s, step));
  }

  lemma ServedStores(reqs: set<Request>, s: State, t: State, rid: nat, node: NodeId)
    requires StoresFrom(reqs, s) && rid in t.readOps
    requires t == s.(readOps := s.readOps[rid := t.readOps[rid]])
    requires node in t.readOps[rid].served && t.readOps[rid].served[node] == LookUp(s, node, t.readOps[rid].key)
    requires forall n :: n in t.readOps[rid].served && n != node ==>
               rid in s.readOps && t.readOps[rid].key == s.readOps[rid].key
               && n in s.readOps[rid].served && t.readOps[rid].served[n] == s.readOps[rid].served[n]
    ensures StoresFrom(reqs, t)
  {
    forall n ensures StoreAt(t, n) == StoreAt(s, n) {}
    hide Stored;
  }

  lemma NotedStores(reqs: set<Request>, s: State, t: State, rid: nat)
    requires StoresFrom(reqs, s) && rid in s.readOps && rid in t.readOps
    requires t == s.(readOps := s.readOps[rid := t.readOps[rid]])
    requires t.readOps[rid].served == s.readOps[rid].served && t.readOps[rid].key == s.readOps[rid].key
    ensures StoresFrom(reqs, t)
  {
    forall n ensures StoreAt(t, n) == StoreAt(s, n) {}
    hide Stored;
  }

  lemma QueueStepFrom(reqs: set<Request>, q: Queue, op: Op)
    requires QueueFrom(reqs, q) && (op.PushOp? ==> op.hint.req in reqs)
    ensures QueueFrom(reqs, HintQueueSpec.Step(q, op))
    ensures op.SnapshotOp? ==> forall e :: e in Scan(q.live, op.now, op.max).1 ==> e.hint.req in reqs
  {
    hide DropCount, Judge, Scan, Find, FindVersion, IndexOf;
    if op.SnapshotOp? { ScanKeeps(q.live, op.now, op.max); }
  }

  lemma SameTraffic(reqs: set<Request>, s: State, t: State, node: NodeId)
    requires TrafficFrom(reqs, s)
    requires forall m :: m in t.sent ==> m in s.sent || m.req in reqs
    requires forall id :: id in t.calls ==>
               (id in s.calls && t.calls[id].req == s.calls[id].req) || t.calls[id].req in reqs
    requires forall n :: n != node ==> QueueAt(t, n) == QueueAt(s, n)
    requires QueueFrom(reqs, QueueAt(t, node))
    ensures TrafficFrom(reqs, t)
  {
    forall n ensures QueueFrom(reqs, QueueAt(t, n)) { assert QueueFrom(reqs, QueueAt(s, n)); }
    hide QueueFrom, QueueAt;
  }

  lemma SendTraffic(reqs: set<Request>, s: State, calls: seq<Call>)
    requires TrafficFrom(reqs, s) && forall i :: 0 <= i < |calls| ==> calls[i].req in reqs
    ensures TrafficFrom(reqs, Send(s, calls))
  {
    hide QueueFrom;
    var t := Send(s, calls);
    forall n ensures QueueAt(t, n) == QueueAt(s, n) {}
    assert QueueFrom(reqs, QueueAt(s, []));
    SameTraffic(reqs, s, t, []);
  }

  lemma QuietTraffic(reqs: set<Request>, s: State, t: State)
    requires TrafficFrom(reqs, s) && t.queues == s.queues
    requires forall m :: m in t.sent ==> m in s.sent || m.req in reqs
    requires forall id :: id in t.calls ==>
               (id in s.calls && t.calls[id].req == s.calls[id].req) || t.calls[id].req in reqs
    ensures TrafficFrom(reqs, t)
  {
    hide QueueFrom;
    forall n ensures QueueAt(t, n) == QueueAt(s, n) {}
    assert QueueFrom(reqs, QueueAt(s, []));
    SameTraffic(reqs, s, t, []);
  }

  lemma WriteTraffic(reqs: set<Request>, s: State, op: nat, coord: NodeId, req: Request, replicas: seq<NodeId>)
    requires TrafficFrom(reqs, s) && req in reqs
    ensures TrafficFrom(reqs, DoWrite(s, op, coord, req, replicas))
  {
    hide TrafficFrom, Send, Put;
    var a, t := Apply(s, coord, req), DoWrite(s, op, coord, req, replicas);
    QuietTraffic(reqs, s, a) by { assert a.sent == s.sent && a.calls == s.calls; }
    SendTraffic(reqs, a, WriteCalls(coord, req, replicas, op));
    QuietTraffic(reqs, Send(a, WriteCalls(coord, req, replicas, op)), t);
  }

  /** Only `coord`'s queue changes, by one operation on it. */
  lemma QueueTraffic(reqs: set<Request>, s: State, t: State, coord: NodeId, op: Op)
    requires TrafficFrom(reqs, s) && (op.PushOp? ==> op.hint.req in reqs) && t.sent == s.sent
    requires forall id :: id in t.calls ==> id in s.calls && t.calls[id].req == s.calls[id].req
    requires t.queues == s.queues[coord := HintQueueSpec.Step(QueueAt(s, coord), op)]
    ensures TrafficFrom(reqs, t)
  {
    assert QueueFrom(reqs, QueueAt(s, coord));
    QueueStepFrom(reqs, QueueAt(s, coord), op);
    hide QueueFrom, HintQueueSpec.Step;
    SameTraffic(reqs, s, t, coord);
  }

  lemma AckTraffic(reqs: set<Request>, s: State, id: nat)
    requires TrafficFrom(reqs, s) && id in s.calls
    ensures TrafficFrom(reqs, DoAck(s, id))
  {
    hide TrafficFrom, Remove;
    var c := s.calls[id];
    if c.purpose.ForReplay? {
      QueueTraffic(reqs, s, DoAck(s, id), c.coord, RemoveOp(c.purpose.handle));
    } else {
      QuietTraffic(reqs, s, DoAck(s, id));
    }
  }

  lemma FailTraffic(reqs: set<Request>, s: State, id: nat, expiresAt: int, handle: Handle)
    requires TrafficFrom(reqs, s) && id in s.calls
    ensures TrafficFrom(reqs, DoFail(s, id, expiresAt, handle))
  {
    var c := s.calls[id];
    assert c.req in reqs;
    hide TrafficFrom, Push, PushLosses;
    if c.purpose.ForWrite? {
      QueueTraffic(reqs, s, DoFail(s, id, expiresAt, handle), c.coord, PushOp(Hint(c.target, c.req, expiresAt), handle));
    } else {
      QuietTraffic(reqs, s, DoFail(s, id, expiresAt, handle));
    }
  }

  lemma ReplayTraffic(reqs: set<Request>, s: State, coord: NodeId, now: int, max: nat)
    requires TrafficFrom(reqs, s)
    ensures TrafficFrom(reqs, DoReplay(s, coord, now, max))
  {
    assert QueueFrom(reqs, QueueAt(s, coord));
    QueueStepFrom(reqs, QueueAt(s, coord), SnapshotOp(now, max));
    hide TrafficFrom, Scan, Send;
    var a := ExpireHints(s, coord, now, max);
    QueueTraffic(reqs, s, a, coord, SnapshotOp(now, max));
    SendTraffic(reqs, a, ReplayCalls(coord, Scan(QueueAt(s, coord).live, now, max).1));
  }

  lemma NextTraffic(reqs: set<Request>, s: State, step: R.Step)
    requires TrafficFrom(reqs, s) && R.Enabled(s, step) && Brought(step) <= reqs
    ensures TrafficFrom(reqs, Next(s, step))
  {
    hide TrafficFrom, Put, StoreAt, DoWrite, DoAck, DoFail, DoReplay, LookUp, Reply, Succeeded, Holders, QueueAt;
    match step
    case Write(op, coord, req, replicas) => WriteTraffic(reqs, s, op, coord, req, replicas);
    case Ack(id) => AckTraffic(reqs, s, id);
    case Fail(id, expiresAt, handle) => FailTraffic(reqs, s, id, expiresAt, handle);
    case Replay(coord, now, max) => ReplayTraffic(reqs, s, coord, now, max);
    case Budget(coord, maxBytes) => QueueTraffic(reqs, s, Next(s, step), coord, SetMaxBytesOp(maxBytes));
    case _ => QuietTraffic(reqs, s, Next(s, step));
  }

  // ---------------------------------------------------------------- over runs

  lemma {:induction false} RunsFrom(steps: seq<R.Step>)
    requires EnabledSteps(INIT, steps)
    ensures StoresFrom(Requests(steps), Execute(INIT, steps)) && TrafficFrom(Requests(steps), Execute(INIT, steps))
    decreases |steps|
  {
    hide StoresFrom, TrafficFrom, Next, R.Enabled, Execute, EnabledSteps;
    if steps == [] {
      ExecuteNone(INIT);
      NothingYet();
    } else {
      var init, last := steps[..|steps| - 1], steps[|steps| - 1];
      assert steps == init + [last];
      SplitLast(INIT, init, last);
      RunsFrom(init);
      MoreRequests(Requests(init), Requests(steps), Execute(INIT, init));
      NextStores(Requests(steps), Execute(INIT, init), last);
      NextTraffic(Requests(steps), Execute(INIT, init), last);
    }
  }

  lemma NothingYet()
    ensures StoresFrom({}, INIT) && TrafficFrom({}, INIT)
  {
  }

  /** After any run, whatever any node stores is, value and deadline included, what some write or repair said. */
  lemma StoredIsWritten(steps: seq<R.Step>, n: NodeId, key: Key)
    requires EnabledSteps(INIT, steps) && key in StoreAt(Execute(INIT, steps), n)
    ensures Stored(Requests(steps), key, StoreAt(Execute(INIT, steps), n)[key])
  {
    RunsFrom(steps);
  }

  /** What a request puts into a store, and what a read makes of it: a delete marker has no value. */
  ghost predicate Returned(reqs: set<Request>, key: Key, e: Entry) {
    exists q :: q in reqs && q.key == key && e.stamp == Stamp(q.version, q.writer, q.tombstone)
                && e.expiresAt == q.expiresAt && (q.tombstone || e.value == q.value)
  }

  /** After any run, whatever a read returns is what some write or repair said for its key. */
  lemma ReadReturnsWritten(steps: seq<R.Step>, rid: nat, quorum: nat, total: nat)
    requires EnabledSteps(INIT, steps) && rid in Execute(INIT, steps).readOps
    ensures var r := Execute(INIT, steps).readOps[rid];
            && r.coord in r.served
            && (Outcome(r, quorum, total).Some? ==>
                  Returned(Requests(steps), r.key, Outcome(r, quorum, total).value))
  {
    var s := Execute(INIT, steps);
    InitOk();
    RunsKeep(INIT, steps);
    RunsFrom(steps);
    assert ReadOk(s, rid);
    var r := s.readOps[rid];
    var local, vs := r.served[r.coord], VotesOf(r);
    NoteAllIsMaximum(quorum, total, local, vs);
    hide Inv, Execute, EnabledSteps, NoteAll, TrafficFrom, ServedOk;
    if Outcome(r, quorum, total).Some? {
      var e := Outcome(r, quorum, total).value;
      if local == Some(e) {
        StoredIsReturned(Requests(steps), r.key, e, e);
      } else {
        var i :| 0 <= i < |vs| && Counted(vs[i]) && EntryOf(vs[i].res) == e;
        StoredIsReturned(Requests(steps), r.key, r.served[r.votes[i].node].value, e);
      }
    }
  }

  lemma StoredIsReturned(reqs: set<Request>, key: Key, stored: Entry, e: Entry)
    requires Stored(reqs, key, stored)
    requires e == stored || e == EntryOf(Reply(Some(stored)).res)
    ensures Returned(reqs, key, e)
  {
  }
}
