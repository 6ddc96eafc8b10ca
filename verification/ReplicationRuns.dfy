/**
 What the replication protocol promises in terms of the steps of a run alone: every write step is accounted for, a read
 step that follows a successful write sees it, hints and repairs arrive, and nothing is given up without a cause.
 */
module ReplicationRuns {
  import opened Common
  import opened Lww
  import opened HintQueueSpec
  import opened ReadQuorum
  import opened Replication
  import R = Replication
  import FanOut

  // ---------------------------------------------------------------- what a run never takes back

  /** Promises stay, a write keeps its identity, a read what it came after. */
  ghost predicate Grows(s: State, t: State) {
    && s.promises <= t.promises
    && (forall op :: op in s.writeOps ==>
          op in t.writeOps && t.writeOps[op] == s.writeOps[op].(acked := t.writeOps[op].acked))
    && (forall rid :: rid in s.readOps ==> rid in t.readOps && SameRead(s.readOps[rid], t.readOps[rid]))
    && (forall n, k, st :: Holds(StoreAt(s, n), k, st) ==> Holds(StoreAt(t, n), k, st))
  }

  predicate SameRead(a: ReadOp, b: ReadOp) {
    a.coord == b.coord && a.key == b.key && a.after == b.after
  }

  lemma ApplyGrows(s: State, node: NodeId, req: Request)
    ensures Grows(s, Apply(s, node, req)) && Holds(StoreAt(Apply(s, node, req), node), req.key, StampOf(req))
  {
    ApplyExtends(s, node, req);
    hide Put, Holds;
  }

  /** Nothing else counts for `Grows`. */
  lemma GrowsSame(s: State, t: State, u: State)
    requires Grows(s, t) && u.stores == t.stores && u.promises == t.promises
    requires u.writeOps == t.writeOps && u.readOps == t.readOps
    ensures Grows(s, u)
  {
    hide Holds;
    forall n ensures StoreAt(u, n) == StoreAt(t, n) {}
  }

  lemma WriteGrows(s: State, op: nat, coord: NodeId, req: Request, replicas: seq<NodeId>)
    requires op !in s.writeOps
    ensures Grows(s, DoWrite(s, op, coord, req, replicas))
    ensures Holds(StoreAt(DoWrite(s, op, coord, req, replicas), coord), req.key, StampOf(req))
  {
    ApplyGrows(s, coord, req);
    hide Put, Holds, Numbered, WriteCalls;
    var t, u := Apply(s, coord, req), DoWrite(s, op, coord, req, replicas);
    forall n ensures StoreAt(u, n) == StoreAt(t, n) {}
  }

  lemma GrowsItself(s: State)
    ensures Grows(s, s)
  {
    hide Holds;
  }

  /** Steps that touch reads only. */
  lemma ReadsGrow(s: State, t: State)
    requires t == s.(readOps := t.readOps)
    requires forall rid :: rid in s.readOps ==> rid in t.readOps && SameRead(s.readOps[rid], t.readOps[rid])
    ensures Grows(s, t)
  {
    hide Holds;
    forall n ensures StoreAt(t, n) == StoreAt(s, n) {}
  }

  lemma AckGrows(s: State, id: nat)
    requires id in s.calls
    ensures Grows(s, DoAck(s, id))
  {
    hide Holds, Remove;
    var t := DoAck(s, id);
    forall n ensures StoreAt(t, n) == StoreAt(s, n) {}
  }

  lemma NextGrows(s: State, step: R.Step)
    requires R.Enabled(s, step)
    ensures Grows(s, Next(s, step))
  {
    hide Grows, Apply, Push, Remove, Snapshot, Scan, PushLosses, Numbered, DoWrite, DoAck, Reply, LookUp;
    GrowsItself(s);
    match step
    case Write(op, coord, req, replicas) => WriteGrows(s, op, coord, req, replicas);
    case Deliver(id) =>
      ApplyGrows(s, s.calls[id].target, s.calls[id].req);
      GrowsSame(s, Apply(s, s.calls[id].target, s.calls[id].req), Next(s, step));
    case Redeliver(msg) => ApplyGrows(s, msg.target, msg.req);
    case Repair(coord, req, targets) =>
      ApplyGrows(s, coord, req);
      GrowsSame(s, Apply(s, coord, req), Next(s, step));
    case Ack(id) => AckGrows(s, id);
    case Read(_, _, _) => ReadsGrow(s, Next(s, step));
    case Serve(_, _) => ReadsGrow(s, Next(s, step));
    case Note(_, _, _) => ReadsGrow(s, Next(s, step));
    case _ => GrowsSame(s, s, Next(s, step));
  }

  lemma {:induction false} RunsGrow(s: State, steps: seq<R.Step>)
    requires EnabledSteps(s, steps)
    ensures Grows(s, Execute(s, steps))
    decreases |steps|
  {
    hide Next, R.Enabled, Holds;
    if steps == [] {
    } else {
      var t := Next(s, steps[0]);
      NextGrows(s, steps[0]);
      RunsGrow(t, steps[1..]);
      GrowsOn(s, t, Execute(t, steps[1..]));
    }
  }

  lemma GrowsOn(s: State, t: State, u: State)
    requires Grows(s, t) && Grows(t, u)
    ensures Grows(s, u)
  {
    hide Holds;
  }

  // ---------------------------------------------------------------- every write is accounted for

  /** A run that makes step `step` after `before`, and then goes on with `after`, up to `t`. */
  ghost predicate RunsTo(before: seq<R.Step>, step: R.Step, after: seq<R.Step>, t: State) {
    && EnabledSteps(INIT, before) && R.Enabled(Execute(INIT, before), step)
    && EnabledSteps(Next(Execute(INIT, before), step), after)
    && t == Execute(Next(Execute(INIT, before), step), after)
  }

  lemma EndKeeps(before: seq<R.Step>, step: R.Step, after: seq<R.Step>, t: State)
    requires RunsTo(before, step, after, t)
    ensures Inv(Execute(INIT, before)) && Inv(t) && Grows(Next(Execute(INIT, before), step), t)
  {
    hide Inv, Grows, Next, R.Enabled, Execute, EnabledSteps;
    InitOk();
    RunsKeep(INIT, before);
    NextKeeps(Execute(INIT, before), step);
    RunsKeep(Next(Execute(INIT, before), step), after);
    RunsGrow(Next(Execute(INIT, before), step), after);
  }

  /**
   Every write ever made: its coordinator holds it, and for each replica it is still being sent, held, queued as a hint,
   or covered by a hint that the coordinator gave up after the write was made.
   */
  lemma EveryWriteIsAccountedFor(before: seq<R.Step>, op: nat, coord: NodeId, req: Request,
                                 replicas: seq<NodeId>, after: seq<R.Step>, t: State, n: NodeId)
    requires RunsTo(before, R.Step.Write(op, coord, req, replicas), after, t) && n in replicas
    ensures Holds(StoreAt(t, coord), req.key, StampOf(req)) && StoreAt(t, coord)[req.key].stamp.version >= req.version
    ensures var p := Promise(coord, n, req.key, StampOf(req), Execute(INIT, before).clock);
            InFlight(t, p) || Holds(StoreAt(t, n), req.key, StampOf(req)) || Queued(t, p) || WasLost(t, p)
  {
    var step := R.Step.Write(op, coord, req, replicas);
    EndKeeps(before, step, after, t);
    var s := Execute(INIT, before);
    WriteGrows(s, op, coord, req, replicas);
    var p := Promise(coord, n, req.key, StampOf(req), s.clock);
    assert p in Next(s, step).promises;
    assert Accounted(t, p);
    hide Inv, Execute, EnabledSteps, Next, R.Enabled, InFlight, Queued, WasLost;
    CoversInFields(StoreAt(t, coord)[req.key].stamp, StampOf(req));
  }

  // ---------------------------------------------------------------- reads after writes

  /**
   A read step made when a write had its quorum: once the read has heard from more than N - W of the write's members,
   whatever else happens in between, it returns a stamp at least as new as the write's.
   */
  lemma ReadAfterWriteSees(before: seq<R.Step>, rid: nat, coord: NodeId, after: seq<R.Step>, t: State, op: nat,
                           quorum: nat, total: nat)
    requires EnabledSteps(INIT, before) && op in Execute(INIT, before).writeOps
    requires var w := Execute(INIT, before).writeOps[op];
             && RunsTo(before, R.Step.Read(rid, coord, w.key), after, t)
             && 1 + |w.acked| >= FanOut.Quorum(|w.replicas|) && w.stamp.version != 0
             && rid in t.readOps && Answering(t.readOps[rid]) <= Members(w)
             && |Answering(t.readOps[rid])| > |Members(w)| - FanOut.Quorum(|w.replicas|)
    ensures var w, r := Execute(INIT, before).writeOps[op], t.readOps[rid];
            && r.coord in r.served
            && Outcome(r, quorum, total).Some? && Covers(Outcome(r, quorum, total).value.stamp, w.stamp)
            && Outcome(r, quorum, total).value.stamp.version >= w.stamp.version
  {
    hide Inv, Execute, EnabledSteps, Next, R.Enabled, Outcome, Answering, Holds, Grows, Members;
    var s := Execute(INIT, before);
    var step := R.Step.Read(rid, coord, s.writeOps[op].key);
    EndKeeps(before, step, after, t);
    ReadComesAfter(s, rid, coord, op, t);
    MembersStay(s.writeOps[op], t.writeOps[op]);
    HolderIsHeard(t, op, rid, quorum, total);
  }

  lemma MembersStay(v: WriteOp, w: WriteOp)
    requires w == v.(acked := w.acked)
    ensures Members(w) == Members(v)
  {
  }

  lemma ReadComesAfter(s: State, rid: nat, coord: NodeId, op: nat, t: State)
    requires op in s.writeOps && 1 + |s.writeOps[op].acked| >= FanOut.Quorum(|s.writeOps[op].replicas|)
    requires var step := R.Step.Read(rid, coord, s.writeOps[op].key);
             R.Enabled(s, step) && Grows(Next(s, step), t)
    ensures op in t.writeOps && t.writeOps[op] == s.writeOps[op].(acked := t.writeOps[op].acked)
    ensures rid in t.readOps && op in t.readOps[rid].after && t.readOps[rid].key == s.writeOps[op].key
  {
    hide Holds, LookUp;
    var a := Next(s, R.Step.Read(rid, coord, s.writeOps[op].key));
    assert op in a.readOps[rid].after && a.writeOps == s.writeOps;
    assert SameRead(a.readOps[rid], t.readOps[rid]);
  }

  /** So a majority of answers is enough. */
  lemma MajoritySees(before: seq<R.Step>, rid: nat, coord: NodeId, after: seq<R.Step>, t: State, op: nat,
                     quorum: nat, total: nat)
    requires EnabledSteps(INIT, before) && op in Execute(INIT, before).writeOps
    requires var w := Execute(INIT, before).writeOps[op];
             && RunsTo(before, R.Step.Read(rid, coord, w.key), after, t)
             && 1 + |w.acked| >= FanOut.Quorum(|w.replicas|) && w.stamp.version != 0
             && rid in t.readOps && Answering(t.readOps[rid]) <= Members(w)
             && 2 * |Answering(t.readOps[rid])| > |Members(w)|
    ensures var w, r := Execute(INIT, before).writeOps[op], t.readOps[rid];
            && r.coord in r.served
            && Outcome(r, quorum, total).Some? && Covers(Outcome(r, quorum, total).value.stamp, w.stamp)
            && Outcome(r, quorum, total).value.stamp.version >= w.stamp.version
  {
    var w := Execute(INIT, before).writeOps[op];
    EndKeeps(before, R.Step.Read(rid, coord, w.key), after, t);
    assert WriteOk(Execute(INIT, before), op);
    hide Inv, Execute, EnabledSteps, Next, R.Enabled, Outcome, Answering, Holds, RunsTo, WriteOk, Members;
    MemberCount(w);
    FanOut.QuorumIsMajority(|w.replicas|);
    ReadAfterWriteSees(before, rid, coord, after, t, op, quorum, total);
  }

  /** Any two successful writes to the same members are held by a common node. */
  lemma SuccessfulWritesMeet(steps: seq<R.Step>, a: nat, b: nat)
    requires EnabledSteps(INIT, steps) && a in Execute(INIT, steps).writeOps && b in Execute(INIT, steps).writeOps
    requires var v, w := Execute(INIT, steps).writeOps[a], Execute(INIT, steps).writeOps[b];
             && 1 + |v.acked| >= FanOut.Quorum(|v.replicas|) && 1 + |w.acked| >= FanOut.Quorum(|w.replicas|)
             && Members(v) == Members(w)
    ensures var s := Execute(INIT, steps);
            var v, w := s.writeOps[a], s.writeOps[b];
            exists n :: n in Members(v) && Holds(StoreAt(s, n), v.key, v.stamp) && Holds(StoreAt(s, n), w.key, w.stamp)
  {
    InitOk();
    RunsKeep(INIT, steps);
    var s := Execute(INIT, steps);
    var v, w := s.writeOps[a], s.writeOps[b];
    assert WriteOk(s, a) && WriteOk(s, b);
    hide Inv, Execute, EnabledSteps, Holds;
    MemberCount(v);
    MemberCount(w);
    FanOut.QuorumIsMajority(|v.replicas|);
    TwoSetsMeet(Holders(v), Holders(w), Members(v));
    var n :| n in Holders(v) && n in Holders(w);
  }

  // ---------------------------------------------------------------- losses have causes

  /** What can make a coordinator give up a hint at a step. */
  ghost predicate HasCause(s: State, step: R.Step, l: Loss) {
    var q := QueueAt(s, l.coord);
    || (step.Replay? && step.coord == l.coord && l.hint.expiresAt <= step.now && InQueue(q, l.hint))
    || (step.Fail? && step.id in s.calls && s.calls[step.id].coord == l.coord
        && var c := s.calls[step.id];
           var size := 184 + |c.target| + |c.req.key| + |c.req.value|;
           || (size > q.maxBytes && l.hint == Hint(c.target, c.req, step.expiresAt))
           || ((|q.live| >= 1024 || TotalBytes(q.live) + size > q.maxBytes) && InQueue(q, l.hint)))
  }

  ghost predicate InQueue(q: Queue, h: Hint) {
    exists e :: e in q.live && e.hint == h
  }

  lemma RestIsSmaller(live: seq<Live>, h: Hint)
    ensures |Coalesced(live, h)| <= |live| && TotalBytes(Coalesced(live, h)) <= TotalBytes(live)
    ensures forall e :: e in Coalesced(live, h) ==> e in live
  {
    var k := Find(live, h.target, h.req.key);
    if k < |live| { TotalBytesRemoveAt(live, k); }
  }

  lemma PushLossHasCause(q: Queue, h: Hint, x: Hint)
    requires WellFormed(q) && x in PushLosses(q, h)
    ensures var size := 184 + |h.target| + |h.req.key| + |h.req.value|;
            || (size > q.maxBytes && x == h)
            || ((|q.live| >= 1024 || TotalBytes(q.live) + size > q.maxBytes) && InQueue(q, x))
  {
    if Judge(q, h) == Accepted {
      RestIsSmaller(q.live, h);
      var rest := Coalesced(q.live, h);
      hide Coalesced, TotalBytes, Coherent;
      var e :| e in Evicted(q, h) && e.hint == x;
      assert !Fits(rest[0..], EstimatedBytes(h), q.maxBytes);
      assert rest[0..] == rest;
      assert e in rest;
    }
  }

  lemma FailLossHasCause(s: State, id: nat, expiresAt: int, handle: Handle, l: Loss)
    requires Inv(s) && R.Enabled(s, Fail(id, expiresAt, handle))
    requires l in DoFail(s, id, expiresAt, handle).lost - s.lost
    ensures HasCause(s, Fail(id, expiresAt, handle), l)
  {
    var c := s.calls[id];
    assert QueueOk(s, c.coord);
    hide Inv, Push, PushLosses;
    PushLossHasCause(QueueAt(s, c.coord), Hint(c.target, c.req, expiresAt), l.hint);
  }

  lemma ReplayLossHasCause(s: State, coord: NodeId, now: int, max: nat, l: Loss)
    requires l in DoReplay(s, coord, now, max).lost - s.lost
    ensures HasCause(s, Replay(coord, now, max), l)
  {
    ScanKeeps(QueueAt(s, coord).live, now, max);
    hide Scan;
  }

  /**
   Every hint ever given up had expired, was too large for its coordinator's budget, or was queued when the queue was
   full and another hint needed the room.
   */
  lemma {:induction false} LossHasCause(steps: seq<R.Step>, l: Loss) returns (i: nat)
    requires EnabledSteps(INIT, steps) && l in Execute(INIT, steps).lost
    ensures i < |steps| && EnabledSteps(INIT, steps[..i]) && HasCause(Execute(INIT, steps[..i]), steps[i], l)
    decreases |steps|
  {
    hide HasCause, Inv, Next, R.Enabled, Execute, EnabledSteps;
    ExecuteNone(INIT);
    if steps == [] {
      assert false;
    } else {
      var init, last := steps[..|steps| - 1], steps[|steps| - 1];
      assert steps == init + [last];
      SplitLast(INIT, init, last);
      var s := Execute(INIT, init);
      if l in s.lost {
        i := LossHasCause(init, l);
        assert init[..i] == steps[..i];
      } else {
        InitOk();
        RunsKeep(INIT, init);
        i := |init|;
        assert steps[..i] == init;
        NewLossHasCause(s, last, l);
      }
    }
  }

  lemma NewLossHasCause(s: State, step: R.Step, l: Loss)
    requires Inv(s) && R.Enabled(s, step) && l in Next(s, step).lost - s.lost
    ensures HasCause(s, step, l)
  {
    hide HasCause, Inv;
    match step
    case Fail(id, expiresAt, handle) => FailLossHasCause(s, id, expiresAt, handle, l);
    case Replay(coord, now, max) => ReplayLossHasCause(s, coord, now, max, l);
    case _ =>
  }

  lemma {:induction false} SplitLast(s: State, steps: seq<R.Step>, last: R.Step)
    requires EnabledSteps(s, steps + [last])
    ensures EnabledSteps(s, steps) && R.Enabled(Execute(s, steps), last)
    ensures Execute(s, steps + [last]) == Next(Execute(s, steps), last)
    decreases |steps|
  {
    hide R.Enabled, Next;
    if steps == [] {
      assert [] + [last] == [last] && [last][1..] == [];
    } else {
      assert (steps + [last])[1..] == steps[1..] + [last];
      SplitLast(Next(s, steps[0]), steps[1..], last);
    }
  }

  // ---------------------------------------------------------------- hints and repairs arrive

  lemma ReplaySends(s: State, coord: NodeId, now: int, max: nat, e: Live) returns (id: nat)
    requires e in Scan(QueueAt(s, coord).live, now, max).1
    ensures var a := DoReplay(s, coord, now, max);
            && id in a.calls
            && a.calls[id] == Call(coord, e.hint.target, e.hint.req, false, ForReplay(e.handle))
            && QueueAt(a, coord) == Snapshot(QueueAt(s, coord), now, max)
  {
    hide Scan, ReplayCalls;
    var batch := Scan(QueueAt(s, coord).live, now, max).1;
    var j :| 0 <= j < |batch| && batch[j] == e;
    id := s.nextCall + j;
    assert ReplayCalls(coord, batch)[j] == Call(coord, e.hint.target, e.hint.req, false, ForReplay(e.handle));
  }

  lemma AckedReplayRemoves(a: State, id: nat)
    requires id in a.calls && a.calls[id].purpose.ForReplay?
    ensures var c, b := a.calls[id], DoDeliver(a, id);
            && id in b.calls && b.calls[id].applied
            && Holds(StoreAt(DoAck(b, id), c.target), c.req.key, StampOf(c.req))
            && QueueAt(DoAck(b, id), c.coord) == Remove(QueueAt(a, c.coord), c.purpose.handle)
  {
    var c := a.calls[id];
    ApplyGrows(a, c.target, c.req);
    hide Holds, Remove, Put;
  }

  lemma ReplaySteps(s: State, coord: NodeId, now: int, max: nat, id: nat)
    ensures R.Enabled(s, Replay(coord, now, max)) && Next(s, Replay(coord, now, max)) == DoReplay(s, coord, now, max)
    ensures forall a: State ::
              id in a.calls ==> R.Enabled(a, Deliver(id)) && Next(a, Deliver(id)) == DoDeliver(a, id)
    ensures forall b: State ::
              id in b.calls && b.calls[id].applied ==> R.Enabled(b, Ack(id)) && Next(b, Ack(id)) == DoAck(b, id)
  {
    hide DoReplay, DoDeliver, DoAck;
  }

  /**
   A hint among the `max` oldest that have not expired is sent by a replay; delivered and acknowledged, its target
   holds the write, and the hint is queued no longer.
   */
  lemma HintReachesTarget(s: State, coord: NodeId, now: int, max: nat, e: Live) returns (id: nat)
    requires Inv(s) && e in Scan(QueueAt(s, coord).live, now, max).1
    ensures var a := Next(s, Replay(coord, now, max));
            && R.Enabled(a, Deliver(id))
            && var b := Next(a, Deliver(id));
            && R.Enabled(b, Ack(id))
            && var c := Next(b, Ack(id));
            && Holds(StoreAt(c, e.hint.target), e.hint.req.key, StampOf(e.hint.req))
            && e !in QueueAt(c, coord).live
  {
    assert QueueOk(s, coord);
    hide Inv, Holds, DoReplay, DoDeliver, DoAck, Remove, Snapshot, StoreAt, QueueAt, Scan, Coherent, Next, R.Enabled;
    var q := QueueAt(s, coord);
    id := ReplaySends(s, coord, now, max, e);
    ReplaySteps(s, coord, now, max, id);
    AckedReplayRemoves(DoReplay(s, coord, now, max), id);
    SnapshotKeeps(q, now, max);
    RemovedIsGone(Snapshot(q, now, max), e);
  }

  lemma RemovedIsGone(q: Queue, e: Live)
    requires WellFormed(q)
    ensures e !in Remove(q, e.handle).live
  {
    var k := IndexOf(q.live, e.handle);
    if k < |q.live| {
      forall i | 0 <= i < |RemoveAt(q.live, k)| ensures RemoveAt(q.live, k)[i].handle != e.handle {
        assert RemoveAt(q.live, k)[i] == q.live[if i < k then i else i + 1];
      }
    }
  }

  /** A repair heals the reader's own store at once, and each target's when its message arrives. */
  lemma RepairReachesTargets(s: State, coord: NodeId, req: Request, targets: seq<NodeId>, n: NodeId)
    requires n in targets
    ensures var a := Next(s, Repair(coord, req, targets));
            && Holds(StoreAt(a, coord), req.key, StampOf(req))
            && R.Enabled(a, Redeliver(Message(n, req)))
            && Holds(StoreAt(Next(a, Redeliver(Message(n, req))), n), req.key, StampOf(req))
  {
    ApplyGrows(s, coord, req);
    ApplyGrows(Next(s, Repair(coord, req, targets)), n, req);
    hide Put, Holds;
  }
}
