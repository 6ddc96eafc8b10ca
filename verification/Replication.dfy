/**
 The replication protocol as steps over all nodes at once: a coordinator commits a write locally
 and sends it to its replicas; a send may be applied, applied again later, acknowledged or
 reported failed, in any order; every failure queues a hint and queued hints are replayed; reads
 collect answers. Timing and transport are arbitrary, so each step may happen whenever it is enabled.
 */
module Replication {
  import opened Common
  import opened Lww
  import opened HintQueueSpec
  import opened ReadQuorum
  import FanOut

  /** Why a send was made: for a write operation, or to replay the hint held under a handle. */
  datatype Purpose = ForWrite(op: nat) | ForReplay(handle: Handle)

  /** An outstanding send; `applied` once the target has put it into its store. */
  datatype Call = Call(coord: NodeId, target: NodeId, req: Request, applied: bool, purpose: Purpose)

  datatype Message = Message(target: NodeId, req: Request)

  /** A committed write, the one numbered `since`, owes `target` an entry for `key` at least as new as `stamp`. */
  datatype Promise = Promise(coord: NodeId, target: NodeId, key: Key, stamp: Stamp, since: nat)

  /** A hint the coordinator's queue refused, pushed out or let expire, when `at` writes had been made. */
  datatype Loss = Loss(coord: NodeId, hint: Hint, at: nat)

  /** A write's reduction so far: which replicas acknowledged. */
  datatype WriteOp = WriteOp(coord: NodeId, key: Key, stamp: Stamp, replicas: seq<NodeId>, acked: set<NodeId>)

  datatype Noted = Noted(node: NodeId, vote: Vote)

  /**
   A read: `served` is what each node answered (the coordinator's own entry from the start),
   `votes` the completions reduced so far, and `after` the nodes known to hold each write that
   had succeeded when the read began.
   */
  datatype ReadOp = ReadOp(coord: NodeId, key: Key, served: map<NodeId, Option<Entry>>, votes: seq<Noted>,
                           after: map<nat, set<NodeId>>)

  datatype State = State(
    stores: map<NodeId, Store>,
    queues: map<NodeId, Queue>,
    calls: map<nat, Call>,
    nextCall: nat,
    sent: set<Message>,
    promises: set<Promise>,
    lost: set<Loss>,
    clock: nat, // writes made so far
    writeOps: map<nat, WriteOp>,
    readOps: map<nat, ReadOp>)

  const INIT: State := State(map[], map[], map[], 0, {}, {}, {}, 0, map[], map[])

  function StoreAt(s: State, node: NodeId): Store {
    if node in s.stores then s.stores[node] else map[]
  }

  function QueueAt(s: State, node: NodeId): Queue {
    if node in s.queues then s.queues[node] else Queue([], map[], DEFAULT_MAX_BYTES, 0)
  }

  function EntryOfRequest(req: Request): Entry {
    Entry(StampOf(req), req.value, req.expiresAt)
  }

  function Apply(s: State, node: NodeId, req: Request): State {
    s.(stores := s.stores[node := Put(StoreAt(s, node), req.key, EntryOfRequest(req))])
  }

  function LookUp(s: State, node: NodeId, key: Key): Option<Entry> {
    if key in StoreAt(s, node) then Some(StoreAt(s, node)[key]) else None
  }

  /** What a replica replies to a versioned read; a tombstone carries no value. */
  function Reply(e: Option<Entry>): Vote {
    match e
    case None => Answered(Response(NotFoundStatus, 0, 0, false, None, None))
    case Some(e) => Answered(Response(OkStatus, e.stamp.version, e.stamp.writer, e.stamp.tombstone,
                                      if e.stamp.tombstone then None else Some(e.value), e.expiresAt))
  }

  function Numbered(first: nat, calls: seq<Call>): (r: map<nat, Call>)
    ensures forall i :: i in r <==> first <= i < first + |calls|
    ensures forall i :: i in r ==> r[i] == calls[i - first]
  {
    if calls == [] then map[]
    else Numbered(first, calls[..|calls| - 1])[first + |calls| - 1 := calls[|calls| - 1]]
  }

  /** Register sends under fresh call numbers; whatever is sent may arrive at any later time. */
  function Send(s: State, calls: seq<Call>): State {
    s.(calls := s.calls + Numbered(s.nextCall, calls),
       nextCall := s.nextCall + |calls|,
       sent := s.sent + (set c | c in calls :: Message(c.target, c.req)))
  }

  datatype Step =
    | Write(op: nat, coord: NodeId, req: Request, replicas: seq<NodeId>)
    | Deliver(id: nat)
    | Redeliver(msg: Message)
    | Ack(id: nat)
    | Fail(id: nat, expiresAt: int, handle: Handle)
    | Replay(coord: NodeId, now: int, max: nat)
    | Repair(coord: NodeId, req: Request, targets: seq<NodeId>)
    | Budget(coord: NodeId, maxBytes: nat)
    | Read(rid: nat, coord: NodeId, key: Key)
    | Serve(rid: nat, node: NodeId)
    | Note(rid: nat, node: NodeId, failed: bool)

  ghost predicate Enabled(s: State, step: Step) {
    match step
    case Write(op, coord, req, replicas) =>
      op !in s.writeOps && coord !in replicas && Distinct(replicas)
    case Deliver(id) => id in s.calls
    case Redeliver(msg) => msg in s.sent
    case Ack(id) => id in s.calls && s.calls[id].applied
    case Fail(id, _, handle) => id in s.calls && handle !in QueueAt(s, s.calls[id].coord).issued
    case Replay(_, _, _) => true
    case Repair(_, _, _) => true
    case Budget(_, _) => true
    case Read(rid, _, _) => rid !in s.readOps
    case Serve(rid, node) => rid in s.readOps && node !in s.readOps[rid].served
    case Note(rid, node, failed) =>
      && rid in s.readOps && node != s.readOps[rid].coord
      && (forall v :: v in s.readOps[rid].votes ==> v.node != node)
      && (!failed ==> node in s.readOps[rid].served)
  }

  function WriteCalls(coord: NodeId, req: Request, replicas: seq<NodeId>, op: nat): (r: seq<Call>)
    ensures |r| == |replicas|
    ensures forall i :: 0 <= i < |r| ==> r[i] == Call(coord, replicas[i], req, false, ForWrite(op))
  {
    seq(|replicas|, i requires 0 <= i < |replicas| => Call(coord, replicas[i], req, false, ForWrite(op)))
  }

  function ReplayCalls(coord: NodeId, batch: seq<Live>): (r: seq<Call>)
    ensures |r| == |batch|
    ensures forall i :: 0 <= i < |r| ==>
              r[i] == Call(coord, batch[i].hint.target, batch[i].hint.req, false, ForReplay(batch[i].handle))
  {
    seq(|batch|, i requires 0 <= i < |batch| =>
      Call(coord, batch[i].hint.target, batch[i].hint.req, false, ForReplay(batch[i].handle)))
  }

  /** Hints a push makes the queue forget. */
  function PushLosses(q: Queue, h: Hint): set<Hint> {
    match Judge(q, h)
    case TooLarge => {h}
    case Older => {}
    case Accepted => set e | e in Evicted(q, h) :: e.hint
  }

  function EnqueueHint(s: State, coord: NodeId, h: Hint, handle: Handle): State {
    var q := QueueAt(s, coord);
    s.(queues := s.queues[coord := Push(q, h, handle)],
       lost := s.lost + (set l | l in PushLosses(q, h) :: Loss(coord, l, s.clock)))
  }

  /** The operation has the acknowledgements it needs, the local commit included. */
  predicate Succeeded(w: WriteOp) {
    1 + |w.acked| >= FanOut.Quorum(|w.replicas|)
  }

  function Holders(w: WriteOp): set<NodeId> {
    {w.coord} + w.acked
  }

  function DoWrite(s: State, op: nat, coord: NodeId, req: Request, replicas: seq<NodeId>): State {
    var t := Send(Apply(s, coord, req), WriteCalls(coord, req, replicas, op));
    t.(promises := s.promises + (set n | n in replicas :: Promise(coord, n, req.key, StampOf(req), s.clock)),
       clock := s.clock + 1,
       writeOps := s.writeOps[op := WriteOp(coord, req.key, StampOf(req), replicas, {})])
  }

  /** The target applies the request; the sender does not know yet. */
  function DoDeliver(s: State, id: nat): State
    requires id in s.calls
  {
    var c := s.calls[id];
    Apply(s, c.target, c.req).(calls := s.calls[id := c.(applied := true)])
  }

  function Acked(w: WriteOp, replica: NodeId): WriteOp {
    w.(acked := w.acked + {replica})
  }

  function DoAck(s: State, id: nat): State
    requires id in s.calls
  {
    var c := s.calls[id];
    match c.purpose
    case ForWrite(op) =>
      s.(calls := s.calls - {id},
         writeOps := if op in s.writeOps then s.writeOps[op := Acked(s.writeOps[op], c.target)] else s.writeOps)
    case ForReplay(handle) =>
      s.(calls := s.calls - {id}, queues := s.queues[c.coord := Remove(QueueAt(s, c.coord), handle)])
  }

  /** A failed write send queues a hint; a failed replay leaves its hint queued. */
  function DoFail(s: State, id: nat, expiresAt: int, handle: Handle): State
    requires id in s.calls
  {
    var c := s.calls[id];
    var t := s.(calls := s.calls - {id});
    if c.purpose.ForWrite? then EnqueueHint(t, c.coord, Hint(c.target, c.req, expiresAt), handle) else t
  }

  /** The snapshot's effect on the queue: expired hints met on the way are forgotten. */
  function ExpireHints(s: State, coord: NodeId, now: int, max: nat): State {
    var q := QueueAt(s, coord);
    s.(queues := s.queues[coord := Snapshot(q, now, max)],
       lost := s.lost + (set e | e in q.live && e !in Scan(q.live, now, max).0 :: Loss(coord, e.hint, s.clock)))
  }

  function DoReplay(s: State, coord: NodeId, now: int, max: nat): State {
    Send(ExpireHints(s, coord, now, max), ReplayCalls(coord, Scan(QueueAt(s, coord).live, now, max).1))
  }

  /** A read that found divergence heals its own store and sends the winner out, expecting no answer. */
  function DoRepair(s: State, coord: NodeId, req: Request, targets: seq<NodeId>): State {
    Apply(s, coord, req).(sent := s.sent + (set n | n in targets :: Message(n, req)))
  }

  function DoRead(s: State, rid: nat, coord: NodeId, key: Key): State {
    s.(readOps := s.readOps[rid := ReadOp(coord, key, map[coord := LookUp(s, coord, key)], [],
                                           map o | o in s.writeOps && Succeeded(s.writeOps[o])
                                             :: Holders(s.writeOps[o]))])
  }

  function DoServe(s: State, rid: nat, node: NodeId): State
    requires rid in s.readOps
  {
    var r := s.readOps[rid];
    s.(readOps := s.readOps[rid := r.(served := r.served[node := LookUp(s, node, r.key)])])
  }

  function DoNote(s: State, rid: nat, node: NodeId, vote: Vote): State
    requires rid in s.readOps
  {
    var r := s.readOps[rid];
    s.(readOps := s.readOps[rid := r.(votes := r.votes + [Noted(node, vote)])])
  }

  ghost function Next(s: State, step: Step): State
    requires Enabled(s, step)
  {
    match step
    case Write(op, coord, req, replicas) => DoWrite(s, op, coord, req, replicas)
    case Deliver(id) => DoDeliver(s, id)
    case Redeliver(msg) => Apply(s, msg.target, msg.req)
    case Ack(id) => DoAck(s, id)
    case Fail(id, expiresAt, handle) => DoFail(s, id, expiresAt, handle)
    case Replay(coord, now, max) => DoReplay(s, coord, now, max)
    case Repair(coord, req, targets) => DoRepair(s, coord, req, targets)
    case Budget(coord, maxBytes) => s.(queues := s.queues[coord := QueueAt(s, coord).(maxBytes := maxBytes)])
    case Read(rid, coord, key) => DoRead(s, rid, coord, key)
    case Serve(rid, node) => DoServe(s, rid, node)
    case Note(rid, node, failed) =>
      DoNote(s, rid, node, if failed then Failed else Reply(s.readOps[rid].served[node]))
  }

  // ---------------------------------------------------------------- the invariant

  ghost predicate QueueOk(s: State, node: NodeId) {
    WellFormed(QueueAt(s, node))
  }

  /** An applied call left its mark on the target; a replay call carries the hint its handle names. */
  ghost predicate CallOk(s: State, id: nat) {
    id in s.calls ==>
      var c := s.calls[id];
      && id < s.nextCall
      && (c.applied ==> Holds(StoreAt(s, c.target), c.req.key, StampOf(c.req)))
      && (c.purpose.ForReplay? ==>
            var issued := QueueAt(s, c.coord).issued;
            && c.purpose.handle in issued
            && issued[c.purpose.handle].target == c.target && issued[c.purpose.handle].req == c.req)
      && (c.purpose.ForWrite? ==>
            && c.purpose.op in s.writeOps
            && var w := s.writeOps[c.purpose.op];
            c.target in w.replicas && c.req.key == w.key && StampOf(c.req) == w.stamp)
  }

  predicate HintMeets(h: Hint, p: Promise) {
    Names(h, p.target, p.key) && Covers(StampOf(h.req), p.stamp)
  }

  ghost predicate InFlight(s: State, p: Promise) {
    exists id :: id in s.calls && s.calls[id].purpose.ForWrite? && s.calls[id].coord == p.coord
      && HintMeets(Hint(s.calls[id].target, s.calls[id].req, 0), p)
  }

  ghost predicate Queued(s: State, p: Promise) {
    exists e :: e in QueueAt(s, p.coord).live && HintMeets(e.hint, p)
  }

  /** The coordinator gave up a hint that met the promise, after the promise was made. */
  ghost predicate WasLost(s: State, p: Promise) {
    exists l :: l in s.lost && l.coord == p.coord && l.at > p.since && HintMeets(l.hint, p)
  }

  /** The promise is on its way, kept, queued, or was given up by the bounded queue. */
  ghost predicate Safe(s: State, p: Promise) {
    InFlight(s, p) || Holds(StoreAt(s, p.target), p.key, p.stamp) || Queued(s, p) || WasLost(s, p)
  }

  predicate Made(s: State, p: Promise) {
    p.since < s.clock
  }

  ghost predicate Accounted(s: State, p: Promise) {
    p in s.promises ==> Made(s, p) && Safe(s, p)
  }

  ghost predicate WriteOk(s: State, op: nat) {
    op in s.writeOps ==>
      var w := s.writeOps[op];
      && w.coord !in w.replicas && Distinct(w.replicas)
      && (forall n :: n in w.acked ==> n in w.replicas)
      && (forall n :: n in Holders(w) ==> Holds(StoreAt(s, n), w.key, w.stamp))
  }

  /** What a holder of an earlier write served is at least that write. */
  ghost predicate ServedOk(s: State, r: ReadOp, op: nat) {
    op in r.after ==>
      && op in s.writeOps
      && r.after[op] <= Holders(s.writeOps[op])
      && |r.after[op]| >= FanOut.Quorum(|s.writeOps[op].replicas|)
      && (s.writeOps[op].key == r.key ==>
            forall n :: n in r.after[op] && n in r.served ==>
              r.served[n].Some? && Covers(r.served[n].value.stamp, s.writeOps[op].stamp))
  }

  /** No node's vote is reduced twice. */
  ghost predicate OncePerNode(votes: seq<Noted>) {
    forall i, j :: 0 <= i < j < |votes| ==> votes[i].node != votes[j].node
  }

  ghost predicate ReadOk(s: State, rid: nat) {
    rid in s.readOps ==>
      var r := s.readOps[rid];
      && r.coord in r.served
      && (forall op :: ServedOk(s, r, op))
      && OncePerNode(r.votes)
      && (forall i :: 0 <= i < |r.votes| ==>
            && r.votes[i].node != r.coord
            && (r.votes[i].vote.Answered? ==>
                  r.votes[i].node in r.served && r.votes[i].vote == Reply(r.served[r.votes[i].node])))
  }

  ghost predicate Inv(s: State) {
    && (forall node :: QueueOk(s, node))
    && (forall id :: CallOk(s, id))
    && (forall p :: Accounted(s, p))
    && (forall op :: WriteOk(s, op))
    && (forall rid :: ReadOk(s, rid))
  }

  // ---------------------------------------------------------------- what no step undoes

  /** Stores only gain: what a node answers for never gets older. */
  ghost predicate StoresExtend(s: State, t: State) {
    forall n, k, st :: Holds(StoreAt(s, n), k, st) ==> Holds(StoreAt(t, n), k, st)
  }

  ghost predicate QueueExtends(q: Queue, r: Queue) {
    && (WellFormed(q) ==> WellFormed(r))
    && (forall h :: h in q.issued ==> h in r.issued && r.issued[h] == q.issued[h])
  }

  ghost predicate QueuesExtend(s: State, t: State) {
    forall n :: QueueExtends(QueueAt(s, n), QueueAt(t, n))
  }

  /** A write's identity is fixed; its acknowledgements only grow. */
  ghost predicate WritesExtend(s: State, t: State) {
    forall op :: op in s.writeOps ==>
      && op in t.writeOps && t.writeOps[op] == s.writeOps[op].(acked := t.writeOps[op].acked)
      && s.writeOps[op].acked <= t.writeOps[op].acked
  }

  ghost predicate Extends(s: State, t: State) {
    && StoresExtend(s, t) && QueuesExtend(s, t) && WritesExtend(s, t)
    && s.lost <= t.lost && s.nextCall <= t.nextCall && s.clock <= t.clock
  }

  lemma ApplyExtends(s: State, node: NodeId, req: Request)
    ensures Extends(s, Apply(s, node, req))
    ensures Holds(StoreAt(Apply(s, node, req), node), req.key, StampOf(req))
  {
    var t := Apply(s, node, req);
    forall n, k, st | Holds(StoreAt(s, n), k, st) ensures Holds(StoreAt(t, n), k, st) {
      PutHolds(StoreAt(s, node), req.key, EntryOfRequest(req), k, st);
    }
  }

  lemma QueueOpExtends(s: State, t: State, node: NodeId, op: Op)
    requires WellFormed(QueueAt(s, node)) && HintQueueSpec.Enabled(QueueAt(s, node), op)
    requires t.queues == s.queues[node := HintQueueSpec.Step(QueueAt(s, node), op)]
    ensures QueuesExtend(s, t)
  {
    hide HintQueueSpec.Step, Coherent;
    StepKeeps(QueueAt(s, node), op);
    forall n ensures QueueExtends(QueueAt(s, n), QueueAt(t, n)) {}
  }

  // ---------------------------------------------------------------- what a step leaves alone stays in order

  lemma KeepCalls(s: State, t: State)
    requires Extends(s, t)
    requires forall id :: CallOk(s, id)
    requires forall id :: id in t.calls ==> (id in s.calls && t.calls[id] == s.calls[id]) || CallOk(t, id)
    ensures forall id :: CallOk(t, id)
  {
    forall id ensures CallOk(t, id) {
      assert CallOk(s, id);
      if id in t.calls && id in s.calls && t.calls[id] == s.calls[id] {
        assert QueueExtends(QueueAt(s, t.calls[id].coord), QueueAt(t, t.calls[id].coord));
      }
    }
  }

  lemma KeepWrites(s: State, t: State)
    requires Extends(s, t)
    requires forall op :: WriteOk(s, op)
    requires forall op :: op in t.writeOps ==> (op in s.writeOps && t.writeOps[op] == s.writeOps[op]) || WriteOk(t, op)
    ensures forall op :: WriteOk(t, op)
  {
    forall op ensures WriteOk(t, op) { assert WriteOk(s, op); }
  }

  lemma KeepReads(s: State, t: State)
    requires Extends(s, t)
    requires forall rid :: ReadOk(s, rid)
    requires forall rid :: rid in t.readOps ==> (rid in s.readOps && t.readOps[rid] == s.readOps[rid]) || ReadOk(t, rid)
    ensures forall rid :: ReadOk(t, rid)
  {
    forall rid ensures ReadOk(t, rid) {
      assert ReadOk(s, rid);
      if rid in t.readOps && rid in s.readOps && t.readOps[rid] == s.readOps[rid] {
        forall op ensures ServedOk(t, t.readOps[rid], op) { assert ServedOk(s, s.readOps[rid], op); }
      }
    }
  }

  lemma KeepPromises(s: State, t: State)
    requires Extends(s, t)
    requires forall p :: Accounted(s, p)
    requires forall p :: Made(s, p) && InFlight(s, p) ==> Safe(t, p)
    requires forall p :: Made(s, p) && Queued(s, p) ==> Safe(t, p)
    requires forall p :: p in t.promises ==> p in s.promises || (Made(t, p) && Safe(t, p))
    ensures forall p :: Accounted(t, p)
  {
    forall p ensures Accounted(t, p) {
      assert Accounted(s, p);
      if WasLost(s, p) {
        var l :| l in s.lost && l.coord == p.coord && l.at > p.since && HintMeets(l.hint, p);
        assert l in t.lost;
      }
    }
  }

  lemma KeepQueues(s: State, t: State)
    requires Extends(s, t) && forall node :: QueueOk(s, node)
    ensures forall node :: QueueOk(t, node)
  {
    forall node ensures QueueOk(t, node) {
      assert QueueOk(s, node) && QueueExtends(QueueAt(s, node), QueueAt(t, node));
    }
  }

  /** Outstanding write sends survive, so promises in flight stay in flight. */
  lemma CallsCarryOver(s: State, t: State)
    requires forall id :: id in s.calls ==> id in t.calls && t.calls[id] == s.calls[id].(applied := t.calls[id].applied)
    ensures forall p :: InFlight(s, p) ==> Safe(t, p)
  {
    forall p | InFlight(s, p) ensures Safe(t, p) {
      var id :| id in s.calls && s.calls[id].purpose.ForWrite? && s.calls[id].coord == p.coord
        && HintMeets(Hint(s.calls[id].target, s.calls[id].req, 0), p);
      assert id in t.calls;
      assert InFlight(t, p);
    }
  }

  lemma HintsCarryOver(s: State, t: State)
    requires s.queues == t.queues
    ensures forall p :: Queued(s, p) ==> Safe(t, p)
  {
    forall p | Queued(s, p) ensures Safe(t, p) { assert Queued(t, p); }
  }

  // ---------------------------------------------------------------- the steps, one by one

  /** Deliveries, repairs and repeated deliveries: only a store changes. */
  lemma ApplyKeeps(s: State, node: NodeId, req: Request, t: State)
    requires Inv(s)
    requires t == Apply(s, node, req).(sent := t.sent)
    ensures Inv(t)
  {
    hide CallOk, WriteOk, ReadOk, Accounted, QueueOk, QueuesExtend, WritesExtend;
    ApplyExtends(s, node, req);
    SameExtends(s, Apply(s, node, req), t);
    KeepQueues(s, t);
    KeepCalls(s, t);
    KeepWrites(s, t);
    KeepReads(s, t);
    CallsCarryOver(s, t);
    HintsCarryOver(s, t);
    KeepPromises(s, t);
  }

  lemma SameExtends(s: State, u: State, t: State)
    requires Extends(s, u) && t.stores == u.stores && t.queues == u.queues && t.writeOps == u.writeOps
    requires t.lost == u.lost && t.nextCall >= u.nextCall && t.clock >= u.clock
    ensures Extends(s, t)
  {
    forall n, k, st | Holds(StoreAt(s, n), k, st) ensures Holds(StoreAt(t, n), k, st) {
      assert Holds(StoreAt(u, n), k, st);
    }
    forall n ensures QueueExtends(QueueAt(s, n), QueueAt(t, n)) {
      assert QueueExtends(QueueAt(s, n), QueueAt(u, n));
    }
  }

  lemma DeliverKeeps(s: State, id: nat)
    requires Inv(s) && id in s.calls
    ensures Inv(DoDeliver(s, id))
  {
    hide WriteOk, ReadOk, Accounted, QueueOk;
    var c, t := s.calls[id], DoDeliver(s, id);
    ApplyExtends(s, c.target, c.req);
    SameExtends(s, Apply(s, c.target, c.req), t);
    assert CallOk(t, id) by {
      assert CallOk(s, id);
      assert QueueAt(t, c.coord) == QueueAt(s, c.coord);
      assert StoreAt(t, c.target) == StoreAt(Apply(s, c.target, c.req), c.target);
    }
    KeepQueues(s, t);
    KeepCalls(s, t);
    KeepWrites(s, t);
    KeepReads(s, t);
    CallsCarryOver(s, t);
    HintsCarryOver(s, t);
    KeepPromises(s, t);
  }

  lemma WriteExtends(s: State, op: nat, coord: NodeId, req: Request, replicas: seq<NodeId>)
    requires op !in s.writeOps
    ensures Extends(s, DoWrite(s, op, coord, req, replicas))
  {
    var t := DoWrite(s, op, coord, req, replicas);
    ApplyExtends(s, coord, req);
    SameExtends(s, Apply(s, coord, req), t.(writeOps := s.writeOps));
    forall n ensures QueueExtends(QueueAt(s, n), QueueAt(t, n)) {
      assert QueueExtends(QueueAt(s, n), QueueAt(t.(writeOps := s.writeOps), n));
    }
    forall n, k, st | Holds(StoreAt(s, n), k, st) ensures Holds(StoreAt(t, n), k, st) {
      assert Holds(StoreAt(t.(writeOps := s.writeOps), n), k, st);
    }
  }

  lemma SendOnly(s: State, calls: seq<Call>)
    requires forall id :: CallOk(s, id)
    ensures var t := Send(s, calls);
            && t == s.(calls := t.calls, nextCall := s.nextCall + |calls|, sent := t.sent)
            && (forall id :: id in s.calls ==> id in t.calls && t.calls[id] == s.calls[id])
            && (forall id :: id in t.calls ==>
                  if id < s.nextCall then id in s.calls
                  else id - s.nextCall < |calls| && t.calls[id] == calls[id - s.nextCall])
            && (forall c :: c in calls ==> exists id :: id in t.calls && t.calls[id] == c)
  {
    var t := Send(s, calls);
    forall id | id in s.calls ensures id < s.nextCall { assert CallOk(s, id); }
    forall c | c in calls ensures exists id :: id in t.calls && t.calls[id] == c {
      var k :| 0 <= k < |calls| && calls[k] == c;
      var id := s.nextCall + k;
      assert id in t.calls && t.calls[id] == c;
    }
  }

  lemma WriteCallsOk(s: State, op: nat, coord: NodeId, req: Request, replicas: seq<NodeId>)
    requires (forall id :: CallOk(s, id)) && (forall id :: CallOk(Apply(s, coord, req), id)) && op !in s.writeOps
    ensures forall id :: CallOk(DoWrite(s, op, coord, req, replicas), id)
  {
    var t := DoWrite(s, op, coord, req, replicas);
    WriteExtends(s, op, coord, req, replicas);
    hide DoWrite, Apply, Extends, CallOk;
    forall id | id in t.calls ensures (id in s.calls && t.calls[id] == s.calls[id]) || CallOk(t, id) {
      WriteCallOk(s, op, coord, req, replicas, id);
    }
    KeepCalls(s, t);
  }

  lemma WriteCallOk(s: State, op: nat, coord: NodeId, req: Request, replicas: seq<NodeId>, id: nat)
    requires (forall id :: CallOk(Apply(s, coord, req), id)) && id in DoWrite(s, op, coord, req, replicas).calls
    ensures var t := DoWrite(s, op, coord, req, replicas);
            (id in s.calls && t.calls[id] == s.calls[id]) || CallOk(t, id)
  {
    var t, calls := DoWrite(s, op, coord, req, replicas), WriteCalls(coord, req, replicas, op);
    hide Send, Apply, CallOk;
    SendOnly(Apply(s, coord, req), calls);
    ApplyOnly(s, coord, req);
    if id >= s.nextCall { FreshCallOk(t, id, op, coord, req, replicas, id - s.nextCall); }
  }

  lemma FreshCallOk(t: State, id: nat, op: nat, coord: NodeId, req: Request, replicas: seq<NodeId>, i: nat)
    requires i < |replicas| && id < t.nextCall && id in t.calls
    requires t.calls[id] == Call(coord, replicas[i], req, false, ForWrite(op))
    requires op in t.writeOps && t.writeOps[op] == WriteOp(coord, req.key, StampOf(req), replicas, {})
    ensures CallOk(t, id)
  {
  }

  lemma ApplyOnly(s: State, node: NodeId, req: Request)
    ensures Apply(s, node, req) == s.(stores := Apply(s, node, req).stores)
  {
  }

  /** Every promise a write makes is in flight, and earlier ones still are. */
  lemma WritePromises(s: State, op: nat, coord: NodeId, req: Request, replicas: seq<NodeId>)
    requires forall id :: CallOk(Apply(s, coord, req), id)
    ensures var t := DoWrite(s, op, coord, req, replicas);
            && (forall p :: InFlight(s, p) ==> Safe(t, p))
            && (forall p :: p in t.promises ==> p in s.promises || Safe(t, p))
  {
    var t, calls := DoWrite(s, op, coord, req, replicas), WriteCalls(coord, req, replicas, op);
    hide Send, CallOk, Apply;
    SendOnly(Apply(s, coord, req), calls);
    ApplyOnly(s, coord, req);
    CallsCarryOver(s, t);
    forall p | p in t.promises && p !in s.promises ensures Safe(t, p) {
      var k :| 0 <= k < |replicas| && p == Promise(coord, replicas[k], req.key, StampOf(req), s.clock);
      assert calls[k] in calls;
      assert InFlight(t, p);
    }
  }

  lemma WriteKeeps(s: State, op: nat, coord: NodeId, req: Request, replicas: seq<NodeId>)
    requires Inv(s) && op !in s.writeOps && coord !in replicas && Distinct(replicas)
    ensures Inv(DoWrite(s, op, coord, req, replicas))
  {
    hide CallOk, ReadOk, Accounted, QueueOk, Safe, InFlight, Send;
    var t := DoWrite(s, op, coord, req, replicas);
    WriteExtends(s, op, coord, req, replicas);
    KeepQueues(s, t);
    ApplyKeeps(s, coord, req, Apply(s, coord, req));
    ApplyExtends(s, coord, req);
    WriteCallsOk(s, op, coord, req, replicas);
    SendOnly(Apply(s, coord, req), WriteCalls(coord, req, replicas, op));
    assert WriteOk(t, op);
    KeepWrites(s, t);
    KeepReads(s, t);
    WritePromises(s, op, coord, req, replicas);
    HintsCarryOver(s, t);
    KeepPromises(s, t);
  }

  /** Reads of the queue and of the stores only add to the read's own record. */
  lemma ReadSideKeeps(s: State, t: State, rid: nat)
    requires Inv(s) && t == s.(readOps := t.readOps)
    requires forall r :: r in t.readOps && r != rid ==> r in s.readOps && t.readOps[r] == s.readOps[r]
    requires ReadOk(t, rid)
    ensures Inv(t)
  {
    hide CallOk, WriteOk, ReadOk, Accounted, QueueOk;
    NothingExtends(s, t);
    KeepQueues(s, t);
    KeepCalls(s, t);
    KeepWrites(s, t);
    KeepReads(s, t);
    CallsCarryOver(s, t);
    HintsCarryOver(s, t);
    KeepPromises(s, t);
  }

  lemma NothingExtends(s: State, t: State)
    requires t.stores == s.stores && t.queues == s.queues && t.writeOps == s.writeOps
    requires t.lost == s.lost && t.nextCall == s.nextCall && t.clock == s.clock
    ensures Extends(s, t)
  {
    forall n ensures QueueExtends(QueueAt(s, n), QueueAt(t, n)) {}
  }

  lemma HolderCount(w: WriteOp)
    requires w.coord !in w.acked
    ensures |Holders(w)| == 1 + |w.acked|
  {
  }

  lemma ReadStarts(s: State, rid: nat, coord: NodeId, key: Key)
    requires forall op :: WriteOk(s, op)
    ensures ReadOk(DoRead(s, rid, coord, key), rid)
  {
    var t := DoRead(s, rid, coord, key);
    var r := t.readOps[rid];
    forall op ensures ServedOk(t, r, op) {
      assert WriteOk(s, op);
      if op in r.after { HolderCount(s.writeOps[op]); }
    }
  }

  lemma ReadKeeps(s: State, rid: nat, coord: NodeId, key: Key)
    requires Inv(s) && rid !in s.readOps
    ensures Inv(DoRead(s, rid, coord, key))
  {
    hide CallOk, Accounted, QueueOk, WriteOk, ReadOk;
    ReadStarts(s, rid, coord, key);
    ReadSideKeeps(s, DoRead(s, rid, coord, key), rid);
  }

  lemma ServeKeeps(s: State, rid: nat, node: NodeId)
    requires Inv(s) && rid in s.readOps && node !in s.readOps[rid].served
    ensures Inv(DoServe(s, rid, node))
  {
    hide CallOk, Accounted, QueueOk;
    var t := DoServe(s, rid, node);
    assert ReadOk(s, rid);
    var r := t.readOps[rid];
    forall op ensures ServedOk(t, r, op) {
      assert ServedOk(s, s.readOps[rid], op) && WriteOk(s, op);
    }
    ReadSideKeeps(s, t, rid);
  }

  lemma NoteKeeps(s: State, rid: nat, node: NodeId, failed: bool)
    requires Inv(s) && Enabled(s, Note(rid, node, failed))
    ensures Inv(Next(s, Note(rid, node, failed)))
  {
    hide CallOk, Accounted, QueueOk;
    var t := Next(s, Note(rid, node, failed));
    assert ReadOk(s, rid);
    forall op ensures ServedOk(t, t.readOps[rid], op) { assert ServedOk(s, s.readOps[rid], op); }
    ReadSideKeeps(s, t, rid);
  }

  lemma BudgetKeeps(s: State, coord: NodeId, maxBytes: nat)
    requires Inv(s)
    ensures Inv(Next(s, Budget(coord, maxBytes)))
  {
    hide CallOk, WriteOk, ReadOk, Accounted, Coherent;
    var t := Next(s, Budget(coord, maxBytes));
    assert QueueOk(s, coord);
    QueueOpExtends(s, t, coord, SetMaxBytesOp(maxBytes));
    KeepQueues(s, t);
    KeepCalls(s, t);
    KeepWrites(s, t);
    KeepReads(s, t);
    CallsCarryOver(s, t);
    forall p | Queued(s, p) ensures Safe(t, p) { assert Queued(t, p); }
    KeepPromises(s, t);
  }

  /** An acknowledged write send has been applied, so its promise is kept by the target itself. */
  lemma AckPromises(s: State, id: nat)
    requires CallOk(s, id) && id in s.calls && s.calls[id].applied
    ensures forall p :: InFlight(s, p) ==> Safe(DoAck(s, id), p)
  {
    var t, c := DoAck(s, id), s.calls[id];
    forall p | InFlight(s, p) ensures Safe(t, p) {
      var i :| i in s.calls && s.calls[i].purpose.ForWrite? && s.calls[i].coord == p.coord
        && HintMeets(Hint(s.calls[i].target, s.calls[i].req, 0), p);
      if i == id {
        assert Holds(StoreAt(t, p.target), p.key, p.stamp);
      } else {
        assert i in t.calls && t.calls[i] == s.calls[i];
        assert InFlight(t, p);
      }
    }
  }

  /** A replay that succeeded removes the hint its handle names, which the target now has. */
  lemma ReplayedHint(s: State, id: nat)
    requires CallOk(s, id) && id in s.calls && s.calls[id].applied && s.calls[id].purpose.ForReplay?
    requires QueueOk(s, s.calls[id].coord)
    ensures forall p :: Queued(s, p) ==> Safe(DoAck(s, id), p)
  {
    var t, c := DoAck(s, id), s.calls[id];
    var q := QueueAt(s, c.coord);
    var k := IndexOf(q.live, c.purpose.handle);
    forall p | Queued(s, p) ensures Safe(t, p) {
      var e :| e in QueueAt(s, p.coord).live && HintMeets(e.hint, p);
      if p.coord == c.coord && k < |q.live| && e == q.live[k] {
        assert Holds(StoreAt(t, p.target), p.key, p.stamp);
      } else {
        assert e in QueueAt(t, p.coord).live by {
          if p.coord == c.coord && k < |q.live| { RemoveAtKeepsOthers(q.live, k, e); }
        }
        assert Queued(t, p);
      }
    }
  }

  lemma RemoveAtKeepsOthers<T>(s: seq<T>, k: nat, e: T)
    requires k < |s| && e in s && e != s[k]
    ensures e in RemoveAt(s, k)
  {
    var j :| 0 <= j < |s| && s[j] == e;
    assert RemoveAt(s, k)[if j < k then j else j - 1] == e;
  }

  lemma AckedHolds(s: State, id: nat)
    requires CallOk(s, id) && id in s.calls && s.calls[id].applied && s.calls[id].purpose.ForWrite?
    requires WriteOk(s, s.calls[id].purpose.op)
    ensures WriteOk(DoAck(s, id), s.calls[id].purpose.op)
  {
    var t, c := DoAck(s, id), s.calls[id];
    var w := s.writeOps[c.purpose.op];
    assert Holds(StoreAt(s, c.target), w.key, w.stamp);
    forall n | n in Holders(t.writeOps[c.purpose.op]) ensures Holds(StoreAt(t, n), w.key, w.stamp) {
      assert n in Holders(w) || n == c.target;
    }
  }

  lemma AckKeeps(s: State, id: nat)
    requires Inv(s) && id in s.calls && s.calls[id].applied
    ensures Inv(DoAck(s, id))
  {
    hide ReadOk, Accounted, Coherent, Remove, Safe, InFlight, Queued;
    var t, c := DoAck(s, id), s.calls[id];
    assert CallOk(s, id) && QueueOk(s, c.coord);
    AckPromises(s, id);
    if c.purpose.ForReplay? {
      QueueOpExtends(s, t, c.coord, RemoveOp(c.purpose.handle));
      ReplayedHint(s, id);
    } else {
      HintsCarryOver(s, t);
      forall n ensures QueueExtends(QueueAt(s, n), QueueAt(t, n)) {}
      AckedHolds(s, id);
    }
    assert Extends(s, t);
    hide CallOk, WriteOk, QueueOk;
    KeepQueues(s, t);
    KeepCalls(s, t);
    KeepWrites(s, t);
    KeepReads(s, t);
    KeepPromises(s, t);
  }

  ghost predicate CoveredBy(live: seq<Live>, p: Promise) {
    exists e :: e in live && HintMeets(e.hint, p)
  }

  lemma AcceptedPushCovers(q: Queue, h: Hint, handle: Handle, p: Promise)
    requires Judge(q, h) == Accepted && CoveredBy(q.live, p) && !HintMeets(h, p)
    ensures CoveredBy(Push(q, h, handle).live, p) || exists l :: l in PushLosses(q, h) && HintMeets(l, p)
  {
    var k := Find(q.live, h.target, h.req.key);
    var e :| e in q.live && HintMeets(e.hint, p);
    assert k < |q.live| ==> e != q.live[k];
    assert e in Coalesced(q.live, h) by { if k < |q.live| { RemoveAtKeepsOthers(q.live, k, e); } }
    PushSplits(q, h, handle);
    hide Push, Coalesced, Evicted, Find, Judge;
    assert e in Coalesced(q.live, h) + [Live(handle, h)];
    if e in Evicted(q, h) {
      assert e.hint in PushLosses(q, h);
    } else {
      assert e in Push(q, h, handle).live;
    }
  }

  /** A push forgets a promise only by dropping or refusing a hint that met it. */
  lemma PushCovers(q: Queue, h: Hint, handle: Handle, p: Promise)
    requires CoveredBy(q.live, p) || HintMeets(h, p)
    ensures CoveredBy(Push(q, h, handle).live, p) || exists l :: l in PushLosses(q, h) && HintMeets(l, p)
  {
    hide DropCount, TotalBytes;
    var r, k := Push(q, h, handle), Find(q.live, h.target, h.req.key);
    if HintMeets(h, p) {
      match Judge(q, h)
      case TooLarge => assert h in PushLosses(q, h);
      case Older => assert q.live[k] in q.live && HintMeets(q.live[k].hint, p);
      case Accepted => assert Live(handle, h) in r.live;
    } else if Judge(q, h) == Accepted {
      AcceptedPushCovers(q, h, handle, p);
    }
  }

  lemma FailPromises(s: State, id: nat, expiresAt: int, handle: Handle)
    requires id in s.calls
    ensures forall p :: Made(s, p) && (InFlight(s, p) || Queued(s, p)) ==> Safe(DoFail(s, id, expiresAt, handle), p)
  {
    hide Push, PushLosses;
    var t, c := DoFail(s, id, expiresAt, handle), s.calls[id];
    var h, q := Hint(c.target, c.req, expiresAt), QueueAt(s, c.coord);
    forall p | Made(s, p) && (InFlight(s, p) || Queued(s, p)) ensures Safe(t, p) {
      if p.coord == c.coord && c.purpose.ForWrite? && (CoveredBy(q.live, p) || HintMeets(h, p)) {
        PushCovers(q, h, handle, p);
        if CoveredBy(QueueAt(t, c.coord).live, p) {
          assert Queued(t, p);
        } else {
          var l :| l in PushLosses(q, h) && HintMeets(l, p);
          assert Loss(p.coord, l, s.clock) in t.lost;
          assert WasLost(t, p);
        }
      } else if Queued(s, p) {
        assert QueueAt(t, p.coord) == QueueAt(s, p.coord);
        assert Queued(t, p);
      } else {
        var i :| i in s.calls && s.calls[i].purpose.ForWrite? && s.calls[i].coord == p.coord
          && HintMeets(Hint(s.calls[i].target, s.calls[i].req, 0), p);
        assert i in t.calls && t.calls[i] == s.calls[i];
        assert InFlight(t, p);
      }
    }
  }

  lemma FailKeeps(s: State, id: nat, expiresAt: int, handle: Handle)
    requires Inv(s) && id in s.calls && handle !in QueueAt(s, s.calls[id].coord).issued
    ensures Inv(DoFail(s, id, expiresAt, handle))
  {
    hide ReadOk, Accounted, Coherent, Push, PushLosses, Safe, InFlight, Queued, CallOk, WriteOk;
    var t, c := DoFail(s, id, expiresAt, handle), s.calls[id];
    assert QueueOk(s, c.coord);
    FailPromises(s, id, expiresAt, handle);
    if c.purpose.ForWrite? {
      QueueOpExtends(s, t, c.coord, PushOp(Hint(c.target, c.req, expiresAt), handle));
    } else {
      NothingExtends(s, t);
    }
    hide QueueOk;
    KeepQueues(s, t);
    KeepCalls(s, t);
    KeepWrites(s, t);
    KeepReads(s, t);
    KeepPromises(s, t);
  }

  /** A replay tick forgets only hints that expired, and sends exactly what the copied handles name. */
  lemma ReplayCallsOk(s: State, coord: NodeId, now: int, max: nat)
    requires (forall id :: CallOk(s, id)) && QueueOk(s, coord)
    ensures forall id :: CallOk(DoReplay(s, coord, now, max), id)
  {
    var t := DoReplay(s, coord, now, max);
    ReplayExtends(s, coord, now, max);
    hide DoReplay, Extends, CallOk;
    forall id | id in t.calls ensures (id in s.calls && t.calls[id] == s.calls[id]) || CallOk(t, id) {
      ReplayCallOk(s, coord, now, max, id);
    }
    KeepCalls(s, t);
  }

  lemma ExpiredCallsOk(s: State, coord: NodeId, now: int, max: nat)
    requires forall id :: CallOk(s, id)
    ensures forall id :: CallOk(ExpireHints(s, coord, now, max), id)
  {
    var u := ExpireHints(s, coord, now, max);
    forall id ensures CallOk(u, id) { assert CallOk(s, id); }
  }

  lemma ReplayCallOk(s: State, coord: NodeId, now: int, max: nat, id: nat)
    requires (forall id :: CallOk(s, id)) && QueueOk(s, coord) && id in DoReplay(s, coord, now, max).calls
    ensures var t := DoReplay(s, coord, now, max);
            (id in s.calls && t.calls[id] == s.calls[id]) || CallOk(t, id)
  {
    var q := QueueAt(s, coord);
    ReplayIssued(q, now, max);
    ExpiredCallsOk(s, coord, now, max);
    hide Send, Scan, Coherent;
    SendOnly(ExpireHints(s, coord, now, max), ReplayCalls(coord, Scan(q.live, now, max).1));
  }

  lemma ReplayIssued(q: Queue, now: int, max: nat)
    requires WellFormed(q)
    ensures forall i :: 0 <= i < |Scan(q.live, now, max).1| ==>
              var e := Scan(q.live, now, max).1[i];
              e.handle in q.issued && q.issued[e.handle] == e.hint
  {
    ScanKeeps(q.live, now, max);
    var kept, batch := Scan(q.live, now, max).0, Scan(q.live, now, max).1;
    forall i | 0 <= i < |batch| ensures batch[i].handle in q.issued && q.issued[batch[i].handle] == batch[i].hint {
      assert batch[i] == kept[i] && kept[i] in kept;
      assert batch[i] in q.live;
    }
  }

  lemma ReplayExtends(s: State, coord: NodeId, now: int, max: nat)
    requires QueueOk(s, coord)
    ensures Extends(s, DoReplay(s, coord, now, max))
  {
    QueueOpExtends(s, DoReplay(s, coord, now, max), coord, SnapshotOp(now, max));
  }

  lemma ReplayPromises(s: State, coord: NodeId, now: int, max: nat)
    requires forall id :: CallOk(ExpireHints(s, coord, now, max), id)
    ensures forall p :: Made(s, p) && (InFlight(s, p) || Queued(s, p)) ==> Safe(DoReplay(s, coord, now, max), p)
  {
    var t, q, u := DoReplay(s, coord, now, max), QueueAt(s, coord), ExpireHints(s, coord, now, max);
    SendOnly(u, ReplayCalls(coord, Scan(q.live, now, max).1));
    hide Send, Scan, CallOk;
    CallsCarryOver(s, t);
    forall p | Made(s, p) && Queued(s, p) ensures Safe(t, p) {
      var e :| e in QueueAt(s, p.coord).live && HintMeets(e.hint, p);
      if p.coord != coord || e in Scan(q.live, now, max).0 {
        assert Queued(t, p);
      } else {
        assert Loss(coord, e.hint, s.clock) in t.lost;
        assert WasLost(t, p);
      }
    }
  }

  lemma ReplayKeeps(s: State, coord: NodeId, now: int, max: nat)
    requires Inv(s)
    ensures Inv(DoReplay(s, coord, now, max))
  {
    hide ReadOk, Accounted, Coherent, Safe, InFlight, Queued, WriteOk, Scan, Send, Extends;
    var t, u := DoReplay(s, coord, now, max), ExpireHints(s, coord, now, max);
    assert QueueOk(s, coord);
    ReplayExtends(s, coord, now, max);
    ReplayCallsOk(s, coord, now, max);
    forall id ensures CallOk(u, id) { assert CallOk(s, id); }
    ReplayPromises(s, coord, now, max);
    SendOnly(u, ReplayCalls(coord, Scan(QueueAt(s, coord).live, now, max).1));
    hide QueueOk, CallOk;
    KeepQueues(s, t);
    KeepWrites(s, t);
    KeepReads(s, t);
    KeepPromises(s, t);
  }

  /** Every step keeps the invariant. */
  lemma NextKeeps(s: State, step: Step)
    requires Inv(s) && Enabled(s, step)
    ensures Inv(Next(s, step))
  {
    hide Inv, Apply;
    match step
    case Write(op, coord, req, replicas) => WriteKeeps(s, op, coord, req, replicas);
    case Deliver(id) => DeliverKeeps(s, id);
    case Redeliver(msg) => ApplyOnly(s, msg.target, msg.req); ApplyKeeps(s, msg.target, msg.req, Next(s, step));
    case Ack(id) => AckKeeps(s, id);
    case Fail(id, expiresAt, handle) => FailKeeps(s, id, expiresAt, handle);
    case Replay(coord, now, max) => ReplayKeeps(s, coord, now, max);
    case Repair(coord, req, targets) => ApplyOnly(s, coord, req); ApplyKeeps(s, coord, req, Next(s, step));
    case Budget(coord, maxBytes) => BudgetKeeps(s, coord, maxBytes);
    case Read(rid, coord, key) => ReadKeeps(s, rid, coord, key);
    case Serve(rid, node) => ServeKeeps(s, rid, node);
    case Note(rid, node, failed) => NoteKeeps(s, rid, node, failed);
  }

  // ---------------------------------------------------------------- whole runs

  ghost predicate EnabledSteps(s: State, steps: seq<Step>)
    decreases |steps|
  {
    steps == [] || (Enabled(s, steps[0]) && EnabledSteps(Next(s, steps[0]), steps[1..]))
  }

  ghost function Execute(s: State, steps: seq<Step>): State
    requires EnabledSteps(s, steps)
    decreases |steps|
  {
    if steps == [] then s else Execute(Next(s, steps[0]), steps[1..])
  }

  lemma {:induction false} RunsKeep(s: State, steps: seq<Step>)
    requires Inv(s) && EnabledSteps(s, steps)
    ensures Inv(Execute(s, steps))
    decreases |steps|
  {
    hide Inv, Next;
    if steps == [] {
    } else {
      NextKeeps(s, steps[0]);
      RunsKeep(Next(s, steps[0]), steps[1..]);
    }
  }

  lemma InitOk()
    ensures Inv(INIT)
  {
    forall rid ensures ReadOk(INIT, rid) {}
  }

  /**
   No committed write is silently forgotten: after any run, each write is, for each replica it was
   addressed to, still being sent, covered by what that replica stores, covered by a queued hint
   for that replica and key, or covered by a hint the bounded queue is recorded to have given up since.
   */
  lemma NothingForgotten(steps: seq<Step>, p: Promise)
    requires EnabledSteps(INIT, steps) && p in Execute(INIT, steps).promises
    ensures var s := Execute(INIT, steps);
            InFlight(s, p) || Holds(StoreAt(s, p.target), p.key, p.stamp) || Queued(s, p) || WasLost(s, p)
  {
    InitOk();
    RunsKeep(INIT, steps);
    assert Accounted(Execute(INIT, steps), p);
  }

  // ---------------------------------------------------------------- quorum intersection

  function VotesOf(r: ReadOp): seq<Vote> {
    seq(|r.votes|, i requires 0 <= i < |r.votes| => r.votes[i].vote)
  }

  /** What the read returns if it decides on the votes it has. */
  function Outcome(r: ReadOp, quorum: nat, total: nat): Option<Entry>
    requires r.coord in r.served
  {
    NoteAll(quorum, total, r.served[r.coord], VotesOf(r)).entry
  }

  /** The nodes whose stores the read has consulted: its own, and every replica that answered. */
  ghost function Answering(r: ReadOp): set<NodeId> {
    {r.coord} + set v | v in r.votes && v.vote.Answered? :: v.node
  }

  lemma {:induction false} TwoSetsMeet<T>(a: set<T>, b: set<T>, all: set<T>)
    requires a <= all && b <= all && |a| + |b| > |all|
    ensures exists x :: x in a && x in b
  {
    if a * b == {} {
      assert |a + b| == |a| + |b|;
      SubsetSize(a + b, all);
    } else {
      var x :| x in a * b;
    }
  }

  /** A reply counts and carries its stamp, as long as the stamp's version is not zero. */
  lemma ReplyIsCandidate(local: Option<Entry>, vs: seq<Vote>, v: Vote, e: Entry)
    requires v in vs && v == Reply(Some(e)) && e.stamp.version != 0
    ensures exists c :: Candidate(local, vs, c) && c.stamp == e.stamp
  {
    assert Counted(v);
    assert Candidate(local, vs, EntryOf(v.res));
  }

  /** The nodes a write was addressed to, its coordinator included. */
  function Members(w: WriteOp): set<NodeId> {
    {w.coord} + set n | n in w.replicas
  }

  lemma MemberCount(w: WriteOp)
    requires w.coord !in w.replicas && Distinct(w.replicas)
    ensures |Members(w)| == 1 + |w.replicas|
  {
    DistinctSize(w.replicas, set n | n in w.replicas);
  }

  /** Some node both holds the write and answered the read. */
  lemma AnswererHoldsWrite(s: State, op: nat, rid: nat) returns (n: NodeId)
    requires Inv(s) && rid in s.readOps && op in s.readOps[rid].after && op in s.writeOps
    requires var w, r := s.writeOps[op], s.readOps[rid];
             && Answering(r) <= Members(w)
             && |Answering(r)| > |Members(w)| - FanOut.Quorum(|w.replicas|)
    ensures n in s.readOps[rid].after[op] && n in Answering(s.readOps[rid])
  {
    var w, r := s.writeOps[op], s.readOps[rid];
    assert WriteOk(s, op) && ReadOk(s, rid) && ServedOk(s, r, op);
    MemberCount(w);
    TwoSetsMeet(r.after[op], Answering(r), Members(w));
    n :| n in r.after[op] && n in Answering(r);
  }

  /** An answering holder's entry is among the candidates the read reduces. */
  lemma AnswerIsCandidate(s: State, op: nat, rid: nat, n: NodeId)
    requires ReadOk(s, rid) && rid in s.readOps && op in s.readOps[rid].after && op in s.writeOps
    requires var w, r := s.writeOps[op], s.readOps[rid];
             w.key == r.key && w.stamp.version != 0 && n in r.after[op] && n in Answering(r)
    ensures var w, r := s.writeOps[op], s.readOps[rid];
            exists c :: Candidate(r.served[r.coord], VotesOf(r), c) && Covers(c.stamp, w.stamp)
  {
    var w, r := s.writeOps[op], s.readOps[rid];
    assert ServedOk(s, r, op);
    var local, vs := r.served[r.coord], VotesOf(r);
    if n == r.coord {
      assert Candidate(local, vs, local.value);
    } else {
      var i :| 0 <= i < |r.votes| && r.votes[i].node == n && r.votes[i].vote.Answered?;
      assert vs[i] == Reply(Some(r.served[n].value));
      ReplyIsCandidate(local, vs, vs[i], r.served[n].value);
    }
  }

  /** In any state of the invariant: more than N - W answers include a holder's, and its stamp or a later one wins. */
  lemma HolderIsHeard(s: State, op: nat, rid: nat, quorum: nat, total: nat)
    requires Inv(s) && rid in s.readOps && op in s.readOps[rid].after && op in s.writeOps
    requires var w, r := s.writeOps[op], s.readOps[rid];
             && w.key == r.key && w.stamp.version != 0
             && Answering(r) <= Members(w)
             && |Answering(r)| > |Members(w)| - FanOut.Quorum(|w.replicas|)
    ensures var w, r := s.writeOps[op], s.readOps[rid];
            && r.coord in r.served
            && Outcome(r, quorum, total).Some? && Covers(Outcome(r, quorum, total).value.stamp, w.stamp)
            && Outcome(r, quorum, total).value.stamp.version >= w.stamp.version
  {
    assert ReadOk(s, rid);
    hide Inv, Candidate, NoteAll;
    var n := AnswererHoldsWrite(s, op, rid);
    AnswerIsCandidate(s, op, rid, n);
    var r := s.readOps[rid];
    var c :| Candidate(r.served[r.coord], VotesOf(r), c) && Covers(c.stamp, s.writeOps[op].stamp);
    NoteAllIsMaximum(quorum, total, r.served[r.coord], VotesOf(r));
    CompareIsTotalOrder(Outcome(r, quorum, total).value.stamp, c.stamp, s.writeOps[op].stamp);
    CoversInFields(Outcome(r, quorum, total).value.stamp, s.writeOps[op].stamp);
  }

  /**
   After any run: a read that began once a write had its quorum, and has heard from more than
   N - W of the write's N members, returns a stamp at least as new as the write's.
   */
  lemma QuorumReadSeesWrite(steps: seq<Step>, op: nat, rid: nat, quorum: nat, total: nat)
    requires EnabledSteps(INIT, steps)
    requires var s := Execute(INIT, steps);
             && rid in s.readOps && op in s.readOps[rid].after && op in s.writeOps
             && var w, r := s.writeOps[op], s.readOps[rid];
             && w.key == r.key && w.stamp.version != 0
             && Answering(r) <= Members(w)
             && |Answering(r)| > |Members(w)| - FanOut.Quorum(|w.replicas|)
    ensures var s := Execute(INIT, steps);
            var w, r := s.writeOps[op], s.readOps[rid];
            && r.coord in r.served
            && Outcome(r, quorum, total).Some? && Covers(Outcome(r, quorum, total).value.stamp, w.stamp)
            && Outcome(r, quorum, total).value.stamp.version >= w.stamp.version
  {
    InitOk();
    RunsKeep(INIT, steps);
    HolderIsHeard(Execute(INIT, steps), op, rid, quorum, total);
  }

  ghost function Voters(votes: seq<Noted>): set<NodeId> {
    set v | v in votes && v.vote.Answered? :: v.node
  }

  /** Each acknowledgement stands for a node that answered. */
  lemma {:induction false} VotesBoundVoters(votes: seq<Noted>, vs: seq<Vote>)
    requires OncePerNode(votes) && |vs| == |votes| && forall i :: 0 <= i < |vs| ==> vs[i] == votes[i].vote
    ensures CountedVotes(vs) <= |Voters(votes)|
    decreases |votes|
  {
    if votes == [] {
    } else {
      var init, v := votes[..|votes| - 1], votes[|votes| - 1];
      hide Voters, OncePerNode, Counted;
      assert votes == init + [v];
      VotersSnoc(init, v);
      VotesBoundVoters(init, vs[..|vs| - 1]);
      CountedAnswers(v.vote);
    }
  }

  lemma VotersSnoc(init: seq<Noted>, v: Noted)
    requires OncePerNode(init + [v])
    ensures OncePerNode(init) && v.node !in Voters(init)
    ensures Voters(init + [v]) == if v.vote.Answered? then Voters(init) + {v.node} else Voters(init)
  {
    var all := init + [v];
    assert all[|init|] == v && forall i :: 0 <= i < |init| ==> all[i] == init[i];
  }

  lemma CountedAnswers(v: Vote)
    ensures Counted(v) ==> v.Answered?
  {
  }

  lemma AcksBoundAnswers(s: State, rid: nat, quorum: nat, total: nat)
    requires ReadOk(s, rid) && rid in s.readOps
    ensures var r := s.readOps[rid];
            NoteAll(quorum, total, r.served[r.coord], VotesOf(r)).acks <= |Answering(r)|
  {
    var r := s.readOps[rid];
    NoteAllIsMaximum(quorum, total, r.served[r.coord], VotesOf(r));
    VotesBoundVoters(r.votes, VotesOf(r));
    assert Answering(r) == {r.coord} + Voters(r.votes) && r.coord !in Voters(r.votes);
  }

  /**
   Read and write quorums overlap: after any run, a read that began once a write had its quorum W and that collected
   R acknowledgements with R + W > N returns a stamp at least as new as the write's.
   */
  lemma OverlappingQuorums(steps: seq<Step>, op: nat, rid: nat, quorum: nat, total: nat)
    requires EnabledSteps(INIT, steps)
    requires var s := Execute(INIT, steps);
             && rid in s.readOps && op in s.readOps[rid].after && op in s.writeOps
             && var w, r := s.writeOps[op], s.readOps[rid];
             && w.key == r.key && w.stamp.version != 0
             && Answering(r) <= Members(w) && r.coord in r.served
             && NoteAll(quorum, total, r.served[r.coord], VotesOf(r)).acks >= quorum
             && quorum + FanOut.Quorum(|w.replicas|) > |Members(w)|
    ensures var s := Execute(INIT, steps);
            var w, r := s.writeOps[op], s.readOps[rid];
            && Outcome(r, quorum, total).Some? && Covers(Outcome(r, quorum, total).value.stamp, w.stamp)
            && Outcome(r, quorum, total).value.stamp.version >= w.stamp.version
  {
    InitOk();
    RunsKeep(INIT, steps);
    var s := Execute(INIT, steps);
    assert ReadOk(s, rid);
    hide Inv, NoteAll, ReadOk, EnabledSteps, Execute;
    AcksBoundAnswers(s, rid, quorum, total);
    QuorumReadSeesWrite(steps, op, rid, quorum, total);
  }

  lemma {:induction false} ExecuteLast(s: State, steps: seq<Step>, last: Step)
    requires EnabledSteps(s, steps) && Enabled(Execute(s, steps), last)
    ensures EnabledSteps(s, steps + [last]) && Execute(s, steps + [last]) == Next(Execute(s, steps), last)
    decreases |steps|
  {
    hide Enabled, Next;
    if steps == [] {
      assert [] + [last] == [last] && [last][1..] == [];
      assert EnabledSteps(Next(s, last), []);
    } else {
      assert (steps + [last])[1..] == steps[1..] + [last];
      ExecuteLast(Next(s, steps[0]), steps[1..], last);
    }
  }

  lemma ExecuteNone(s: State)
    ensures EnabledSteps(s, []) && Execute(s, []) == s
  {
  }
}
