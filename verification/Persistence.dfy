/**
 Crash safety of the write-ahead log, segment sealing and snapshot rotation. Each step is one
 atomic file operation or one lock-protected memory action; a crash may fall between any two of
 them, or cut a log append short at any record. File contents are kept abstract: a log file is
 the sequence of records that decode from it, a snapshot is the store it restores.
 */
module Persistence {
  import opened Common
  import opened Lww

  /** Keys are striped over `shards` shards; a snapshot is taken shard by shard. */
  datatype Config = Config(shards: nat, hash: Key -> nat)

  predicate ValidConfig(cfg: Config) {
    cfg.shards > 0
  }

  function ShardOf(cfg: Config, key: Key): nat
    requires ValidConfig(cfg)
  {
    cfg.hash(key) % cfg.shards
  }

  function AllShards(n: nat): (r: set<nat>)
    ensures forall i :: i in r <==> 0 <= i < n
  {
    if n == 0 then {} else AllShards(n - 1) + {n - 1}
  }

  /** Named snapshots, the one CURRENT names, sealed segments by number, and the active log if it exists. */
  datatype Disk = Disk(snapshots: map<nat, Store>, current: Option<nat>, sealed: map<nat, seq<Write>>,
                       active: Option<seq<Write>>)

  /** Where the manager is in its multi-step operations. */
  datatype Phase =
    | Down
    | Idle
    | Sealing                                        // active log renamed away, fresh one not yet in place
    | Capturing(captured: Store, todo: set<nat>)     // compaction is copying the store
    | Written(name: nat)                             // snapshot file in place, CURRENT not yet moved
    | Published(name: nat)                           // CURRENT moved: old snapshots and logs may go

  datatype State = State(
    disk: Disk,
    phase: Phase,
    store: Store,
    pending: seq<Write>,
    nextSeq: nat,
    drained: set<Write>,     // every record a completed drain has appended
    written: set<Write>)     // every write the store ever accepted

  const INIT: State := State(Disk(map[], None, map[], None), Down, map[], [], 1, {}, {})

  // ---------------------------------------------------------------- recovery

  /** One more than the largest segment number, or 0. */
  ghost function Top(keys: set<nat>): (n: nat)
    ensures forall k :: k in keys ==> k < n
    ensures keys != {} ==> n > 0 && n - 1 in keys
  {
    if keys == {} then 0
    else
      var k :| k in keys;
      var n := Top(keys - {k});
      assert forall j :: j in keys ==> j == k || j in keys - {k};
      if n > k then n else k + 1
  }

  /** Sealed segments below `n` in number order. */
  function Segments(sealed: map<nat, seq<Write>>, n: nat): seq<Write> {
    if n == 0 then []
    else Segments(sealed, n - 1) + (if n - 1 in sealed then sealed[n - 1] else [])
  }

  /** The log a recovery replays: sealed segments in order, then the active file. */
  ghost function Log(disk: Disk): seq<Write> {
    Segments(disk.sealed, Top(disk.sealed.Keys)) + (if disk.active.Some? then disk.active.value else [])
  }

  /** The snapshot recovery may start from: CURRENT's if it exists, else any one present, else none. */
  predicate MayLoad(disk: Disk, name: Option<nat>) {
    if disk.current.Some? && disk.current.value in disk.snapshots then name == disk.current
    else if disk.snapshots == map[] then name == None
    else name.Some? && name.value in disk.snapshots
  }

  ghost function Recovered(disk: Disk, name: Option<nat>): Store {
    PutAll(if name.Some? && name.value in disk.snapshots then disk.snapshots[name.value] else map[], Log(disk))
  }

  // ---------------------------------------------------------------- steps

  datatype Step =
    | Accept(w: Write)                 // a store write, enqueued for the log if it is not stale
    | Drain                            // flush: append the queue to the active log
    | TornDrain(kept: nat)             // crash in the middle of that append
    | SealRename
    | SealFresh
    | CompactStart                     // begin copying the store, whether or not the drain before it succeeded
    | Capture(shard: nat)
    | WriteSnapshot(name: nat)
    | Publish
    | Prune(name: nat)
    | DeleteSealed(seqNo: nat)
    | Rotate                           // replace the active log by an empty one
    | Crash
    | CreateLog                        // a recovery that gets as far as creating the active log
    | Recover(from: Option<nat>)

  predicate Up(s: State) {
    !s.phase.Down?
  }

  ghost predicate Enabled(s: State, step: Step) {
    match step
    case Accept(_) => Up(s)
    case Drain => s.phase.Idle? && s.disk.active.Some?
    case TornDrain(kept) => s.phase.Idle? && s.disk.active.Some? && kept <= |s.pending|
    case SealRename => s.phase.Idle? && s.disk.active.Some?
    case SealFresh => s.phase.Sealing?
    case CompactStart => s.phase.Idle?
    case Capture(shard) => s.phase.Capturing? && shard in s.phase.todo
    case WriteSnapshot(_) => s.phase.Capturing? && s.phase.todo == {}
    case Publish => s.phase.Written?
    case Prune(name) =>
      s.phase.Published? && name in s.disk.snapshots && Some(name) != s.disk.current && |s.disk.snapshots| > 2
    case DeleteSealed(n) => s.phase.Published? && n in s.disk.sealed
    case Rotate => s.phase.Published?
    case Crash => true
    case CreateLog => s.phase.Down? && s.disk.active.None?
    case Recover(name) => s.phase.Down? && MayLoad(s.disk, name)
  }

  function Append(disk: Disk, ws: seq<Write>): Disk
    requires disk.active.Some?
  {
    disk.(active := Some(disk.active.value + ws))
  }

  function Drained(s: State): State
    requires s.disk.active.Some?
  {
    s.(disk := Append(s.disk, s.pending), pending := [], drained := s.drained + set w | w in s.pending)
  }

  /** Memory is gone; the disk is what it was. */
  function Crashed(s: State, disk: Disk): State {
    s.(disk := disk, phase := Down, store := map[], pending := [])
  }

  ghost function Next(cfg: Config, s: State, step: Step): State
    requires ValidConfig(cfg) && Enabled(s, step)
  {
    var disk := s.disk;
    match step
    case Accept(w) =>
      if w.key in s.store && Compare(w.entry.stamp, s.store[w.key].stamp) == Less then s
      else s.(store := Put(s.store, w.key, w.entry), pending := s.pending + [w], written := s.written + {w})
    case Drain => Drained(s)
    case TornDrain(kept) => Crashed(s, Append(disk, s.pending[..kept]))
    case SealRename =>
      s.(disk := disk.(sealed := disk.sealed[s.nextSeq := disk.active.value], active := None), phase := Sealing)
    case SealFresh => s.(disk := disk.(active := Some([])), nextSeq := s.nextSeq + 1, phase := Idle)
    case CompactStart => s.(phase := Capturing(map[], AllShards(cfg.shards)))
    case Capture(shard) =>
      var copied := map k | k in s.store && ShardOf(cfg, k) == shard :: s.store[k];
      s.(phase := Capturing(s.phase.captured + copied, s.phase.todo - {shard}))
    case WriteSnapshot(name) =>
      s.(disk := disk.(snapshots := disk.snapshots[name := s.phase.captured]), phase := Written(name))
    case Publish => s.(disk := disk.(current := Some(s.phase.name)), phase := Published(s.phase.name))
    case Prune(name) => s.(disk := disk.(snapshots := disk.snapshots - {name}))
    case DeleteSealed(n) => s.(disk := disk.(sealed := disk.sealed - {n}))
    case Rotate => s.(disk := disk.(active := Some([])), phase := Idle)
    case Crash => Crashed(s, disk)
    case CreateLog => s.(disk := disk.(active := Some([])))
    case Recover(name) =>
      s.(phase := Idle, store := Recovered(disk, name), pending := [],
         nextSeq := if disk.sealed == map[] then 1 else Top(disk.sealed.Keys),
         disk := disk.(active := Some(if disk.active.Some? then disk.active.value else [])))
  }

  // ---------------------------------------------------------------- the invariant

  ghost predicate InLog(disk: Disk, w: Write) {
    || (exists n :: n in disk.sealed && w in disk.sealed[n])
    || (disk.active.Some? && w in disk.active.value)
  }

  /** The record is in a log file, or the snapshot CURRENT points at is at least as new. */
  ghost predicate OnDisk(disk: Disk, w: Write) {
    || InLog(disk, w)
    || (disk.current.Some? && disk.current.value in disk.snapshots
        && Holds(disk.snapshots[disk.current.value], w.key, w.entry.stamp))
  }

  ghost predicate StoreFrom(store: Store, written: set<Write>) {
    forall k :: k in store ==> Write(k, store[k]) in written
  }

  /** Nothing on disk or in memory was made up. */
  ghost predicate Genuine(s: State) {
    && (forall n :: n in s.disk.snapshots ==> StoreFrom(s.disk.snapshots[n], s.written))
    && (forall w :: InLog(s.disk, w) ==> w in s.written)
    && StoreFrom(s.store, s.written)
    && (forall w :: w in s.pending ==> w in s.written)
    && (s.phase.Capturing? ==> StoreFrom(s.phase.captured, s.written))
  }

  /** What the multi-step operations rely on between their steps. */
  ghost predicate PhaseOk(cfg: Config, s: State)
    requires ValidConfig(cfg)
  {
    match s.phase
    case Down => true
    case Idle => true
    case Sealing => s.disk.active.None?
    case Capturing(captured, todo) =>
      forall w :: w in s.drained && ShardOf(cfg, w.key) !in todo ==> Holds(captured, w.key, w.entry.stamp)
    case Written(name) =>
      && name in s.disk.snapshots
      && (forall w :: w in s.drained ==> Holds(s.disk.snapshots[name], w.key, w.entry.stamp))
    case Published(name) =>
      && s.disk.current == Some(name) && name in s.disk.snapshots
      && (forall w :: w in s.drained ==> Holds(s.disk.snapshots[name], w.key, w.entry.stamp))
  }

  ghost predicate DiskOk(s: State) {
    && (s.disk.current.Some? ==> s.disk.current.value in s.disk.snapshots)
    && (forall w :: w in s.drained ==> OnDisk(s.disk, w))
  }

  ghost predicate MemoryOk(s: State) {
    Up(s) ==>
      && (forall w :: w in s.drained || w in s.pending ==> Holds(s.store, w.key, w.entry.stamp))
      && (forall n :: n in s.disk.sealed ==> if s.phase.Sealing? then n <= s.nextSeq else n < s.nextSeq)
  }

  ghost predicate Inv(cfg: Config, s: State)
    requires ValidConfig(cfg)
  {
    DiskOk(s) && MemoryOk(s) && PhaseOk(cfg, s) && Genuine(s)
  }

  // ---------------------------------------------------------------- what recovery restores

  lemma {:induction false} InSegments(sealed: map<nat, seq<Write>>, n: nat, w: Write)
    ensures w in Segments(sealed, n) <==> exists k :: 0 <= k < n && k in sealed && w in sealed[k]
  {
    if n == 0 {
    } else {
      InSegments(sealed, n - 1, w);
    }
  }

  lemma LogHolds(disk: Disk, w: Write)
    ensures w in Log(disk) <==> InLog(disk, w)
  {
    InSegments(disk.sealed, Top(disk.sealed.Keys), w);
  }

  /** Recovery restores, for every record accounted for on disk, an entry at least as new. */
  lemma RecoveredHolds(disk: Disk, name: Option<nat>, w: Write)
    requires MayLoad(disk, name) && OnDisk(disk, w)
    ensures Holds(Recovered(disk, name), w.key, w.entry.stamp)
  {
    var base := if name.Some? && name.value in disk.snapshots then disk.snapshots[name.value] else map[];
    PutAllIsMaximum(base, Log(disk), w.key);
    if InLog(disk, w) {
      LogHolds(disk, w);
      assert Offered(base, Log(disk), w.key, w.entry);
    } else {
      assert Offered(base, Log(disk), w.key, base[w.key]);
      CompareIsTotalOrder(Recovered(disk, name)[w.key].stamp, base[w.key].stamp, w.entry.stamp);
    }
  }

  /** Recovery makes nothing up: each entry was in the snapshot or in the log. */
  lemma RecoveredGenuine(disk: Disk, name: Option<nat>, written: set<Write>)
    requires forall n :: n in disk.snapshots ==> StoreFrom(disk.snapshots[n], written)
    requires forall w :: InLog(disk, w) ==> w in written
    ensures StoreFrom(Recovered(disk, name), written)
  {
    var base := if name.Some? && name.value in disk.snapshots then disk.snapshots[name.value] else map[];
    forall k | k in Recovered(disk, name) ensures Write(k, Recovered(disk, name)[k]) in written {
      PutAllIsMaximum(base, Log(disk), k);
      LogHolds(disk, Write(k, Recovered(disk, name)[k]));
    }
  }

  // ---------------------------------------------------------------- every step keeps the invariant

  lemma LogGrows(d: Disk, e: Disk, w: Write)
    requires InLog(d, w)
    requires forall n :: n in d.sealed ==> n in e.sealed && e.sealed[n] == d.sealed[n]
    requires d.active.Some? ==>
               (e.active.Some? && d.active.value <= e.active.value) || d.active.value in e.sealed.Values
    ensures InLog(e, w)
  {
  }

  lemma DiskStep(cfg: Config, s: State, step: Step)
    requires ValidConfig(cfg) && Inv(cfg, s) && Enabled(s, step)
    ensures DiskOk(Next(cfg, s, step))
  {
    hide Genuine, Recovered, Compare, PutAll, ShardOf;
    var d, e := s.disk, Next(cfg, s, step).disk;
    forall w | w in Next(cfg, s, step).drained ensures OnDisk(e, w) {
      if w in s.drained {
        assert OnDisk(d, w);
        if InLog(d, w) && !step.DeleteSealed? && !step.Rotate? {
          if step.SealRename? { assert e.sealed[s.nextSeq] == d.active.value; }
          LogGrows(d, e, w);
        }
      } else {
        assert w in s.pending && w in e.active.value;
      }
    }
  }

  lemma PutHoldsAll(store: Store, w: Write, ws: set<Write>)
    requires forall v :: v in ws ==> Holds(store, v.key, v.entry.stamp)
    ensures forall v :: v in ws + {w} ==> Holds(Put(store, w.key, w.entry), v.key, v.entry.stamp)
  {
    forall v | v in ws + {w} ensures Holds(Put(store, w.key, w.entry), v.key, v.entry.stamp) {
      PutHolds(store, w.key, w.entry, v.key, v.entry.stamp);
    }
  }

  lemma AcceptMemory(cfg: Config, s: State, w: Write)
    requires ValidConfig(cfg) && Inv(cfg, s) && Enabled(s, Accept(w))
    ensures MemoryOk(Next(cfg, s, Accept(w)))
  {
    hide Genuine, Compare, PutAll, ShardOf, PhaseOk, Holds, DiskOk;
    PutHoldsAll(s.store, w, s.drained + set v | v in s.pending);
  }

  lemma RecoverMemory(cfg: Config, s: State, name: Option<nat>)
    requires ValidConfig(cfg) && Inv(cfg, s) && Enabled(s, Recover(name))
    ensures MemoryOk(Next(cfg, s, Recover(name)))
  {
    hide Genuine, Compare, PutAll, ShardOf, PhaseOk, Holds, Recovered;
    forall w | w in s.drained ensures Holds(Recovered(s.disk, name), w.key, w.entry.stamp) {
      RecoveredHolds(s.disk, name, w);
    }
  }

  lemma MemoryStep(cfg: Config, s: State, step: Step)
    requires ValidConfig(cfg) && Inv(cfg, s) && Enabled(s, step)
    ensures MemoryOk(Next(cfg, s, step))
  {
    hide Genuine, Compare, PutAll, ShardOf, PhaseOk, Holds, Recovered, DiskOk;
    match step {
      case Accept(w) => AcceptMemory(cfg, s, w);
      case Recover(name) => RecoverMemory(cfg, s, name);
      case _ =>
    }
  }

  /** A shard is copied from a store that already has every drained record, so the copy has them too. */
  lemma CaptureKeeps(cfg: Config, s: State, shard: nat)
    requires ValidConfig(cfg) && Inv(cfg, s) && Enabled(s, Capture(shard))
    ensures PhaseOk(cfg, Next(cfg, s, Capture(shard)))
  {
    var t := Next(cfg, s, Capture(shard));
    forall w | w in s.drained && ShardOf(cfg, w.key) !in t.phase.todo
      ensures Holds(t.phase.captured, w.key, w.entry.stamp)
    {
      assert Holds(s.store, w.key, w.entry.stamp);
    }
  }

  lemma PhaseStep(cfg: Config, s: State, step: Step)
    requires ValidConfig(cfg) && Inv(cfg, s) && Enabled(s, step)
    ensures PhaseOk(cfg, Next(cfg, s, step))
  {
    hide Genuine, Compare, PutAll, Recovered, DiskOk;
    match step {
      case Capture(shard) => CaptureKeeps(cfg, s, shard);
      case WriteSnapshot(name) =>
        assert forall w :: w in s.drained ==> ShardOf(cfg, w.key) !in s.phase.todo;
      case _ =>
    }
  }

  lemma GenuineStep(cfg: Config, s: State, step: Step)
    requires ValidConfig(cfg) && Inv(cfg, s) && Enabled(s, step)
    ensures Genuine(Next(cfg, s, step))
  {
    hide Compare, PutAll, Recovered, PhaseOk, DiskOk, MemoryOk, ShardOf;
    var t := Next(cfg, s, step);
    forall w | InLog(t.disk, w) ensures w in t.written {
      assert InLog(s.disk, w) || w in s.pending;
    }
    if step.Recover? { RecoveredGenuine(s.disk, step.from, s.written); }
  }

  lemma NextKeeps(cfg: Config, s: State, step: Step)
    requires ValidConfig(cfg) && Inv(cfg, s) && Enabled(s, step)
    ensures Inv(cfg, Next(cfg, s, step))
  {
    DiskStep(cfg, s, step);
    MemoryStep(cfg, s, step);
    PhaseStep(cfg, s, step);
    GenuineStep(cfg, s, step);
    hide *;
  }

  // ---------------------------------------------------------------- whole runs

  ghost predicate EnabledSteps(cfg: Config, s: State, steps: seq<Step>)
    requires ValidConfig(cfg)
    decreases |steps|
  {
    steps == [] || (Enabled(s, steps[0]) && EnabledSteps(cfg, Next(cfg, s, steps[0]), steps[1..]))
  }

  ghost function Execute(cfg: Config, s: State, steps: seq<Step>): State
    requires ValidConfig(cfg) && EnabledSteps(cfg, s, steps)
    decreases |steps|
  {
    if steps == [] then s else Execute(cfg, Next(cfg, s, steps[0]), steps[1..])
  }

  lemma {:induction false} RunsKeep(cfg: Config, s: State, steps: seq<Step>)
    requires ValidConfig(cfg) && Inv(cfg, s) && EnabledSteps(cfg, s, steps)
    ensures Inv(cfg, Execute(cfg, s, steps))
    decreases |steps|
  {
    hide Inv, Next;
    if steps == [] {
    } else {
      NextKeeps(cfg, s, steps[0]);
      RunsKeep(cfg, Next(cfg, s, steps[0]), steps[1..]);
    }
  }

  /**
   After any run of writes, drains, seals, compactions and crashes, recovery from the disk as it
   stands restores for every key an entry at least as new as every record drained so far, and
   restores no entry that was not written.
   */
  lemma NothingDrainedIsLost(cfg: Config, steps: seq<Step>, from: Option<nat>)
    requires ValidConfig(cfg) && EnabledSteps(cfg, INIT, steps)
    requires MayLoad(Execute(cfg, INIT, steps).disk, from)
    ensures var s := Execute(cfg, INIT, steps);
            && (forall w :: w in s.drained ==> Holds(Recovered(s.disk, from), w.key, w.entry.stamp))
            && StoreFrom(Recovered(s.disk, from), s.written)
  {
    RunsKeep(cfg, INIT, steps);
    var s := Execute(cfg, INIT, steps);
    assert Genuine(s);
    forall w | w in s.drained ensures Holds(Recovered(s.disk, from), w.key, w.entry.stamp) {
      RecoveredHolds(s.disk, from, w);
    }
    RecoveredGenuine(s.disk, from, s.written);
  }

  // ---------------------------------------------------------------- from an accepted write to a recovered one

  /** The store has nothing later for the key, in version, writer or delete marker. */
  ghost predicate IsFresh(s: State, w: Write) {
    w.key in s.store ==> AsNew(w.entry.stamp, s.store[w.key].stamp)
  }

  /** The process neither dies nor starts at this step. */
  predicate StaysUp(step: Step) {
    !step.Crash? && !step.TornDrain? && !step.Recover? && !step.CreateLog?
  }

  lemma AcceptQueues(cfg: Config, s: State, w: Write)
    requires ValidConfig(cfg) && Enabled(s, Accept(w)) && IsFresh(s, w)
    ensures var t := Next(cfg, s, Accept(w));
            w in t.pending && w.key in t.store && t.store[w.key] == w.entry
  {
    if w.key in s.store { CoversInFields(w.entry.stamp, s.store[w.key].stamp); }
  }

  /** A drain leaves nothing queued and has all that was queued in the active log, behind what was there. */
  lemma DrainWrites(cfg: Config, s: State)
    requires ValidConfig(cfg) && Enabled(s, Drain)
    ensures var t := Next(cfg, s, Drain);
            && t.pending == [] && t.disk.active.Some?
            && s.disk.active.value <= t.disk.active.value
            && forall w :: w in s.pending ==> InLog(t.disk, w) && w in t.disk.active.value && w in t.drained
  {
  }

  lemma QueuedStep(cfg: Config, s: State, step: Step, w: Write)
    requires ValidConfig(cfg) && Enabled(s, step) && (w in s.drained || (StaysUp(step) && w in s.pending))
    ensures var t := Next(cfg, s, step);
            (w in s.drained ==> w in t.drained) && (w in t.pending || w in t.drained)
  {
    hide Compare, Put, PutAll, Recovered, ShardOf, Top, Segments;
  }

  /** While the process is up a queued write stays queued until it is drained. */
  lemma {:induction false} StaysQueued(cfg: Config, s: State, steps: seq<Step>, w: Write)
    requires ValidConfig(cfg) && EnabledSteps(cfg, s, steps) && (w in s.pending || w in s.drained)
    requires forall step :: step in steps ==> StaysUp(step)
    ensures w in Execute(cfg, s, steps).pending || w in Execute(cfg, s, steps).drained
    decreases |steps|
  {
    hide Next, Enabled;
    if steps == [] {
    } else {
      QueuedStep(cfg, s, steps[0], w);
      StaysQueued(cfg, Next(cfg, s, steps[0]), steps[1..], w);
    }
  }

  /** Drained once is drained for good. */
  lemma {:induction false} StaysDrained(cfg: Config, s: State, steps: seq<Step>, w: Write)
    requires ValidConfig(cfg) && EnabledSteps(cfg, s, steps) && w in s.drained
    ensures w in Execute(cfg, s, steps).drained
    decreases |steps|
  {
    hide Next, Enabled;
    if steps == [] {
    } else {
      QueuedStep(cfg, s, steps[0], w);
      StaysDrained(cfg, Next(cfg, s, steps[0]), steps[1..], w);
    }
  }

  /** A run that accepts `w`, stays up through `between`, drains, and then goes on in any way, crashes included. */
  ghost predicate AcceptsAndDrains(cfg: Config, before: seq<Step>, w: Write, between: seq<Step>, after: seq<Step>,
                                   t: State)
    requires ValidConfig(cfg)
  {
    && EnabledSteps(cfg, INIT, before)
    && var s := Execute(cfg, INIT, before);
    && Enabled(s, Accept(w)) && IsFresh(s, w)
    && EnabledSteps(cfg, Next(cfg, s, Accept(w)), between) && (forall step :: step in between ==> StaysUp(step))
    && var u := Execute(cfg, Next(cfg, s, Accept(w)), between);
    && Enabled(u, Drain) && EnabledSteps(cfg, Next(cfg, u, Drain), after)
    && t == Execute(cfg, Next(cfg, u, Drain), after)
  }

  /**
   Durability from end to end: a write accepted over nothing later, with a drain before the process goes down, is in
   every recovery ever after, as itself or as something at least as new.
   */
  lemma DrainedWriteSurvives(cfg: Config, before: seq<Step>, w: Write, between: seq<Step>, after: seq<Step>, t: State,
                             from: Option<nat>)
    requires ValidConfig(cfg) && AcceptsAndDrains(cfg, before, w, between, after, t) && MayLoad(t.disk, from)
    ensures var store := Recovered(t.disk, from);
            && w.key in store && AsNew(store[w.key].stamp, w.entry.stamp)
            && store[w.key].stamp.version >= w.entry.stamp.version
  {
    hide Next, Enabled, Inv, EnabledSteps, Execute, MayLoad, Recovered, IsFresh, InLog;
    var s := Execute(cfg, INIT, before);
    var a := Next(cfg, s, Accept(w));
    var u := Execute(cfg, a, between);
    var d := Next(cfg, u, Drain);
    AcceptQueues(cfg, s, w);
    StaysQueued(cfg, a, between, w);
    QueuedStep(cfg, u, Drain, w);
    DrainWrites(cfg, u);
    StaysDrained(cfg, d, after, w);
    InitOk(cfg);
    RunsKeep(cfg, INIT, before);
    NextKeeps(cfg, s, Accept(w));
    RunsKeep(cfg, a, between);
    NextKeeps(cfg, u, Drain);
    RunsKeep(cfg, d, after);
    DrainedIsRecovered(cfg, t, from, w);
  }

  /** The shortest such run: written, drained, crashed and recovered, a store holds exactly what it held. */
  lemma CrashRoundTrip(cfg: Config, w: Write)
    requires ValidConfig(cfg)
    ensures var steps := [Recover(None), Accept(w), Drain, Crash, Recover(None)];
            EnabledSteps(cfg, INIT, steps) && Execute(cfg, INIT, steps).store == map[w.key := w.entry]
  {
    hide Next, Enabled, Execute, EnabledSteps;
    var empty := State(Disk(map[], None, map[], Some([])), Idle, map[], [], 1, {}, {});
    var stored := map[w.key := w.entry];
    var held := empty.(store := stored, pending := [w], written := {w});
    var drained := held.(disk := held.disk.(active := Some([w])), pending := [], drained := {w});
    RoundTripStarts(cfg, w);
    RoundTripEnds(cfg, w, drained);
    var down := drained.(phase := Down, store := map[]);
    StartRun(cfg, Next(cfg, down, Recover(None)));
    var r4 := [Recover(None)] + [];
    var r3 := [Crash] + r4;
    var r2 := [Drain] + r3;
    var r1 := [Accept(w)] + r2;
    FirstStep(cfg, down, Recover(None), []);
    FirstStep(cfg, drained, Crash, r4);
    FirstStep(cfg, held, Drain, r3);
    FirstStep(cfg, empty, Accept(w), r2);
    FirstStep(cfg, INIT, Recover(None), r1);
    assert [Recover(None)] + r1 == [Recover(None), Accept(w), Drain, Crash, Recover(None)];
  }

  lemma RoundTripStarts(cfg: Config, w: Write)
    requires ValidConfig(cfg)
    ensures var empty := State(Disk(map[], None, map[], Some([])), Idle, map[], [], 1, {}, {});
            var held := empty.(store := map[w.key := w.entry], pending := [w], written := {w});
            && Enabled(INIT, Recover(None)) && Next(cfg, INIT, Recover(None)) == empty
            && Enabled(empty, Accept(w)) && Next(cfg, empty, Accept(w)) == held
            && Enabled(held, Drain)
            && Next(cfg, held, Drain) == held.(disk := held.disk.(active := Some([w])), pending := [], drained := {w})
  {
    assert Log(INIT.disk) == [];
  }

  lemma RoundTripEnds(cfg: Config, w: Write, s: State)
    requires ValidConfig(cfg) && s.disk == Disk(map[], None, map[], Some([w])) && s.pending == []
    ensures var down := s.(phase := Down, store := map[]);
            && Enabled(s, Crash) && Next(cfg, s, Crash) == down
            && Enabled(down, Recover(None)) && Next(cfg, down, Recover(None)).store == map[w.key := w.entry]
  {
    assert Log(s.disk) == [w];
    PutOne(w);
  }

  lemma StartRun(cfg: Config, s: State)
    requires ValidConfig(cfg)
    ensures EnabledSteps(cfg, s, []) && Execute(cfg, s, []) == s
  {
  }

  lemma FirstStep(cfg: Config, s: State, step: Step, rest: seq<Step>)
    requires ValidConfig(cfg) && Enabled(s, step) && EnabledSteps(cfg, Next(cfg, s, step), rest)
    ensures EnabledSteps(cfg, s, [step] + rest)
    ensures Execute(cfg, s, [step] + rest) == Execute(cfg, Next(cfg, s, step), rest)
  {
    hide Next, Enabled;
    assert ([step] + rest)[1..] == rest;
  }

  lemma PutOne(w: Write)
    ensures PutAll(map[], [w]) == map[w.key := w.entry]
  {
    assert [w][..0] == [];
  }

  lemma InitOk(cfg: Config)
    requires ValidConfig(cfg)
    ensures Inv(cfg, INIT)
  {
  }

  lemma DrainedIsRecovered(cfg: Config, t: State, from: Option<nat>, w: Write)
    requires ValidConfig(cfg) && Inv(cfg, t) && w in t.drained && MayLoad(t.disk, from)
    ensures var store := Recovered(t.disk, from);
            && w.key in store && AsNew(store[w.key].stamp, w.entry.stamp)
            && store[w.key].stamp.version >= w.entry.stamp.version
  {
    assert OnDisk(t.disk, w);
    hide Inv, OnDisk, MayLoad, Recovered;
    RecoveredHolds(t.disk, from, w);
    CoversInFields(Recovered(t.disk, from)[w.key].stamp, w.entry.stamp);
  }

  // ---------------------------------------------------------------- what a compaction achieves

  lemma {:induction false} LastStep(cfg: Config, s: State, steps: seq<Step>, last: Step)
    requires ValidConfig(cfg) && EnabledSteps(cfg, s, steps) && Enabled(Execute(cfg, s, steps), last)
    ensures EnabledSteps(cfg, s, steps + [last])
    ensures Execute(cfg, s, steps + [last]) == Next(cfg, Execute(cfg, s, steps), last)
    decreases |steps|
  {
    hide Next, Enabled;
    if steps == [] {
      assert [] + [last] == [last] && [last][1..] == [];
      StartRun(cfg, Next(cfg, s, last));
    } else {
      assert (steps + [last])[1..] == steps[1..] + [last];
      LastStep(cfg, Next(cfg, s, steps[0]), steps[1..], last);
    }
  }

  /** The state with the shards below `k` copied and the others to do. */
  ghost function Copied(cfg: Config, s: State, k: nat): State
    requires ValidConfig(cfg)
  {
    s.(phase := Capturing(map key | key in s.store && ShardOf(cfg, key) < k :: s.store[key],
                          set i | i in AllShards(cfg.shards) && i >= k))
  }

  lemma CopyStep(cfg: Config, s: State, k: nat)
    requires ValidConfig(cfg) && k < cfg.shards
    ensures Enabled(Copied(cfg, s, k), Capture(k))
    ensures Next(cfg, Copied(cfg, s, k), Capture(k)) == Copied(cfg, s, k + 1)
  {
    hide ShardOf;
    var a, b := Next(cfg, Copied(cfg, s, k), Capture(k)), Copied(cfg, s, k + 1);
    assert a.phase.captured == b.phase.captured && a.phase.todo == b.phase.todo;
  }

  lemma CopyStarts(cfg: Config, s: State)
    requires ValidConfig(cfg) && s.phase.Idle?
    ensures Enabled(s, CompactStart) && Next(cfg, s, CompactStart) == Copied(cfg, s, 0)
  {
    hide ShardOf;
    var a, b := Next(cfg, s, CompactStart), Copied(cfg, s, 0);
    assert a.phase.captured == b.phase.captured && a.phase.todo == b.phase.todo;
  }

  lemma {:induction false} CopyShards(cfg: Config, s: State, k: nat) returns (steps: seq<Step>)
    requires ValidConfig(cfg) && s.phase.Idle? && k <= cfg.shards
    ensures EnabledSteps(cfg, s, steps) && Execute(cfg, s, steps) == Copied(cfg, s, k)
  {
    hide Copied, Next, Enabled, Execute, EnabledSteps;
    if k == 0 {
      StartRun(cfg, s);
      CopyStarts(cfg, s);
      LastStep(cfg, s, [], CompactStart);
      steps := [] + [CompactStart];
    } else {
      steps := CopyShards(cfg, s, k - 1);
      CopyStep(cfg, s, k - 1);
      LastStep(cfg, s, steps, Capture(k - 1));
      steps := steps + [Capture(k - 1)];
    }
  }

  /** The snapshot is in place and CURRENT names it. */
  ghost function Snapshotted(s: State, name: nat): State {
    s.(disk := s.disk.(snapshots := s.disk.snapshots[name := s.store], current := Some(name)), phase := Published(name))
  }

  lemma PublishSteps(cfg: Config, s: State, name: nat)
    requires ValidConfig(cfg)
    ensures var a := Copied(cfg, s, cfg.shards);
            && Enabled(a, WriteSnapshot(name))
            && var b := Next(cfg, a, WriteSnapshot(name));
            Enabled(b, Publish) && Next(cfg, b, Publish) == Snapshotted(s, name)
  {
    var a := Copied(cfg, s, cfg.shards);
    assert forall key :: ShardOf(cfg, key) < cfg.shards;
    hide ShardOf;
    assert a.phase.captured == s.store && a.phase.todo == {};
  }

  ghost function WithSealed(s: State, sealed: map<nat, seq<Write>>): State {
    s.(disk := s.disk.(sealed := sealed))
  }

  lemma {:induction false} DeleteSegments(cfg: Config, s: State, before: seq<Step>, t: State) returns (steps: seq<Step>)
    requires ValidConfig(cfg) && EnabledSteps(cfg, s, before) && Execute(cfg, s, before) == t && t.phase.Published?
    ensures EnabledSteps(cfg, s, steps) && Execute(cfg, s, steps) == WithSealed(t, map[])
    decreases t.disk.sealed.Keys
  {
    hide EnabledSteps, Execute;
    if t.disk.sealed == map[] {
      steps := before;
    } else {
      var n :| n in t.disk.sealed;
      LastStep(cfg, s, before, DeleteSealed(n));
      var u := Next(cfg, t, DeleteSealed(n));
      steps := DeleteSegments(cfg, s, before + [DeleteSealed(n)], u);
    }
  }

  /**
   A compaction left alone puts the whole store into one snapshot, makes it current and leaves no log: what the disk
   then recovers to is the store.
   */
  lemma CompactionReplacesLog(cfg: Config, s: State, name: nat) returns (steps: seq<Step>)
    requires ValidConfig(cfg) && s.phase.Idle?
    ensures EnabledSteps(cfg, s, steps)
    ensures var t := Execute(cfg, s, steps);
            && t.phase.Idle? && t.store == s.store && t.pending == s.pending
            && t.disk.sealed == map[] && t.disk.active == Some([])
            && MayLoad(t.disk, Some(name)) && Recovered(t.disk, Some(name)) == s.store
  {
    var a := CopyShards(cfg, s, cfg.shards);
    PublishSteps(cfg, s, name);
    var c := Copied(cfg, s, cfg.shards);
    hide Copied, EnabledSteps, Execute;
    LastStep(cfg, s, a, WriteSnapshot(name));
    LastStep(cfg, s, a + [WriteSnapshot(name)], Publish);
    var b := DeleteSegments(cfg, s, a + [WriteSnapshot(name)] + [Publish], Snapshotted(s, name));
    LastStep(cfg, s, b, Rotate);
    steps := b + [Rotate];
    NoLog(Execute(cfg, s, steps).disk);
  }

  lemma NoLog(disk: Disk)
    requires disk.sealed == map[] && disk.active == Some([])
    ensures Log(disk) == [] && forall store: Store :: PutAll(store, Log(disk)) == store
  {
  }
}
