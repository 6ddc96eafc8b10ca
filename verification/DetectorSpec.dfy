/**
 Failure detection and membership as one state machine: a node pings its peers in turn, suspects those that do not
 answer and gives up on those suspected for too long, while rumours about every node, itself included, keep arriving.
 */
module DetectorSpec {
  import opened Common

  const SUSPECT_THRESHOLD := 2

  datatype Health = Alive | Suspect | Dead
  datatype Member = Member(health: Health, incarnation: nat)
  type Table = map<NodeId, Member>

  datatype Probe = Probe(pending: bool, sentAt: int, suspected: bool, suspectSince: int, failures: nat)
  type Probes = map<NodeId, Probe>

  const NEW_PROBE := Probe(false, 0, false, 0, 0)

  /** What the network reported and whom each tick gave up on, oldest first. */
  datatype Report = Report(peer: NodeId, acked: bool, at: int) | GaveUp(peers: set<NodeId>)

  datatype State = State(self: NodeId, timeout: int, peers: seq<NodeId>, next: nat, probes: Probes, table: Table,
                         log: seq<Report>)

  // ---------------------------------------------------------------- membership

  function MarkSuspect(t: Table, id: NodeId): Table {
    if id in t && t[id].health == Alive then t[id := t[id].(health := Suspect)] else t
  }

  function MarkDead(t: Table, id: NodeId): Table {
    if id in t && t[id].health != Dead then t[id := t[id].(health := Dead)] else t
  }

  function MarkAlive(t: Table, id: NodeId, incarnation: nat): Table {
    if id !in t || (t[id].health == Alive && t[id].incarnation >= incarnation) then t
    else t[id := Member(Alive, incarnation)]
  }

  /** A rumour of one's own death is refuted with a higher incarnation; otherwise the later incarnation wins. */
  function ApplyRumor(t: Table, self: NodeId, id: NodeId, rumor: Member): Table {
    if id !in t then
      if rumor.health == Alive then t[id := rumor] else t
    else if rumor.incarnation < t[id].incarnation || rumor == t[id] then t
    else if id == self && rumor.health != Alive then
      t[id := Member(Alive, rumor.incarnation + 1)]
    else t[id := rumor]
  }

  // ---------------------------------------------------------------- probing

  ghost function TimedOut(s: State, now: int): set<NodeId> {
    set p | p in s.probes && s.probes[p].pending && now - s.probes[p].sentAt > s.timeout
  }

  ghost function Swept(s: State, now: int): Probes {
    map p | p in s.probes :: if p in TimedOut(s, now) then s.probes[p].(pending := false) else s.probes[p]
  }

  /** The peers a tick gives up on. */
  ghost function GivenUp(s: State, now: int): set<NodeId> {
    set p | p in s.probes && s.probes[p].suspected && p in s.table && s.table[p].health == Suspect
            && now - s.probes[p].suspectSince > s.timeout
  }

  ghost function Escalated(probes: Probes, dead: set<NodeId>): Probes {
    map p | p in probes :: if p in dead then probes[p].(suspected := false, failures := 0) else probes[p]
  }

  /** A peer may be pinged now: no ping is in flight and it is not known dead. */
  predicate Eligible(self: NodeId, probes: Probes, table: Table, p: NodeId) {
    p != self && !(p in probes && probes[p].pending) && !(p in table && table[p].health == Dead)
  }

  /** The peers in the order a tick tries them. */
  function Order(peers: seq<NodeId>, next: nat): seq<NodeId> {
    if peers == [] then [] else OrderFrom(peers, next % |peers|)
  }

  function OrderFrom(peers: seq<NodeId>, first: nat): seq<NodeId>
    requires first <= |peers|
  {
    peers[first..] + peers[..first]
  }

  /** How many are passed over before one may be pinged. */
  function Skipped(self: NodeId, probes: Probes, table: Table, order: seq<NodeId>): (k: nat)
    ensures k <= |order|
    ensures forall i :: 0 <= i < k ==> !Eligible(self, probes, table, order[i])
    ensures k < |order| ==> Eligible(self, probes, table, order[k])
  {
    if order == [] || Eligible(self, probes, table, order[0]) then 0 else 1 + Skipped(self, probes, table, order[1..])
  }

  /** The bookkeeping a tick's choice of peer is based on. */
  ghost function Reviewed(s: State, now: int): Probes {
    Escalated(Swept(s, now), GivenUp(s, now))
  }

  ghost function Passed(s: State, now: int): nat {
    Skipped(s.self, Reviewed(s, now), s.table, Order(s.peers, s.next))
  }

  /** The peer a tick pings. */
  ghost function Pinged(s: State, now: int): Option<NodeId> {
    var order, k := Order(s.peers, s.next), Passed(s, now);
    if k < |order| then Some(order[k]) else None
  }

  ghost function NextPeer(s: State, now: int): nat {
    var k := Passed(s, now);
    if s.peers == [] then s.next else (s.next + if k < |s.peers| then k + 1 else k) % |s.peers|
  }

  function ProbeOf(probes: Probes, p: NodeId): Probe {
    if p in probes then probes[p] else NEW_PROBE
  }

  ghost function MarkAllSuspect(t: Table, ps: set<NodeId>): Table {
    map id | id in t :: if id in ps && t[id].health == Alive then t[id].(health := Suspect) else t[id]
  }

  ghost function MarkAllDead(t: Table, ps: set<NodeId>): Table {
    map id | id in t :: if id in ps && t[id].health != Dead then t[id].(health := Dead) else t[id]
  }

  /** Sweep overdue pings, give up on old suspects, ping the next peer; the table is marked last. */
  ghost function Tick(s: State, now: int): State {
    var probes := Reviewed(s, now);
    var target := Pinged(s, now);
    s.(next := NextPeer(s, now),
       probes := if target == None then probes
                 else probes[target.value := ProbeOf(probes, target.value).(pending := true, sentAt := now)],
       table := MarkAllDead(MarkAllSuspect(s.table, TimedOut(s, now)), GivenUp(s, now)),
       log := s.log + [GaveUp(GivenUp(s, now))])
  }

  function Judged(p: Probe, acked: bool, now: int): Probe {
    if acked then p.(pending := false, suspected := false, failures := 0)
    else p.(pending := false, failures := p.failures + 1, suspected := true,
            suspectSince := if p.suspected then p.suspectSince else now)
  }

  /** A ping came back or failed; two failures in a row make a suspect, any answer clears it. */
  ghost function ProbeResult(s: State, peer: NodeId, acked: bool, now: int): State {
    if peer !in s.probes then s
    else
      var p := Judged(s.probes[peer], acked, now);
      s.(probes := s.probes[peer := p],
         table := if acked then MarkAlive(s.table, peer, if peer in s.table then s.table[peer].incarnation else 0)
                  else if p.failures >= SUSPECT_THRESHOLD then MarkSuspect(s.table, peer)
                  else s.table,
         log := s.log + [Report(peer, acked, now)])
  }

  // ---------------------------------------------------------------- runs

  datatype Step =
    | TickStep(now: int)
    | ResultStep(peer: NodeId, acked: bool, now: int)
    | RumorStep(id: NodeId, rumor: Member)
    | RebuildStep(peers: seq<NodeId>)
    | TimeoutStep(timeout: int)

  /** The peer list is always taken from the table without the node itself. */
  ghost predicate Allowed(s: State, step: Step) {
    step.RebuildStep? ==> s.self !in step.peers
  }

  ghost function Next(s: State, step: Step): State {
    match step
    case TickStep(now) => Tick(s, now)
    case ResultStep(peer, acked, now) => ProbeResult(s, peer, acked, now)
    case RumorStep(id, rumor) => s.(table := ApplyRumor(s.table, s.self, id, rumor))
    case RebuildStep(peers) => s.(peers := peers)
    case TimeoutStep(timeout) => s.(timeout := timeout)
  }

  ghost predicate AllowedRun(s: State, steps: seq<Step>)
    decreases |steps|
  {
    steps == [] || (Allowed(s, steps[0]) && AllowedRun(Next(s, steps[0]), steps[1..]))
  }

  ghost function Run(s: State, steps: seq<Step>): State
    decreases |steps|
  {
    if steps == [] then s else Run(Next(s, steps[0]), steps[1..])
  }

  function Start(self: NodeId, timeout: int): State {
    State(self, timeout, [], 0, map[], map[self := Member(Alive, 0)], [])
  }

  // ---------------------------------------------------------------- what the record of a peer means

  ghost predicate Fails(r: Report, p: NodeId) {
    r.Report? && r.peer == p && !r.acked
  }

  /** An answer from `p`, or giving up on it. */
  ghost predicate Clears(r: Report, p: NodeId) {
    match r
    case Report(peer, acked, _) => peer == p && acked
    case GaveUp(peers) => p in peers
  }

  /** A reported failure of `p` with nothing since that clears it. */
  ghost predicate Silent(log: seq<Report>, p: NodeId, i: int) {
    0 <= i < |log| && Fails(log[i], p) && forall j :: i < j < |log| ==> !Clears(log[j], p)
  }

  /** The first such failure: `p` has been failing since then. */
  ghost predicate SilentSince(log: seq<Report>, p: NodeId, i: int) {
    Silent(log, p, i) && forall j :: 0 <= j < i ==> !Silent(log, p, j)
  }

  ghost predicate NotSilent(log: seq<Report>, p: NodeId) {
    forall i :: 0 <= i < |log| ==> !Silent(log, p, i)
  }

  /** The record of a peer: suspected since the first uncleared failure, unsuspected when there is none. */
  ghost predicate Tracks(log: seq<Report>, p: NodeId, probe: Probe) {
    && (probe.suspected <==> probe.failures > 0)
    && if probe.suspected then exists i :: SilentSince(log, p, i) && log[i].at == probe.suspectSince
       else NotSilent(log, p)
  }

  /** Every record means that, and the node never probes itself. */
  ghost predicate Backed(s: State) {
    && (forall p :: p in s.probes ==> Tracks(s.log, p, s.probes[p]))
    && (forall p :: p !in s.probes ==> NotSilent(s.log, p))
    && s.self !in s.peers && s.self !in s.probes
  }

  lemma SilentLater(log: seq<Report>, r: Report, p: NodeId, i: int)
    requires 0 <= i <= |log|
    ensures Silent(log + [r], p, i) <==> if i == |log| then Fails(r, p) else Silent(log, p, i) && !Clears(r, p)
  {
    var l := log + [r];
    if i < |log| {
      assert l[i] == log[i];
      if Silent(log, p, i) && !Clears(r, p) {
        forall j | i < j < |l| ensures !Clears(l[j], p) { }
      }
      if Silent(l, p, i) {
        assert l[|log|] == r;
        forall j | i < j < |log| ensures !Clears(log[j], p) { assert l[j] == log[j]; }
      }
    }
  }

  /** Cleared, nothing is left; untouched, what was silent stays so; a first failure starts it. */
  lemma TrackingLater(log: seq<Report>, r: Report, p: NodeId)
    ensures Clears(r, p) ==> NotSilent(log + [r], p)
    ensures !Clears(r, p) && !Fails(r, p) && NotSilent(log, p) ==> NotSilent(log + [r], p)
    ensures Fails(r, p) && NotSilent(log, p) ==> SilentSince(log + [r], p, |log|)
    ensures forall i :: !Clears(r, p) && SilentSince(log, p, i) ==> SilentSince(log + [r], p, i)
  {
    hide Silent;
    forall i | 0 <= i <= |log|
      ensures Silent(log + [r], p, i) <==> if i == |log| then Fails(r, p) else Silent(log, p, i) && !Clears(r, p)
    {
      SilentLater(log, r, p, i);
    }
    forall i | Silent(log, p, i) ensures 0 <= i < |log| { InLog(log, p, i); }
  }

  lemma InLog(log: seq<Report>, p: NodeId, i: int)
    requires Silent(log, p, i)
    ensures 0 <= i < |log| && log[i].Report?
  {
  }

  lemma TracksLater(log: seq<Report>, r: Report, p: NodeId, probe: Probe)
    requires Tracks(log, p, probe) && !Clears(r, p) && !Fails(r, p)
    ensures Tracks(log + [r], p, probe)
  {
    TrackingLater(log, r, p);
  }

  lemma JudgedTracks(log: seq<Report>, p: NodeId, probe: Probe, acked: bool, now: int)
    requires Tracks(log, p, probe)
    ensures Tracks(log + [Report(p, acked, now)], p, Judged(probe, acked, now))
  {
    var r := Report(p, acked, now);
    TrackingLater(log, r, p);
    hide NotSilent;
    if !acked && !probe.suspected {
      assert SilentSince(log + [r], p, |log|) && (log + [r])[|log|].at == now;
    } else if !acked {
      var i :| SilentSince(log, p, i) && log[i].at == probe.suspectSince;
      InLog(log, p, i);
      assert SilentSince(log + [r], p, i) && (log + [r])[i].at == probe.suspectSince;
    }
  }

  lemma ResultKeepsBacked(s: State, peer: NodeId, acked: bool, now: int)
    requires Backed(s)
    ensures Backed(ProbeResult(s, peer, acked, now))
  {
    hide Tracks, NotSilent, Judged;
    var t := ProbeResult(s, peer, acked, now);
    if peer in s.probes {
      var r := Report(peer, acked, now);
      forall p | p in t.probes ensures Tracks(t.log, p, t.probes[p]) {
        if p == peer {
          JudgedTracks(s.log, p, s.probes[p], acked, now);
        } else {
          TracksLater(s.log, r, p, s.probes[p]);
        }
      }
      forall p | p !in t.probes ensures NotSilent(t.log, p) { TrackingLater(s.log, r, p); }
    }
  }

  lemma PingedIsPeer(s: State, now: int)
    ensures Pinged(s, now).Some? ==> Pinged(s, now).value in s.peers
    ensures Pinged(s, now).Some? ==> Eligible(s.self, Reviewed(s, now), s.table, Pinged(s, now).value)
  {
  }

  lemma TickTracks(s: State, now: int, p: NodeId)
    requires Backed(s)
    ensures var t := Tick(s, now);
            if p in t.probes then Tracks(t.log, p, t.probes[p]) else NotSilent(t.log, p)
  {
    hide Pinged, NextPeer, Silent, SilentSince;
    var r := GaveUp(GivenUp(s, now));
    TrackingLater(s.log, r, p);
    if p in s.probes && !Clears(r, p) { TracksLater(s.log, r, p, s.probes[p]); }
  }

  lemma TickKeepsBacked(s: State, now: int)
    requires Backed(s)
    ensures Backed(Tick(s, now))
  {
    var t := Tick(s, now);
    PingedIsPeer(s, now);
    hide Pinged, Tracks, NotSilent, NextPeer;
    forall p ensures if p in t.probes then Tracks(t.log, p, t.probes[p]) else NotSilent(t.log, p) {
      TickTracks(s, now, p);
    }
  }

  lemma StepKeepsBacked(s: State, step: Step)
    requires Backed(s) && Allowed(s, step)
    ensures Backed(Next(s, step)) && Next(s, step).self == s.self
  {
    match step
    case TickStep(now) => TickKeepsBacked(s, now);
    case ResultStep(peer, acked, now) => ResultKeepsBacked(s, peer, acked, now);
    case _ =>
  }

  lemma {:induction false} RunsKeepBacked(s: State, steps: seq<Step>)
    requires Backed(s) && AllowedRun(s, steps)
    ensures Backed(Run(s, steps)) && Run(s, steps).self == s.self
    decreases |steps|
  {
    if steps == [] {
    } else {
      hide Backed, Next;
      StepKeepsBacked(s, steps[0]);
      RunsKeepBacked(Next(s, steps[0]), steps[1..]);
    }
  }

  lemma StartIsBacked(self: NodeId, timeout: int)
    ensures Backed(Start(self, timeout))
  {
  }

  // ---------------------------------------------------------------- who is given up on, and when

  lemma FirstIsUnique(log: seq<Report>, p: NodeId, i: int, j: int)
    requires SilentSince(log, p, i) && SilentSince(log, p, j)
    ensures i == j
  {
  }

  /**
   In every run, a tick gives up on a peer exactly when the table has it as a suspect and its first failure since it
   last answered, or was last given up on, was reported more than the timeout ago.
   */
  lemma GivenUpIff(self: NodeId, timeout: int, steps: seq<Step>, now: int, p: NodeId)
    requires AllowedRun(Start(self, timeout), steps)
    ensures var s := Run(Start(self, timeout), steps);
            p in GivenUp(s, now) <==>
              && p in s.table && s.table[p].health == Suspect
              && exists i :: SilentSince(s.log, p, i) && now - s.log[i].at > s.timeout
  {
    StartIsBacked(self, timeout);
    RunsKeepBacked(Start(self, timeout), steps);
    GivenUpWhen(Run(Start(self, timeout), steps), now, p);
  }

  lemma GivenUpWhen(s: State, now: int, p: NodeId)
    requires Backed(s)
    ensures p in GivenUp(s, now) <==>
              && p in s.table && s.table[p].health == Suspect
              && exists i :: SilentSince(s.log, p, i) && now - s.log[i].at > s.timeout
  {
    if p in s.probes && s.probes[p].suspected {
      var k :| SilentSince(s.log, p, k) && s.log[k].at == s.probes[p].suspectSince;
      forall i | SilentSince(s.log, p, i) ensures i == k { FirstIsUnique(s.log, p, i, k); }
    }
  }

  /** Pings that are merely never answered do not kill: only a reported failure can. */
  lemma OnlyFailuresKill(self: NodeId, timeout: int, steps: seq<Step>, now: int, p: NodeId)
    requires AllowedRun(Start(self, timeout), steps)
    requires forall step :: step in steps && step.ResultStep? && step.peer == p ==> step.acked
    ensures p !in GivenUp(Run(Start(self, timeout), steps), now)
  {
    GivenUpIff(self, timeout, steps, now, p);
    NoFailures(Start(self, timeout), steps, p);
  }

  lemma {:induction false} NoFailures(s: State, steps: seq<Step>, p: NodeId)
    requires forall r :: r in s.log ==> !Fails(r, p)
    requires forall step :: step in steps && step.ResultStep? && step.peer == p ==> step.acked
    ensures forall r :: r in Run(s, steps).log ==> !Fails(r, p)
    decreases |steps|
  {
    if steps == [] {
    } else {
      var t := Next(s, steps[0]);
      hide Reviewed, Pinged, NextPeer, GivenUp, TimedOut, Judged;
      assert forall r :: r in t.log ==> !Fails(r, p);
      NoFailures(t, steps[1..], p);
    }
  }

  /** `p` joins, is pinged, and its ping goes unanswered for longer than the timeout. */
  function Unheard(p: NodeId, timeout: int): seq<Step> {
    [RumorStep(p, Member(Alive, 0)), RebuildStep([p]), TickStep(0), TickStep(timeout + 1)]
  }

  lemma PingedOnce(self: NodeId, timeout: int, p: NodeId)
    requires p != self
    ensures var s := Run(Start(self, timeout), Unheard(p, timeout)[..3]);
            && AllowedRun(Start(self, timeout), Unheard(p, timeout)[..3])
            && s.table == map[self := Member(Alive, 0), p := Member(Alive, 0)] && s.timeout == timeout
            && p in s.probes && s.probes[p].pending && s.probes[p].sentAt == 0
  {
    var s0 := Start(self, timeout);
    var s1 := Next(s0, RumorStep(p, Member(Alive, 0)));
    var s2 := Next(s1, RebuildStep([p]));
    var s3 := Next(s2, TickStep(0));
    assert Order([p], 0) == [p];
    assert Pinged(s2, 0) == Some(p);
    hide Next, Pinged, Order;
    var tick := [TickStep(0)];
    var rest := [RebuildStep([p])] + tick;
    assert Unheard(p, timeout)[..3] == [RumorStep(p, Member(Alive, 0))] + rest;
    assert tick[1..] == [] && rest[1..] == tick && ([RumorStep(p, Member(Alive, 0))] + rest)[1..] == rest;
    assert Run(s3, []) == s3 && Run(s2, tick) == s3 && AllowedRun(s2, tick);
    assert Run(s1, rest) == s3 && AllowedRun(s1, rest);
  }

  lemma UnheardIsSuspect(self: NodeId, timeout: int, p: NodeId)
    requires p != self
    ensures AllowedRun(Start(self, timeout), Unheard(p, timeout))
    ensures var s := Run(Start(self, timeout), Unheard(p, timeout));
            && p in s.table && s.table[p].health == Suspect
  {
    PingedOnce(self, timeout, p);
    var first := Unheard(p, timeout)[..3];
    var s := Run(Start(self, timeout), first);
    var tick := [TickStep(timeout + 1)];
    assert Unheard(p, timeout) == first + tick && tick[1..] == [];
    RunsJoin(Start(self, timeout), first, tick);
    OnlyFailuresKill(self, timeout, first, timeout + 1, p);
    TickMarks(s, timeout + 1, p);
  }

  lemma {:induction false} RunsJoin(s: State, a: seq<Step>, b: seq<Step>)
    requires AllowedRun(s, a)
    ensures Run(s, a + b) == Run(Run(s, a), b)
    ensures AllowedRun(s, a + b) <==> AllowedRun(Run(s, a), b)
    decreases |a|
  {
    hide Next, Allowed;
    if a == [] {
      assert a + b == b;
    } else {
      assert (a + b)[1..] == a[1..] + b;
      RunsJoin(Next(s, a[0]), a[1..], b);
    }
  }

  lemma UnheardStays(s: State, step: Step, p: NodeId)
    requires Backed(s) && p in s.table && s.table[p].health == Suspect && NoFailure(s.log, p)
    requires NothingOf(step, p) && !(step.ResultStep? && step.peer == p)
    ensures var t := Next(s, step); p in t.table && t.table[p].health == Suspect && NoFailure(t.log, p)
  {
    hide Reviewed, Pinged, NextPeer, Judged, SilentSince;
    if step.TickStep? {
      GivenUpWhen(s, step.now, p);
      NeverFailed(s.log, p);
      TickMarks(s, step.now, p);
    }
  }

  ghost predicate NoFailure(log: seq<Report>, p: NodeId) {
    forall r :: r in log ==> !Fails(r, p)
  }

  lemma NeverFailed(log: seq<Report>, p: NodeId)
    requires NoFailure(log, p)
    ensures forall i :: !SilentSince(log, p, i)
  {
    forall i | 0 <= i < |log| ensures !Silent(log, p, i) { assert log[i] in log; }
  }

  lemma {:induction false} UnheardLingers(s: State, steps: seq<Step>, p: NodeId)
    requires Backed(s) && p in s.table && s.table[p].health == Suspect && NoFailure(s.log, p) && AllowedRun(s, steps)
    requires forall step :: step in steps ==> NothingOf(step, p) && !(step.ResultStep? && step.peer == p)
    ensures p in Run(s, steps).table && Run(s, steps).table[p].health == Suspect
    decreases |steps|
  {
    hide Backed, Next, NoFailure, NothingOf;
    if steps == [] {
    } else {
      UnheardStays(s, steps[0], p);
      StepKeepsBacked(s, steps[0]);
      UnheardLingers(Next(s, steps[0]), steps[1..], p);
    }
  }

  /**
   A suspect that persists past the timeout need not die: a peer whose ping merely goes unanswered becomes a suspect,
   and in no continuation without a result of a ping to it does a tick give up on it. As long as no rumour about it
   comes in either, it stays a suspect, however late the ticks.
   */
  lemma SuspectForever(self: NodeId, timeout: int, p: NodeId, more: seq<Step>, now: int)
    requires p != self && AllowedRun(Start(self, timeout), Unheard(p, timeout) + more)
    requires forall step :: step in more && step.ResultStep? ==> step.peer != p
    ensures var s := Run(Start(self, timeout), Unheard(p, timeout));
            p in s.table && s.table[p].health == Suspect
    ensures var t := Run(Start(self, timeout), Unheard(p, timeout) + more);
            && p !in GivenUp(t, now)
            && ((forall step :: step in more && step.RumorStep? ==> step.id != p) ==>
                  p in t.table && t.table[p].health == Suspect)
  {
    UnheardIsSuspect(self, timeout, p);
    OnlyFailuresKill(self, timeout, Unheard(p, timeout) + more, now, p);
    RunsJoin(Start(self, timeout), Unheard(p, timeout), more);
    StartIsBacked(self, timeout);
    RunsKeepBacked(Start(self, timeout), Unheard(p, timeout));
    NoFailures(Start(self, timeout), Unheard(p, timeout), p);
    hide Run, AllowedRun, Backed, GivenUp, Unheard;
    if forall step :: step in more && step.RumorStep? ==> step.id != p {
      UnheardLingers(Run(Start(self, timeout), Unheard(p, timeout)), more, p);
    }
  }

  /** A second failure in a row makes an alive peer a suspect; a first one does not. */
  lemma SuspectedOnSecondFailure(self: NodeId, timeout: int, steps: seq<Step>, now: int, p: NodeId)
    requires AllowedRun(Start(self, timeout), steps)
    requires var s := Run(Start(self, timeout), steps);
             p in s.probes && p in s.table && s.table[p].health == Alive
    ensures var s := Run(Start(self, timeout), steps);
            ProbeResult(s, p, false, now).table[p].health == if NotSilent(s.log, p) then Alive else Suspect
  {
    StartIsBacked(self, timeout);
    RunsKeepBacked(Start(self, timeout), steps);
    var s := Run(Start(self, timeout), steps);
    assert Tracks(s.log, p, s.probes[p]);
  }

  /** No answer from `p` comes in and no rumour about it. */
  predicate NothingOf(step: Step, p: NodeId) {
    && !(step.ResultStep? && step.peer == p && step.acked)
    && !(step.RumorStep? && step.id == p)
  }

  /** `p` is dead, or suspected and failing since report `i`. */
  ghost predicate Doomed(s: State, p: NodeId, i: int) {
    p in s.table && (s.table[p].health == Dead || (s.table[p].health == Suspect && SilentSince(s.log, p, i)))
  }

  lemma StaysDoomed(s: State, step: Step, p: NodeId, i: int)
    requires Doomed(s, p, i) && NothingOf(step, p)
    ensures Doomed(Next(s, step), p, i) && s.log <= Next(s, step).log
  {
    hide Reviewed, Pinged, NextPeer, Judged, SilentSince;
    match step
    case TickStep(now) => TrackingLater(s.log, GaveUp(GivenUp(s, now)), p);
    case ResultStep(peer, acked, now) => TrackingLater(s.log, Report(peer, acked, now), p);
    case _ =>
  }

  lemma {:induction false} RunsStayDoomed(s: State, steps: seq<Step>, p: NodeId, i: int)
    requires Doomed(s, p, i) && forall step :: step in steps ==> NothingOf(step, p)
    ensures Doomed(Run(s, steps), p, i) && s.log <= Run(s, steps).log
    decreases |steps|
  {
    hide Doomed, Next, NothingOf;
    if steps == [] {
    } else {
      StaysDoomed(s, steps[0], p, i);
      RunsStayDoomed(Next(s, steps[0]), steps[1..], p, i);
    }
  }

  /**
   A suspect that stays silent dies: whatever else happens, if nothing is heard from it or about it, the first tick
   past the timeout since its first failure leaves it dead.
   */
  lemma SilentPeerDies(self: NodeId, timeout: int, steps: seq<Step>, more: seq<Step>, now: int, p: NodeId, i: int)
    requires AllowedRun(Start(self, timeout), steps) && AllowedRun(Run(Start(self, timeout), steps), more)
    requires var s := Run(Start(self, timeout), steps);
             && p in s.table && s.table[p].health == Suspect && SilentSince(s.log, p, i)
             && now - s.log[i].at > Run(s, more).timeout
    requires forall step :: step in more ==> NothingOf(step, p)
    ensures var t := Tick(Run(Run(Start(self, timeout), steps), more), now);
            p in t.table && t.table[p].health == Dead
  {
    StartIsBacked(self, timeout);
    var s := Run(Start(self, timeout), steps);
    RunsKeepBacked(Start(self, timeout), steps);
    RunsKeepBacked(s, more);
    RunsStayDoomed(s, more, p, i);
    var t := Run(s, more);
    hide Run, AllowedRun, Backed, GivenUp, TimedOut, Tick, SilentSince;
    if t.table[p].health == Suspect {
      assert t.log[i] == s.log[i] by { SinceInLog(s.log, p, i); }
      GivenUpWhen(t, now, p);
    }
    TickMarks(t, now, p);
  }

  lemma SinceInLog(log: seq<Report>, p: NodeId, i: int)
    requires SilentSince(log, p, i)
    ensures 0 <= i < |log| && log[i].Report?
  {
  }

  // ---------------------------------------------------------------- nobody dies without cause

  /** Some ping to `p` failed at time `at`, and no answer from `p` has come in since. */
  ghost predicate Unanswered(log: seq<Report>, p: NodeId, at: int) {
    exists i :: 0 <= i < |log| && log[i] == Report(p, false, at)
                && forall j :: i < j < |log| ==> !(log[j].Report? && log[j].peer == p && log[j].acked)
  }

  /**
   In every run, a tick gives up on a peer only when a ping to it failed more than the timeout ago and nothing has
   been heard from it since.
   */
  lemma GivenUpOnlyUnanswered(self: NodeId, timeout: int, steps: seq<Step>, now: int, p: NodeId)
    requires AllowedRun(Start(self, timeout), steps)
    requires p in GivenUp(Run(Start(self, timeout), steps), now)
    ensures var s := Run(Start(self, timeout), steps);
            exists at :: Unanswered(s.log, p, at) && now - at > s.timeout
  {
    GivenUpIff(self, timeout, steps, now, p);
    var s := Run(Start(self, timeout), steps);
    var i :| SilentSince(s.log, p, i) && now - s.log[i].at > s.timeout;
    assert s.log[i] == Report(p, false, s.log[i].at);
    assert Unanswered(s.log, p, s.log[i].at);
  }

  /** A tick marks exactly the given-up peers dead and the unanswered alive ones suspect, and nobody else. */
  lemma TickMarks(s: State, now: int, id: NodeId)
    requires id in s.table
    ensures var after := Tick(s, now).table;
            && id in after && after[id].incarnation == s.table[id].incarnation
            && (after[id].health == Dead <==> s.table[id].health == Dead || id in GivenUp(s, now))
            && (after[id].health == Alive <==> s.table[id].health == Alive && id !in TimedOut(s, now))
  {
    hide Pinged, NextPeer, Reviewed;
  }

  /**
   In every run, a member becomes dead only because a rumour says so, or at a tick, when a ping to it failed more than
   the timeout ago and nothing has been heard from it since.
   */
  lemma DeathHasACause(self: NodeId, timeout: int, steps: seq<Step>, step: Step, p: NodeId)
    requires AllowedRun(Start(self, timeout), steps)
    requires var s := Run(Start(self, timeout), steps);
             && Allowed(s, step)
             && p in Next(s, step).table && Next(s, step).table[p].health == Dead
             && !(p in s.table && s.table[p].health == Dead)
    ensures var s := Run(Start(self, timeout), steps);
            || (step.RumorStep? && step.id == p && step.rumor.health == Dead)
            || (step.TickStep? && exists at :: Unanswered(s.log, p, at) && step.now - at > s.timeout)
  {
    var s := Run(Start(self, timeout), steps);
    hide Unanswered, Pinged, NextPeer, Reviewed, Judged, Run, AllowedRun;
    match step
    case TickStep(now) =>
      TickMarks(s, now, p);
      GivenUpOnlyUnanswered(self, timeout, steps, now, p);
    case _ =>
  }

  // ---------------------------------------------------------------- everybody gets a turn

  function IndexIn(s: seq<NodeId>, p: NodeId): (k: nat)
    ensures k <= |s|
    ensures k < |s| ==> s[k] == p
    ensures forall i :: 0 <= i < k ==> s[i] != p
  {
    if s == [] || s[0] == p then 0 else 1 + IndexIn(s[1..], p)
  }

  /** How many peers come before `p` in the order of the next tick. */
  ghost function Distance(s: State, p: NodeId): nat {
    IndexIn(Order(s.peers, s.next), p)
  }

  /** `p` could be pinged at this tick. */
  ghost predicate Ready(s: State, now: int, p: NodeId) {
    Eligible(s.self, Reviewed(s, now), s.table, p)
  }

  lemma MultipleIsFar(d: int, n: nat)
    ensures d >= 1 ==> d * n >= n
    ensures d <= -1 ==> d * n + n <= 0
  {
    if d >= 1 { assert (d - 1) * n >= 0; }
    if d <= -1 { assert (-d - 1) * n >= 0; }
  }

  lemma ModUnique(x: nat, n: nat, q: nat, r: nat)
    requires r < n && x == q * n + r
    ensures x % n == r
  {
    var d := q - x / n;
    assert x == x / n * n + x % n;
    assert d * n == x % n - r;
    MultipleIsFar(d, n);
  }

  /** Moving on by at most one turn wraps around at most once. */
  lemma Wrapped(a: nat, m: nat, n: nat)
    requires n > 0 && m <= n
    ensures (a + m) % n == if a % n + m < n then a % n + m else a % n + m - n
  {
    var q := a / n;
    assert a == q * n + a % n;
    if a % n + m < n {
      ModUnique(a + m, n, q, a % n + m);
    } else {
      assert (q + 1) * n == q * n + n;
      ModUnique(a + m, n, q + 1, a % n + m - n);
    }
  }

  lemma ShiftFrom(peers: seq<NodeId>, f: nat, m: nat, j: nat)
    requires f < |peers| && j + m < |peers|
    ensures OrderFrom(peers, if f + m < |peers| then f + m else f + m - |peers|)[j] == OrderFrom(peers, f)[j + m]
  {
  }

  /** Moving the cursor by `m` shifts the order by `m`. */
  lemma OrderShifts(peers: seq<NodeId>, next: nat, m: nat, j: nat)
    requires m <= |peers| && j + m < |peers|
    ensures Order(peers, (next + m) % |peers|)[j] == Order(peers, next)[j + m]
  {
    var n := |peers|;
    Wrapped(next, m, n);
    var g := (next + m) % n;
    ModUnique(g, n, 0, g);
    ShiftFrom(peers, next % n, m, j);
  }

  lemma {:induction false} IndexAtMost(s: seq<NodeId>, p: NodeId, k: nat)
    requires k < |s| && s[k] == p
    ensures IndexIn(s, p) <= k
  {
    if k == 0 || s[0] == p {
    } else {
      IndexAtMost(s[1..], p, k - 1);
    }
  }

  /** A tick pings the peer that is ready or brings it closer. */
  lemma TickAdvances(s: State, now: int, p: NodeId)
    requires p in s.peers && Ready(s, now, p)
    ensures Pinged(s, now) == Some(p) || Distance(Tick(s, now), p) < Distance(s, p)
  {
    hide Order, Reviewed, Skipped, IndexIn, Eligible;
    var order, k, d := Order(s.peers, s.next), Passed(s, now), Distance(s, p);
    OrderCovers(s.peers, s.next, p);
    assert k <= d < |order|;
    if k < d {
      var m := k + 1;
      OrderShifts(s.peers, s.next, m, d - m);
      OrderCovers(s.peers, (s.next + m) % |s.peers|, p);
      IndexAtMost(Order(s.peers, (s.next + m) % |s.peers|), p, d - m);
    }
  }

  lemma OrderCovers(peers: seq<NodeId>, next: nat, p: NodeId)
    requires p in peers
    ensures |Order(peers, next)| == |peers| && IndexIn(Order(peers, next), p) < |peers|
  {
    var f := next % |peers|;
    var o := OrderFrom(peers, f);
    var k :| 0 <= k < |peers| && peers[k] == p;
    var j := if k >= f then k - f else |peers| - f + k;
    assert o[j] == p;
    IndexAtMost(o, p, j);
  }

  function Ticks(steps: seq<Step>): nat {
    if steps == [] then 0 else (if steps[0].TickStep? then 1 else 0) + Ticks(steps[1..])
  }

  /** The peer list stays as it is, and at every tick of the run `p` is neither being pinged nor known dead. */
  ghost predicate StaysReady(s: State, steps: seq<Step>, p: NodeId)
    decreases |steps|
  {
    steps == [] ||
    ((steps[0].TickStep? ==> Ready(s, steps[0].now, p)) && (steps[0].RebuildStep? ==> steps[0].peers == s.peers)
     && StaysReady(Next(s, steps[0]), steps[1..], p))
  }

  /** Some tick of the run pings `p`. */
  ghost predicate GetsPinged(s: State, steps: seq<Step>, p: NodeId)
    decreases |steps|
  {
    steps != [] &&
    ((steps[0].TickStep? && Pinged(s, steps[0].now) == Some(p)) || GetsPinged(Next(s, steps[0]), steps[1..], p))
  }

  lemma {:induction false} PingedBeforeLong(s: State, steps: seq<Step>, p: NodeId)
    requires p in s.peers && StaysReady(s, steps, p) && Ticks(steps) > Distance(s, p)
    ensures GetsPinged(s, steps, p)
    decreases |steps|
  {
    var t := Next(s, steps[0]);
    assert t.peers == s.peers;
    if steps[0].TickStep? {
      TickAdvances(s, steps[0].now, p);
      if Pinged(s, steps[0].now) != Some(p) { PingedBeforeLong(t, steps[1..], p); }
    } else {
      assert t.next == s.next;
      PingedBeforeLong(t, steps[1..], p);
    }
  }

  /** With a fixed peer list, a peer that stays ready is pinged within as many ticks as there are peers. */
  lemma EveryoneGetsATurn(s: State, steps: seq<Step>, p: NodeId)
    requires p in s.peers && StaysReady(s, steps, p) && Ticks(steps) >= |s.peers|
    ensures GetsPinged(s, steps, p)
  {
    OrderCovers(s.peers, s.next, p);
    PingedBeforeLong(s, steps, p);
  }

  /** Who may be pinged: anybody but the node itself, those being waited for and those known dead. */
  lemma ReadyIff(s: State, now: int, p: NodeId)
    ensures Ready(s, now, p)
       <==> && p != s.self && !(p in s.table && s.table[p].health == Dead)
            && !(p in s.probes && s.probes[p].pending && now - s.probes[p].sentAt <= s.timeout)
  {
    hide GivenUp;
  }

  // ---------------------------------------------------------------- answers, overdue pings and rumours

  /** An answer makes a known member alive again, whatever it was taken for, and clears its record. */
  lemma AnswerRevives(s: State, p: NodeId, now: int)
    requires p in s.probes && p in s.table
    ensures var t := ProbeResult(s, p, true, now);
            && t.table == s.table[p := Member(Alive, s.table[p].incarnation)]
            && t.probes[p] == s.probes[p].(pending := false, suspected := false, failures := 0)
  {
  }

  ghost predicate AwaitedSince(s: State, p: NodeId, at: int) {
    p in s.probes && s.probes[p].pending && s.probes[p].sentAt == at
  }

  /** None of these steps brings a result of `p` or is a tick past the timeout since `at`. */
  ghost predicate StillEarly(s: State, steps: seq<Step>, p: NodeId, at: int)
    decreases |steps|
  {
    steps == [] ||
    (!(steps[0].ResultStep? && steps[0].peer == p) && (steps[0].TickStep? ==> steps[0].now - at <= s.timeout)
     && StillEarly(Next(s, steps[0]), steps[1..], p, at))
  }

  lemma PingIsAwaited(s: State, at: int, p: NodeId)
    requires Pinged(s, at) == Some(p)
    ensures AwaitedSince(Tick(s, at), p, at)
  {
    hide Pinged, Reviewed, NextPeer;
  }

  lemma StaysAwaited(s: State, step: Step, p: NodeId, at: int)
    requires AwaitedSince(s, p, at) && !(step.ResultStep? && step.peer == p)
    requires step.TickStep? ==> step.now - at <= s.timeout
    ensures AwaitedSince(Next(s, step), p, at)
  {
    if step.TickStep? {
      PingedIsPeer(s, step.now);
      hide Pinged, NextPeer, GivenUp;
    }
  }

  lemma {:induction false} RunsStayAwaited(s: State, steps: seq<Step>, p: NodeId, at: int)
    requires AwaitedSince(s, p, at) && StillEarly(s, steps, p, at)
    ensures AwaitedSince(Run(s, steps), p, at)
    decreases |steps|
  {
    hide Next;
    if steps == [] {
    } else {
      StaysAwaited(s, steps[0], p, at);
      RunsStayAwaited(Next(s, steps[0]), steps[1..], p, at);
    }
  }

  /**
   A ping that is not answered: through any steps without its result, the first tick more than the timeout after it
   makes an alive peer a suspect, and no earlier one does.
   */
  lemma OverduePingSuspects(s: State, at: int, p: NodeId, steps: seq<Step>, now: int)
    requires Pinged(s, at) == Some(p) && StillEarly(Tick(s, at), steps, p, at)
    requires var t := Run(Tick(s, at), steps);
             p in t.table && t.table[p].health == Alive
    ensures var t := Run(Tick(s, at), steps);
            Tick(t, now).table[p].health == if now - at > t.timeout then Suspect else Alive
  {
    PingIsAwaited(s, at, p);
    RunsStayAwaited(Tick(s, at), steps, p, at);
    hide Tick, Run, StillEarly, Pinged;
    TickMarks(Run(Tick(s, at), steps), now, p);
  }

  /** What a rumour about another node does: strangers are learnt of alive, later or equal incarnations taken over. */
  lemma RumorTakenOverIff(t: Table, self: NodeId, id: NodeId, rumor: Member)
    requires id != self
    ensures var after := ApplyRumor(t, self, id, rumor);
            && (forall k :: k != id ==> (k in after <==> k in t) && (k in t ==> after[k] == t[k]))
            && (id in after <==> id in t || rumor.health == Alive)
            && (id in after ==>
                  after[id] == if id in t && rumor.incarnation < t[id].incarnation then t[id] else rumor)
  {
  }

  // ---------------------------------------------------------------- membership over whole runs

  /** Members stay, incarnations never fall, and the node itself is alive throughout. */
  ghost predicate Advances(s: State, t: State) {
    t.self == s.self && t.self in t.table && t.table[t.self].health == Alive
    && forall id :: id in s.table ==> id in t.table && s.table[id].incarnation <= t.table[id].incarnation
  }

  lemma StepAdvances(s: State, step: Step)
    requires Backed(s) && Allowed(s, step) && s.self in s.table && s.table[s.self].health == Alive
    ensures Advances(s, Next(s, step))
  {
    hide Unanswered, Pinged, NextPeer, Judged;
    match step
    case TickStep(now) => assert s.self !in TimedOut(s, now) && s.self !in GivenUp(s, now);
    case _ =>
  }

  lemma {:induction false} RunsAdvance(s: State, steps: seq<Step>)
    requires Backed(s) && AllowedRun(s, steps) && s.self in s.table && s.table[s.self].health == Alive
    ensures Advances(s, Run(s, steps))
    decreases |steps|
  {
    if steps == [] {
    } else {
      var t := Next(s, steps[0]);
      StepAdvances(s, steps[0]);
      StepKeepsBacked(s, steps[0]);
      hide Backed, Next;
      RunsAdvance(t, steps[1..]);
    }
  }

  /** A rumour that would bury the node itself leaves it alive under an incarnation later than the rumour's. */
  lemma RumorOfSelfIsRefuted(t: Table, self: NodeId, rumor: Member)
    requires self in t && t[self].health == Alive && rumor.health != Alive
    ensures var after := ApplyRumor(t, self, self, rumor);
            after[self].health == Alive && after[self].incarnation > rumor.incarnation
  {
  }
}
