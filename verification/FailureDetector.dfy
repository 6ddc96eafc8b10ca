/** The membership table and the failure detector as they run; each call is one step of `DetectorSpec`. */
module FailureDetectorImpl {
  import opened Common
  import D = DetectorSpec
  import opened DetectorSpec

  class MembershipTable {
    const self: NodeId
    var nodes: Table

    constructor (self: NodeId)
      ensures this.self == self && nodes == map[self := Member(Alive, 0)]
    {
      this.self := self;
      nodes := map[self := Member(Alive, 0)];
    }

    method MarkSuspect(id: NodeId)
      modifies this
      ensures nodes == D.MarkSuspect(old(nodes), id)
    {
      if id !in nodes || nodes[id].health == Dead { return; }
      if nodes[id].health == Suspect { return; }
      nodes := nodes[id := nodes[id].(health := Suspect)];
    }

    method MarkDead(id: NodeId)
      modifies this
      ensures nodes == D.MarkDead(old(nodes), id)
    {
      if id !in nodes || nodes[id].health == Dead { return; }
      nodes := nodes[id := nodes[id].(health := Dead)];
    }

    method MarkAlive(id: NodeId, incarnation: nat)
      modifies this
      ensures nodes == D.MarkAlive(old(nodes), id, incarnation)
    {
      if id !in nodes { return; }
      if nodes[id].health == Alive && nodes[id].incarnation >= incarnation { return; }
      nodes := nodes[id := Member(Alive, incarnation)];
    }

    method ApplyRumor(id: NodeId, rumor: Member)
      modifies this
      ensures nodes == D.ApplyRumor(old(nodes), self, id, rumor)
    {
      if id !in nodes {
        if rumor.health != Alive { return; }
        nodes := nodes[id := rumor];
        return;
      }
      var local := nodes[id];
      if rumor.incarnation < local.incarnation { return; }
      if rumor.incarnation == local.incarnation && rumor.health == local.health { return; }
      if id == self && rumor.health != Alive {
        var later := if local.incarnation >= rumor.incarnation then local.incarnation else rumor.incarnation;
        var incarnation := if local.incarnation <= rumor.incarnation then later + 1 else local.incarnation;
        nodes := nodes[id := Member(Alive, incarnation)];
      } else {
        nodes := nodes[id := rumor];
      }
    }
  }

  /** Several suspects or deaths, marked one by one in any order. */
  method MarkEach(table: MembershipTable, ps: set<NodeId>, dead: bool)
    modifies table
    ensures table.nodes == if dead then MarkAllDead(old(table.nodes), ps) else MarkAllSuspect(old(table.nodes), ps)
  {
    var left := ps;
    ghost var before := table.nodes;
    while left != {}
      invariant left <= ps
      invariant table.nodes == if dead then MarkAllDead(before, ps - left) else MarkAllSuspect(before, ps - left)
      decreases left
    {
      var p :| p in left;
      if dead { table.MarkDead(p); } else { table.MarkSuspect(p); }
      left := left - {p};
    }
  }

  class FailureDetector {
    const self: NodeId
    const table: MembershipTable
    var timeout: int
    var peers: seq<NodeId>
    var next: nat
    var probes: Probes
    ghost var log: seq<Report>

    ghost function Model(): State
      reads this, table
    {
      State(self, timeout, peers, next, probes, table.nodes, log)
    }

    constructor (self: NodeId, timeout: int)
      ensures Model() == Start(self, timeout) && fresh(table) && table.self == self
    {
      this.self, this.timeout, peers, next, probes, log := self, timeout, [], 0, map[], [];
      table := new MembershipTable(self);
    }

    /** Pings that got no answer in time are no longer waited for. */
    method Sweep(now: int) returns (timedOut: set<NodeId>)
      modifies this`probes
      ensures timedOut == TimedOut(old(Model()), now) && probes == Swept(old(Model()), now)
    {
      var left := probes.Keys;
      ghost var s := Model();
      timedOut := {};
      while left != {}
        invariant left <= probes.Keys == s.probes.Keys
        invariant timedOut == TimedOut(s, now) - left
        invariant forall p :: p in probes ==>
                    probes[p] == if p in timedOut then s.probes[p].(pending := false) else s.probes[p]
        decreases left
      {
        var p :| p in left;
        if probes[p].pending && now - probes[p].sentAt > timeout {
          probes := probes[p := probes[p].(pending := false)];
          timedOut := timedOut + {p};
        }
        left := left - {p};
      }
    }

    /** Suspects past the timeout are handed over to be marked dead, and their record is cleared. */
    method Escalate(now: int) returns (dead: set<NodeId>)
      modifies this`probes
      ensures dead == GivenUp(old(Model()), now) && probes == Escalated(old(probes), dead)
    {
      dead := Overdue(now);
      var left := dead;
      ghost var before := probes;
      while left != {}
        invariant left <= dead && probes == Escalated(before, dead - left)
        decreases left
      {
        var p :| p in left;
        if p in probes { probes := probes[p := probes[p].(suspected := false, failures := 0)]; }
        left := left - {p};
      }
      assert dead - left == dead;
    }

    method Overdue(now: int) returns (dead: set<NodeId>)
      ensures dead == GivenUp(Model(), now)
    {
      var left := probes.Keys;
      dead := {};
      while left != {}
        invariant left <= probes.Keys && dead == GivenUp(Model(), now) - left
        decreases left
      {
        var p :| p in left;
        if probes[p].suspected && p in table.nodes && table.nodes[p].health == Suspect
           && now - probes[p].suspectSince > timeout
        {
          dead := dead + {p};
        }
        left := left - {p};
      }
    }

    /** Round-robin from the cursor to the first peer that may be pinged, once around at most. */
    method Choose() returns (target: Option<NodeId>)
      modifies this`next
      ensures var order := Order(peers, old(next));
              var k := Skipped(self, probes, table.nodes, order);
              target == (if k < |order| then Some(order[k]) else None)
              && next == (if peers == [] then old(next) else (old(next) + if k < |peers| then k + 1 else k) % |peers|)
    {
      if |peers| == 0 { return None; }
      ghost var order, start := Order(peers, next), next;
      var attempt := 0;
      while attempt < |peers|
        invariant 0 <= attempt <= |peers| == |order|
        invariant if attempt == 0 then next == start else next == (start + attempt) % |peers|
        invariant forall i :: 0 <= i < attempt ==> !Eligible(self, probes, table.nodes, order[i])
      {
        Cursor(peers, start, attempt, next);
        var peer := peers[next % |peers|];
        next := (next + 1) % |peers|;
        attempt := attempt + 1;
        if Eligible(self, probes, table.nodes, peer) { return Some(peer); }
      }
      target := None;
    }

    /** Check timeouts, then ping one peer. */
    method Tick(now: int) returns (target: Option<NodeId>)
      modifies this, table
      ensures target == Pinged(old(Model()), now)
      ensures Model() == D.Tick(old(Model()), now)
    {
      hide Swept, TimedOut, Escalated, Skipped, Order;
      var timedOut := Sweep(now);
      SweepKeepsGivenUp(old(Model()), Model(), now);
      var dead := Escalate(now);
      target := Choose();
      if target.Some? {
        probes := probes[target.value := ProbeOf(probes, target.value).(pending := true, sentAt := now)];
      }
      log := log + [GaveUp(dead)];
      MarkEach(table, timedOut, false);
      MarkEach(table, dead, true);
    }

    /** A ping came back or failed. */
    method OnProbeResult(peer: NodeId, acked: bool, now: int)
      modifies this, table
      ensures Model() == ProbeResult(old(Model()), peer, acked, now)
    {
      if peer !in probes { return; }
      var p := probes[peer].(pending := false);
      if acked {
        p := p.(suspected := false, failures := 0);
      } else {
        p := p.(failures := p.failures + 1);
        if !p.suspected { p := p.(suspected := true, suspectSince := now); }
      }
      probes := probes[peer := p];
      log := log + [Report(peer, acked, now)];
      if acked {
        var incarnation := if peer in table.nodes then table.nodes[peer].incarnation else 0;
        table.MarkAlive(peer, incarnation);
        return;
      }
      if p.failures < SUSPECT_THRESHOLD { return; }
      table.MarkSuspect(peer);
    }
  }

  /** Who is given up on does not depend on pending pings. */
  lemma SweepKeepsGivenUp(s: State, t: State, now: int)
    requires t == s.(probes := Swept(s, now))
    ensures GivenUp(t, now) == GivenUp(s, now)
  {
  }

  /** Where the cursor stands after `attempt` peers. */
  lemma Cursor(peers: seq<NodeId>, start: nat, attempt: nat, next: nat)
    requires attempt < |peers|
    requires if attempt == 0 then next == start else next == (start + attempt) % |peers|
    ensures |Order(peers, start)| == |peers| && peers[next % |peers|] == Order(peers, start)[attempt]
    ensures (next + 1) % |peers| == (start + attempt + 1) % |peers|
  {
    var n := |peers|;
    Wrapped(start, attempt, n);
    if attempt > 0 { ModUnique(next, n, 0, next); }
    Wrapped(start, attempt + 1, n);
    Wrapped(next, 1, n);
  }
}
