/**
 How many answers a quorum read needs: for every write to two replicas or more there is a run in which a read begun
 after the write succeeded decides on N - W answers and misses the write, and one in which a single further answer
 makes it see the write.
 */
module QuorumBound {
  import opened Common
  import opened Lww
  import opened ReadQuorum
  import opened Replication
  import FanOut

  // ---------------------------------------------------------------- the write and its first acknowledgements

  /** The write has been made and its first `m` replicas, and nobody else, have applied and acknowledged it. */
  ghost predicate Spread(s: State, a: NodeId, rs: seq<NodeId>, req: Request, m: nat)
    requires m <= |rs|
  {
    && s.writeOps == map[0 := WriteOp(a, req.key, StampOf(req), rs, Elements(rs[..m]))]
    && s.readOps == map[]
    && (forall i: nat :: m <= i < |rs| ==> Waiting(s, a, rs, req, i))
    && (forall n :: n != a && n !in rs[..m] ==> StoreAt(s, n) == map[])
  }

  ghost predicate Waiting(s: State, a: NodeId, rs: seq<NodeId>, req: Request, i: nat)
    requires i < |rs|
  {
    i in s.calls && s.calls[i] == Call(a, rs[i], req, false, ForWrite(0))
  }

  lemma WriteSpreads(a: NodeId, rs: seq<NodeId>, req: Request)
    requires Distinct(rs) && a !in rs
    ensures Spread(DoWrite(INIT, 0, a, req, rs), a, rs, req, 0)
  {
    var t := DoWrite(INIT, 0, a, req, rs);
    assert Elements(rs[..0]) == {};
    forall i: nat | i < |rs| ensures Waiting(t, a, rs, req, i) {
      assert t.calls[i] == WriteCalls(a, req, rs, 0)[i];
    }
  }

  lemma AckSpreads(s: State, a: NodeId, rs: seq<NodeId>, req: Request, m: nat)
    requires Distinct(rs) && a !in rs && m < |rs| && Spread(s, a, rs, req, m)
    ensures m in s.calls && m in DoDeliver(s, m).calls && DoDeliver(s, m).calls[m].applied
    ensures Spread(DoAck(DoDeliver(s, m), m), a, rs, req, m + 1)
  {
    assert Waiting(s, a, rs, req, m);
    var t := DoAck(DoDeliver(s, m), m);
    assert Elements(rs[..m + 1]) == Elements(rs[..m]) + {rs[m]};
    forall i: nat | m + 1 <= i < |rs| ensures Waiting(t, a, rs, req, i) { assert Waiting(s, a, rs, req, i); }
    forall n | n != a && n !in rs[..m + 1] ensures StoreAt(t, n) == map[] {
      assert rs[m] in rs[..m + 1];
      assert StoreAt(s, n) == map[];
    }
  }

  lemma {:induction false} RunSpread(a: NodeId, rs: seq<NodeId>, req: Request, m: nat) returns (steps: seq<Step>)
    requires Distinct(rs) && a !in rs && m <= |rs|
    ensures EnabledSteps(INIT, steps) && Spread(Execute(INIT, steps), a, rs, req, m)
  {
    hide Spread, DoWrite, DoDeliver, DoAck, Execute, EnabledSteps;
    if m == 0 {
      WriteSpreads(a, rs, req);
      ExecuteNone(INIT);
      ExecuteLast(INIT, [], Step.Write(0, a, req, rs));
      steps := [] + [Step.Write(0, a, req, rs)];
    } else {
      steps := RunSpread(a, rs, req, m - 1);
      AckSpreads(Execute(INIT, steps), a, rs, req, m - 1);
      ExecuteLast(INIT, steps, Deliver(m - 1));
      steps := steps + [Deliver(m - 1)];
      ExecuteLast(INIT, steps, Ack(m - 1));
      steps := steps + [Ack(m - 1)];
    }
  }

  // ---------------------------------------------------------------- the read and its votes

  /** What the read hears from `n`: its reply if it is among `answers`, a failed send otherwise. */
  ghost function VoteOf(base: State, n: NodeId, key: Key, answers: set<NodeId>): Vote {
    if n in answers then Reply(LookUp(base, n, key)) else Failed
  }

  /** `c` reads what was written in `base` and has heard from the first `i` of `xs`. */
  ghost predicate Polled(s: State, base: State, c: NodeId, key: Key, xs: seq<NodeId>, answers: set<NodeId>, i: nat)
    requires i <= |xs|
  {
    && s.writeOps == base.writeOps && s.stores == base.stores && 0 in s.readOps
    && var r := s.readOps[0];
    && r.coord == c && r.key == key && 0 in r.after
    && c in r.served && r.served[c] == LookUp(base, c, key)
    && (forall n :: n in r.served ==> n == c || n in xs[..i])
    && |r.votes| == i && (forall k :: 0 <= k < i ==> r.votes[k] == Noted(xs[k], VoteOf(base, xs[k], key, answers)))
  }

  lemma ReadPolls(base: State, c: NodeId, key: Key, xs: seq<NodeId>, answers: set<NodeId>)
    requires base.readOps == map[] && 0 in base.writeOps && Succeeded(base.writeOps[0])
    ensures Polled(DoRead(base, 0, c, key), base, c, key, xs, answers, 0)
  {
  }

  lemma AnswerPolls(s: State, base: State, c: NodeId, key: Key, xs: seq<NodeId>, answers: set<NodeId>, i: nat)
    requires i < |xs| && Distinct(xs) && c !in xs && xs[i] in answers && Polled(s, base, c, key, xs, answers, i)
    ensures Enabled(s, Serve(0, xs[i])) && Enabled(DoServe(s, 0, xs[i]), Note(0, xs[i], false))
    ensures var t := DoServe(s, 0, xs[i]);
            Polled(DoNote(t, 0, xs[i], Reply(t.readOps[0].served[xs[i]])), base, c, key, xs, answers, i + 1)
  {
    var x, t := xs[i], DoServe(s, 0, xs[i]);
    assert x !in xs[..i];
    assert LookUp(s, x, key) == LookUp(base, x, key);
    forall v | v in t.readOps[0].votes ensures v.node != x {
      var k :| 0 <= k < i && t.readOps[0].votes[k] == v;
      assert s.readOps[0].votes[k] == Noted(xs[k], VoteOf(base, xs[k], key, answers));
    }
  }

  lemma SilencePolls(s: State, base: State, c: NodeId, key: Key, xs: seq<NodeId>, answers: set<NodeId>, i: nat)
    requires i < |xs| && Distinct(xs) && c !in xs && xs[i] !in answers && Polled(s, base, c, key, xs, answers, i)
    ensures Enabled(s, Note(0, xs[i], true))
    ensures Polled(DoNote(s, 0, xs[i], Failed), base, c, key, xs, answers, i + 1)
  {
    forall v | v in s.readOps[0].votes ensures v.node != xs[i] {
      var k :| 0 <= k < i && s.readOps[0].votes[k] == v;
      assert s.readOps[0].votes[k] == Noted(xs[k], VoteOf(base, xs[k], key, answers));
    }
  }

  lemma {:induction false} RunPolled(before: seq<Step>, c: NodeId, key: Key, xs: seq<NodeId>,
                                     answers: set<NodeId>, i: nat)
    returns (steps: seq<Step>)
    requires EnabledSteps(INIT, before) && i <= |xs| && Distinct(xs) && c !in xs
    requires var base := Execute(INIT, before);
             base.readOps == map[] && 0 in base.writeOps && Succeeded(base.writeOps[0])
    ensures EnabledSteps(INIT, steps)
    ensures Polled(Execute(INIT, steps), Execute(INIT, before), c, key, xs, answers, i)
  {
    hide Polled, DoRead, DoServe, DoNote, Execute, EnabledSteps, Succeeded;
    var base := Execute(INIT, before);
    if i == 0 {
      ReadPolls(base, c, key, xs, answers);
      ExecuteLast(INIT, before, Read(0, c, key));
      steps := before + [Read(0, c, key)];
    } else {
      steps := RunPolled(before, c, key, xs, answers, i - 1);
      var s, x := Execute(INIT, steps), xs[i - 1];
      if x in answers {
        AnswerPolls(s, base, c, key, xs, answers, i - 1);
        ExecuteLast(INIT, steps, Serve(0, x));
        steps := steps + [Serve(0, x)];
        ExecuteLast(INIT, steps, Note(0, x, false));
        steps := steps + [Note(0, x, false)];
      } else {
        SilencePolls(s, base, c, key, xs, answers, i - 1);
        ExecuteLast(INIT, steps, Note(0, x, true));
        steps := steps + [Note(0, x, true)];
      }
    }
  }

  // ---------------------------------------------------------------- what the read makes of it

  /** How many replicas must acknowledge a write besides its coordinator. */
  function Needed(rs: seq<NodeId>): nat {
    FanOut.Quorum(|rs|) - 1
  }

  /** The other members, in the order they are heard from by the last replica. */
  function Others(a: NodeId, rs: seq<NodeId>): seq<NodeId>
    requires rs != []
  {
    [a] + rs[..|rs| - 1]
  }

  /**
   The read decides on these votes and not before: at once when its own answer is all it wants or can get, otherwise at
   the first vote that gives it its quorum or is the last to come.
   */
  ghost predicate DecidesHere(quorum: nat, total: nat, local: Option<Entry>, vs: seq<Vote>) {
    if total == 0 || quorum <= 1 then vs == [] else DecidedAfter(quorum, total, local, vs) == Some(|vs|)
  }

  /** The read began after the write succeeded and has just decided on `answers` answers, the reader's own included. */
  ghost predicate DecidedOn(s: State, a: NodeId, rs: seq<NodeId>, req: Request, quorum: nat, answers: nat) {
    && 0 in s.writeOps && 0 in s.readOps && 0 in s.readOps[0].after
    && var w, r := s.writeOps[0], s.readOps[0];
    && w.coord == a && w.replicas == rs && w.key == req.key == r.key && w.stamp == StampOf(req)
    && Answering(r) <= Members(w) && |Answering(r)| == answers
    && r.coord in r.served && DecidesHere(quorum, |rs|, r.served[r.coord], VotesOf(r))
  }

  lemma PolledAnswering(s: State, base: State, c: NodeId, key: Key, xs: seq<NodeId>, answers: set<NodeId>, i: nat)
    requires i <= |xs| && Polled(s, base, c, key, xs, answers, i)
    ensures Answering(s.readOps[0]) == {c} + answers * Elements(xs[..i])
  {
    var r := s.readOps[0];
    forall n | n in answers && n in xs[..i] ensures n in Answering(r) {
      var k :| 0 <= k < i && xs[k] == n;
      assert r.votes[k] == Noted(n, Reply(LookUp(base, n, key))) && r.votes[k] in r.votes;
    }
    forall n | n in Answering(r) && n != c ensures n in answers && n in xs[..i] {
      var v :| v in r.votes && v.vote.Answered? && v.node == n;
      var k :| 0 <= k < i && r.votes[k] == v;
      assert r.votes[k] == Noted(xs[k], VoteOf(base, xs[k], key, answers));
    }
  }

  lemma {:induction false} CountedInPrefix(vs: seq<Vote>, k: nat)
    requires k <= |vs|
    ensures CountedVotes(vs[..k]) <= CountedVotes(vs)
  {
    if k == |vs| {
      assert vs[..k] == vs;
    } else {
      CountedInPrefix(vs[..|vs| - 1], k);
      assert vs[..|vs| - 1][..k] == vs[..k];
    }
  }

  lemma {:induction false} AtMostOneCounted(vs: seq<Vote>, only: int)
    requires forall i :: 0 <= i < |vs| && i != only ==> !Counted(vs[i])
    ensures CountedVotes(vs) <= if 0 <= only < |vs| then 1 else 0
  {
    if vs == [] {
    } else {
      AtMostOneCounted(vs[..|vs| - 1], only);
    }
  }

  /** Without enough acknowledgements the read waits for everybody. */
  lemma FewVotesWait(quorum: nat, total: nat, local: Option<Entry>, vs: seq<Vote>)
    requires |vs| == total > 0 && (if local.Some? then 1 else 0) + CountedVotes(vs) < quorum
    ensures DecidedAfter(quorum, total, local, vs) == Some(total)
  {
    AllVotesDecide(quorum, total, local, vs);
    var k := DecidedAfter(quorum, total, local, vs).value;
    NoteAllIsMaximum(quorum, total, local, vs[..k]);
    CountedInPrefix(vs, k);
  }

  /** Where only `holder` can have something to tell, a read that wants two acknowledgements hears everybody out. */
  lemma PolledWaits(s: State, base: State, c: NodeId, key: Key, xs: seq<NodeId>, answers: set<NodeId>, quorum: nat,
                    holder: NodeId)
    requires xs != [] && Distinct(xs) && quorum >= 2 && Polled(s, base, c, key, xs, answers, |xs|)
    requires LookUp(base, c, key) == None && forall n :: n in answers && n != holder ==> LookUp(base, n, key) == None
    ensures var r := s.readOps[0]; DecidesHere(quorum, |xs|, r.served[c], VotesOf(r))
  {
    hide NoteAll, CountedVotes, DecidedAfter;
    var r := s.readOps[0];
    var vs := VotesOf(r);
    var only := if holder in xs then Position(xs, holder) else -1;
    forall i | 0 <= i < |vs| && i != only ensures !Counted(vs[i]) {
      assert r.votes[i] == Noted(xs[i], VoteOf(base, xs[i], key, answers));
    }
    AtMostOneCounted(vs, only);
    FewVotesWait(quorum, |xs|, r.served[c], vs);
  }

  ghost function Position(xs: seq<NodeId>, x: NodeId): (k: int)
    requires x in xs
    ensures 0 <= k < |xs| && xs[k] == x
  {
    var k :| 0 <= k < |xs| && xs[k] == x;
    k
  }

  lemma OthersDistinct(a: NodeId, rs: seq<NodeId>)
    requires Distinct(rs) && a !in rs && rs != []
    ensures var xs := Others(a, rs); |xs| == |rs| && Distinct(xs) && rs[|rs| - 1] !in xs
    ensures {rs[|rs| - 1]} + Elements(Others(a, rs)) == {a} + Elements(rs)
  {
    assert rs == rs[..|rs| - 1] + [rs[|rs| - 1]];
  }

  lemma PolledDecides(s: State, base: State, a: NodeId, rs: seq<NodeId>, req: Request, answers: set<NodeId>,
                      quorum: nat, i: nat)
    requires Distinct(rs) && a !in rs && i <= |rs| && rs != []
    requires 0 in base.writeOps && base.writeOps[0] == WriteOp(a, req.key, StampOf(req), rs, base.writeOps[0].acked)
    requires Polled(s, base, rs[|rs| - 1], req.key, Others(a, rs), answers, i)
    requires answers <= Elements(Others(a, rs)[..i])
    requires DecidesHere(quorum, |rs|, s.readOps[0].served[rs[|rs| - 1]], VotesOf(s.readOps[0]))
    ensures DecidedOn(s, a, rs, req, quorum, 1 + |answers|)
  {
    var xs, c := Others(a, rs), rs[|rs| - 1];
    OthersDistinct(a, rs);
    PolledAnswering(s, base, c, req.key, xs, answers, i);
    assert answers * Elements(xs[..i]) == answers;
    assert Members(s.writeOps[0]) == {a} + Elements(rs);
    hide Answering, DecidesHere, Others, Members;
  }

  /** Nobody that answered has the key, so the read returns nothing. */
  lemma NothingHeard(s: State, base: State, c: NodeId, key: Key, xs: seq<NodeId>, answers: set<NodeId>, quorum: nat,
                     i: nat)
    requires i <= |xs| && Polled(s, base, c, key, xs, answers, i) && LookUp(base, c, key) == None
    requires forall n :: n in answers ==> LookUp(base, n, key) == None
    ensures var r := s.readOps[0]; r.coord in r.served && Outcome(r, quorum, |xs|) == None
  {
    var r := s.readOps[0];
    var local, vs := r.served[c], VotesOf(r);
    NoteAllIsMaximum(quorum, |xs|, local, vs);
    forall v | v in vs ensures !Counted(v) {
      var k :| 0 <= k < i && vs[k] == v;
      assert r.votes[k] == Noted(xs[k], VoteOf(base, xs[k], key, answers));
    }
    assert forall e :: !Candidate(local, vs, e);
  }

  // ---------------------------------------------------------------- the bound is exact

  /** The members that are neither in the write's quorum nor the reader itself. */
  ghost function Bystanders(rs: seq<NodeId>): set<NodeId>
    requires Needed(rs) < |rs|
  {
    Elements(rs[Needed(rs)..|rs| - 1])
  }

  lemma BystanderCount(a: NodeId, rs: seq<NodeId>)
    requires Distinct(rs) && a !in rs && |rs| >= 2
    ensures Needed(rs) < |rs| && 1 + |Bystanders(rs)| == 1 + |rs| - FanOut.Quorum(|rs|)
    ensures Bystanders(rs) <= Elements(Others(a, rs))
  {
    var part := rs[Needed(rs)..|rs| - 1];
    DistinctSize(part, Elements(part));
  }

  /** The write and as many acknowledgements as it needs to succeed. */
  lemma RunSucceeded(a: NodeId, rs: seq<NodeId>, req: Request) returns (steps: seq<Step>)
    requires Distinct(rs) && a !in rs && Needed(rs) <= |rs|
    ensures EnabledSteps(INIT, steps) && Spread(Execute(INIT, steps), a, rs, req, Needed(rs))
    ensures Succeeded(Execute(INIT, steps).writeOps[0])
  {
    steps := RunSpread(a, rs, req, Needed(rs));
    hide Execute, EnabledSteps;
    var first := rs[..Needed(rs)];
    DistinctSize(first, set x | x in first);
  }

  lemma StrangersLack(base: State, a: NodeId, rs: seq<NodeId>, req: Request, n: NodeId)
    requires Distinct(rs) && a !in rs && Needed(rs) < |rs| && Spread(base, a, rs, req, Needed(rs))
    requires n == rs[|rs| - 1] || n in Bystanders(rs)
    ensures LookUp(base, n, req.key) == None
  {
    assert n in rs && n !in rs[..Needed(rs)];
  }

  /**
   For every write to two replicas or more, and whatever the read's quorum: there is a run in which a read begun after
   the write succeeded decides on exactly N - W answers, or on its own alone when its quorum is one, and misses the
   write.
   */
  lemma TooFewAnswersCanMiss(a: NodeId, rs: seq<NodeId>, req: Request, quorum: nat) returns (steps: seq<Step>)
    requires Distinct(rs) && a !in rs && |rs| >= 2
    ensures EnabledSteps(INIT, steps)
    ensures var s := Execute(INIT, steps);
            && DecidedOn(s, a, rs, req, quorum, if quorum <= 1 then 1 else 1 + |rs| - FanOut.Quorum(|rs|))
            && Outcome(s.readOps[0], quorum, |rs|) == None
  {
    BystanderCount(a, rs);
    OthersDistinct(a, rs);
    hide Polled, DecidedOn, DecidesHere, Execute, EnabledSteps, Outcome, Others, Bystanders, Needed, LookUp, Succeeded;
    var before := RunSucceeded(a, rs, req);
    var base, c, xs := Execute(INIT, before), rs[|rs| - 1], Others(a, rs);
    forall n | n == c || n in Bystanders(rs) ensures LookUp(base, n, req.key) == None {
      StrangersLack(base, a, rs, req, n);
    }
    var (answers, i) := if quorum <= 1 then ({}, 0) else (Bystanders(rs), |xs|);
    assert xs[..|xs|] == xs;
    steps := RunPolled(before, c, req.key, xs, answers, i);
    if quorum <= 1 {
      LoneReadDecides(Execute(INIT, steps), base, c, req.key, xs, quorum);
    } else {
      PolledWaits(Execute(INIT, steps), base, c, req.key, xs, answers, quorum, c);
    }
    PolledDecides(Execute(INIT, steps), base, a, rs, req, answers, quorum, i);
    NothingHeard(Execute(INIT, steps), base, c, req.key, xs, answers, quorum, i);
  }

  /** A read that wants one answer has it from the start, and asks nobody. */
  lemma LoneReadDecides(s: State, base: State, c: NodeId, key: Key, xs: seq<NodeId>, quorum: nat)
    requires quorum <= 1 && Polled(s, base, c, key, xs, {}, 0)
    ensures DecidesHere(quorum, |xs|, s.readOps[0].served[c], VotesOf(s.readOps[0]))
  {
  }

  lemma HolderIsElsewhere(a: NodeId, rs: seq<NodeId>, holder: NodeId)
    requires Distinct(rs) && a !in rs && Needed(rs) < |rs| && (holder == a || holder in rs[..Needed(rs)])
    ensures holder !in Bystanders(rs) && holder in Elements(Others(a, rs))
  {
    if holder != a {
      var k :| 0 <= k < Needed(rs) && rs[k] == holder;
      assert Others(a, rs)[k + 1] == holder;
    }
  }

  /**
   In the same situation one more answer, from any node in the write's quorum, makes the read see the write. A read
   with a quorum of one asks nobody, so there is no more to hear.
   */
  lemma OneMoreAnswerIsEnough(a: NodeId, rs: seq<NodeId>, req: Request, quorum: nat, holder: NodeId)
    returns (steps: seq<Step>)
    requires Distinct(rs) && a !in rs && |rs| >= 2 && req.version != 0 && quorum >= 2
    requires holder == a || holder in rs[..Needed(rs)]
    ensures EnabledSteps(INIT, steps)
    ensures var s := Execute(INIT, steps);
            && DecidedOn(s, a, rs, req, quorum, 2 + |rs| - FanOut.Quorum(|rs|))
            && Outcome(s.readOps[0], quorum, |rs|).Some?
            && Covers(Outcome(s.readOps[0], quorum, |rs|).value.stamp, StampOf(req))
  {
    hide Execute, EnabledSteps, Outcome, Others, Bystanders, Needed, DecidedOn;
    BystanderCount(a, rs);
    HolderIsElsewhere(a, rs, holder);
    steps := HeardOut(a, rs, req, quorum, holder);
    EnoughAnswersSee(steps, a, rs, req, quorum, 2 + |Bystanders(rs)|);
  }

  lemma OneMore(some: set<NodeId>, one: NodeId, xs: seq<NodeId>)
    requires one !in some && one in Elements(xs) && some <= Elements(xs)
    ensures |some + {one}| == |some| + 1 && some + {one} <= Elements(xs[..|xs|])
  {
    assert xs[..|xs|] == xs;
  }

  lemma SpreadIs(s: State, a: NodeId, rs: seq<NodeId>, req: Request)
    requires Needed(rs) <= |rs| && Spread(s, a, rs, req, Needed(rs))
    ensures s.readOps == map[] && 0 in s.writeOps
    ensures s.writeOps[0] == WriteOp(a, req.key, StampOf(req), rs, s.writeOps[0].acked)
  {
  }

  /** The reader, the bystanders and one holder answer, everybody else fails. */
  lemma HeardOut(a: NodeId, rs: seq<NodeId>, req: Request, quorum: nat, holder: NodeId) returns (steps: seq<Step>)
    requires Distinct(rs) && a !in rs && |rs| >= 2 && quorum >= 2 && Needed(rs) < |rs|
    requires holder !in Bystanders(rs) && holder in Elements(Others(a, rs))
    ensures EnabledSteps(INIT, steps) && DecidedOn(Execute(INIT, steps), a, rs, req, quorum, 2 + |Bystanders(rs)|)
  {
    hide Polled, Execute, EnabledSteps, Others, Bystanders, Needed, DecidedOn, DecidesHere, Succeeded, LookUp, Spread;
    BystanderCount(a, rs);
    OthersDistinct(a, rs);
    OneMore(Bystanders(rs), holder, Others(a, rs));
    var before := RunSucceeded(a, rs, req);
    var base, c, xs, answers := Execute(INIT, before), rs[|rs| - 1], Others(a, rs), Bystanders(rs) + {holder};
    forall n | n == c || n in Bystanders(rs) ensures LookUp(base, n, req.key) == None {
      StrangersLack(base, a, rs, req, n);
    }
    SpreadIs(base, a, rs, req);
    steps := RunPolled(before, c, req.key, xs, answers, |xs|);
    PolledWaits(Execute(INIT, steps), base, c, req.key, xs, answers, quorum, holder);
    PolledDecides(Execute(INIT, steps), base, a, rs, req, answers, quorum, |xs|);
  }

  lemma EnoughAnswersSee(steps: seq<Step>, a: NodeId, rs: seq<NodeId>, req: Request, quorum: nat, answers: nat)
    requires Distinct(rs) && a !in rs && req.version != 0 && answers > 1 + |rs| - FanOut.Quorum(|rs|)
    requires EnabledSteps(INIT, steps) && DecidedOn(Execute(INIT, steps), a, rs, req, quorum, answers)
    ensures var s := Execute(INIT, steps);
            && Outcome(s.readOps[0], quorum, |rs|).Some?
            && Covers(Outcome(s.readOps[0], quorum, |rs|).value.stamp, StampOf(req))
  {
    hide Execute, EnabledSteps, Outcome, DecidesHere, Answering, Members;
    MemberCount(Execute(INIT, steps).writeOps[0]);
    QuorumReadSeesWrite(steps, 0, 0, quorum, |rs|);
  }
}
