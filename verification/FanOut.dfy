/**
 Single-consumer fan-out: `n` sends report completions in any order and possibly more than once;
 the consumer reduces each target once, decides once, and keeps draining after the decision.
 The caller's closures are a policy over a state of its own.
 */
module FanOut {
  import opened Common

  datatype Completion<+R> = Completion(target: nat, result: R)

  /** `onEach(state, target, result, active)` folds one completion; `active` is false after the decision. */
  datatype Policy<!S, !R> = Policy(onEach: (S, nat, R, bool) -> S, shouldFire: S -> bool)

  /** The reduced state, and the states the decision callback saw. */
  datatype Progress<S> = Progress(state: S, decisions: seq<S>)

  predicate Names<R>(cs: seq<Completion<R>>, target: nat) {
    exists k :: 0 <= k < |cs| && cs[k].target == target
  }

  /** The reports that get through: the first one for each valid target, in arrival order. */
  function Admitted<R>(reports: seq<Completion<R>>, n: nat): seq<Completion<R>> {
    if reports == [] then []
    else
      var before, last := Admitted(reports[..|reports| - 1], n), reports[|reports| - 1];
      if last.target < n && !Names(before, last.target) then before + [last] else before
  }

  function Reduced<S, R>(p: Policy<S, R>, init: S, cs: seq<Completion<R>>): Progress<S> {
    if cs == [] then Progress(init, [])
    else
      var before, c := Reduced(p, init, cs[..|cs| - 1]), cs[|cs| - 1];
      Reduce(p, before, c)
  }

  function Reduce<S, R>(p: Policy<S, R>, before: Progress<S>, c: Completion<R>): Progress<S> {
    var state := p.onEach(before.state, c.target, c.result, before.decisions == []);
    Progress(state, if before.decisions == [] && p.shouldFire(state) then [state] else before.decisions)
  }

  ghost predicate DistinctTargets<R>(cs: seq<Completion<R>>, n: nat) {
    && (forall k :: 0 <= k < |cs| ==> cs[k].target < n)
    && (forall j, k :: 0 <= j < k < |cs| ==> cs[j].target != cs[k].target)
  }

  /** Whatever the reports, each target is reduced at most once, with the result it reported first. */
  lemma {:induction false} AdmittedOnce<R>(reports: seq<Completion<R>>, n: nat)
    ensures DistinctTargets(Admitted(reports, n), n)
    ensures forall t: nat :: Names(Admitted(reports, n), t) <==> t < n && Names(reports, t)
    ensures forall k :: 0 <= k < |Admitted(reports, n)| ==> IsFirst(reports, Admitted(reports, n)[k])
  {
    if reports == [] {
    } else {
      var init, c := reports[..|reports| - 1], reports[|reports| - 1];
      assert reports == init + [c];
      AdmittedOnce(init, n);
      var before, all := Admitted(init, n), Admitted(reports, n);
      forall t: nat ensures Names(all, t) <==> t < n && Names(reports, t) {
        NamesAppend(init, c, t);
        NamesAppend(before, c, t);
      }
      forall k | 0 <= k < |all| ensures IsFirst(reports, all[k]) {
        FirstAppend(init, c, all[k]);
      }
    }
  }

  /** The report is the first one about its target. */
  ghost predicate IsFirst<R>(reports: seq<Completion<R>>, c: Completion<R>) {
    exists i :: 0 <= i < |reports| && reports[i] == c && !Names(reports[..i], c.target)
  }

  lemma FirstAppend<R>(reports: seq<Completion<R>>, c: Completion<R>, d: Completion<R>)
    ensures IsFirst(reports, d) ==> IsFirst(reports + [c], d)
    ensures d == c && !Names(reports, c.target) ==> IsFirst(reports + [c], d)
  {
    var all := reports + [c];
    if IsFirst(reports, d) {
      var i :| 0 <= i < |reports| && reports[i] == d && !Names(reports[..i], d.target);
      assert all[i] == d && all[..i] == reports[..i];
    }
    assert all[|reports|] == c && all[..|reports|] == reports;
  }

  /** The decision callback runs at most once, and only at a point where the policy asks for it. */
  lemma {:induction false} DecidesAtMostOnce<S, R>(p: Policy<S, R>, init: S, cs: seq<Completion<R>>)
    ensures |Reduced(p, init, cs).decisions| <= 1
    ensures forall d :: d in Reduced(p, init, cs).decisions ==> p.shouldFire(d)
  {
    if cs == [] {
    } else {
      DecidesAtMostOnce(p, init, cs[..|cs| - 1]);
    }
  }

  /** The drain loop's state, shared by the inline phase and the tail. */
  class Drain<S, R> {
    const n: nat
    const policy: Policy<S, R>
    const init: S
    const delivered: array<bool>
    var channel: seq<Completion<R>>
    var seen: nat
    var fired: bool
    var state: S
    var decisions: seq<S>
    ghost var reports: seq<Completion<R>>

    ghost predicate Valid()
      reads this, delivered
    {
      var admitted := Admitted(reports, n);
      && delivered.Length == n
      && (forall i :: 0 <= i < n ==> (delivered[i] <==> Names(admitted, i)))
      && seen <= |admitted|
      && channel == admitted[seen..]
      && Progress(state, decisions) == Reduced(policy, init, admitted[..seen])
      && (fired <==> decisions != [])
    }

    constructor (n: nat, policy: Policy<S, R>, init: S)
      ensures Valid() && this.n == n && this.policy == policy && this.init == init && fresh(delivered)
      ensures reports == [] && seen == 0
    {
      this.n, this.policy, this.init := n, policy, init;
      delivered := new bool[n](_ => false);
      channel, seen, fired, state, decisions, reports := [], 0, false, init, [], [];
    }

    /** A send reports; repeats for a target already delivered are dropped. */
    method Report(target: nat, result: R)
      requires Valid()
      modifies this`channel, this`reports, delivered
      ensures Valid()
      ensures reports == old(reports) + [Completion(target, result)]
    {
      hide Admitted, Reduced, Names;
      var c := Completion(target, result);
      ghost var before := Admitted(reports, n);
      AdmittedStep(reports, c, n);
      reports := reports + [c];
      if target < n && !delivered[target] {
        delivered[target] := true;
        channel := channel + [c];
        assert (before + [c])[..seen] == before[..seen] && (before + [c])[seen..] == before[seen..] + [c];
        forall i | 0 <= i < n ensures delivered[i] <==> Names(before + [c], i) { NamesAppend(before, c, i); }
      }
    }

    /** Reduce everything received so far. */
    method DrainChannel()
      requires Valid()
      modifies this`channel, this`seen, this`fired, this`state, this`decisions
      ensures Valid() && channel == []
      ensures seen == |Admitted(reports, n)|
    {
      hide Admitted, Reduced, Names;
      ghost var admitted := Admitted(reports, n);
      AdmittedBound(reports, n);
      while seen < n && channel != []
        invariant Valid()
        decreases |channel|
      {
        ReducedStep(policy, init, admitted, seen);
        var c := channel[0];
        channel := channel[1..];
        seen := seen + 1;
        state := policy.onEach(state, c.target, c.result, !fired);
        if !fired && policy.shouldFire(state) {
          fired := true;
          decisions := decisions + [state];
        }
      }
    }
  }

  lemma NamesAppend<R>(cs: seq<Completion<R>>, c: Completion<R>, target: nat)
    ensures Names(cs + [c], target) <==> Names(cs, target) || c.target == target
  {
    var all := cs + [c];
    assert all[|cs|] == c;
    if Names(cs, target) {
      var k :| 0 <= k < |cs| && cs[k].target == target;
      assert all[k].target == target;
    }
  }

  lemma AdmittedStep<R>(reports: seq<Completion<R>>, c: Completion<R>, n: nat)
    ensures var before := Admitted(reports, n);
            Admitted(reports + [c], n) == if c.target < n && !Names(before, c.target) then before + [c] else before
  {
    assert (reports + [c])[..|reports|] == reports;
  }

  lemma ReducedStep<S, R>(p: Policy<S, R>, init: S, cs: seq<Completion<R>>, k: nat)
    requires k < |cs|
    ensures Reduced(p, init, cs[..k + 1]) == Reduce(p, Reduced(p, init, cs[..k]), cs[k])
  {
    assert cs[..k + 1][..k] == cs[..k];
  }

  lemma AdmittedBound<R>(reports: seq<Completion<R>>, n: nat)
    ensures |Admitted(reports, n)| <= n
  {
    AdmittedOnce(reports, n);
    TargetsBound(Admitted(reports, n), n);
  }

  lemma {:induction false} TargetsBound<R>(cs: seq<Completion<R>>, n: nat)
    requires DistinctTargets(cs, n)
    ensures |cs| <= n
  {
    if cs == [] {
    } else {
      assert cs[0].target < n;
      if Names(cs, n - 1) {
        var k :| 0 <= k < |cs| && cs[k].target == n - 1;
        TargetsBound(RemoveAt(cs, k), n - 1);
      } else {
        TargetsBound(cs, n - 1);
      }
    }
  }

  lemma {:induction false} AllTargets<R>(cs: seq<Completion<R>>, n: nat)
    requires DistinctTargets(cs, n)
    requires forall t: nat :: t < n ==> Names(cs, t)
    ensures |cs| == n
  {
    if n == 0 {
      TargetsBound(cs, n);
    } else {
      assert Names(cs, n - 1);
      var k :| 0 <= k < |cs| && cs[k].target == n - 1;
      var rest := RemoveAt(cs, k);
      WithoutLast(cs, n, k);
      hide DistinctTargets, Names, RemoveAt;
      AllTargets(rest, n - 1);
      assert |rest| == |cs| - 1 by { RemovedLength(cs, k); }
    }
  }

  lemma RemovedLength<T>(s: seq<T>, k: nat)
    requires k < |s|
    ensures |RemoveAt(s, k)| == |s| - 1
  {
  }

  lemma WithoutLast<R>(cs: seq<Completion<R>>, n: nat, k: nat)
    requires DistinctTargets(cs, n) && k < |cs| && n > 0 && cs[k].target == n - 1
    requires forall t: nat :: t < n ==> Names(cs, t)
    ensures DistinctTargets(RemoveAt(cs, k), n - 1) && forall t: nat :: t < n - 1 ==> Names(RemoveAt(cs, k), t)
  {
    var rest := RemoveAt(cs, k);
    forall i | 0 <= i < |rest| ensures rest[i] == cs[if i < k then i else i + 1] {}
    forall t: nat | t < n - 1 ensures Names(rest, t) {
      assert Names(cs, t);
      var j :| 0 <= j < |cs| && cs[j].target == t;
      assert rest[if j < k then j else j - 1].target == t;
    }
  }

  // ------------------------------------------------------------------ the write quorum

  /** `acks` starts at 1 for the local commit; `hinted` lists the replicas a hint was queued for. */
  datatype WriteQuorum = WriteQuorum(acks: nat, pending: int, w: nat, hinted: seq<nat>)

  function NoteReplica(st: WriteQuorum, target: nat, ok: bool, active: bool): WriteQuorum {
    st.(acks := if ok && active then st.acks + 1 else st.acks,
        pending := st.pending - 1,
        hinted := if ok then st.hinted else st.hinted + [target])
  }

  predicate WriteDecided(st: WriteQuorum) {
    st.acks >= st.w || st.pending == 0 || st.acks + st.pending < st.w
  }

  const WRITE_POLICY: Policy<WriteQuorum, bool> := Policy(NoteReplica, WriteDecided)

  /** Acknowledgements needed, local commit included, among `replicas` peers. */
  function Quorum(replicas: nat): nat {
    (replicas + 1) / 2 + 1
  }

  /** That is a majority of the replicas and the coordinator, and the smallest one. */
  lemma QuorumIsMajority(replicas: nat)
    ensures 2 * Quorum(replicas) > replicas + 1
    ensures 2 * (Quorum(replicas) - 1) <= replicas + 1
  {
  }

  function StartWrite(replicas: nat): WriteQuorum {
    WriteQuorum(1, replicas, Quorum(replicas), [])
  }

  function WriteProgress(replicas: nat, cs: seq<Completion<bool>>): Progress<WriteQuorum> {
    Reduced(WRITE_POLICY, StartWrite(replicas), cs)
  }

  function Successes(cs: seq<Completion<bool>>): nat {
    if cs == [] then 0 else Successes(cs[..|cs| - 1]) + (if cs[|cs| - 1].result then 1 else 0)
  }

  /** Targets that failed, in completion order. */
  function Failures(cs: seq<Completion<bool>>): seq<nat> {
    if cs == [] then []
    else
      var c := cs[|cs| - 1];
      Failures(cs[..|cs| - 1]) + (if c.result then [] else [c.target])
  }

  /** The verdict that waiting for every replica would give. */
  predicate Reached(replicas: nat, cs: seq<Completion<bool>>) {
    1 + Successes(cs) >= Quorum(replicas)
  }

  lemma {:induction false} SuccessesPrefix(cs: seq<Completion<bool>>, k: nat)
    requires k <= |cs|
    ensures Successes(cs[..k]) <= Successes(cs) <= Successes(cs[..k]) + |cs| - k
  {
    if k < |cs| {
      assert cs[..|cs| - 1][..k] == cs[..k];
      SuccessesPrefix(cs[..|cs| - 1], k);
    } else {
      assert cs[..k] == cs;
    }
  }

  /** No outcome still to come can change the verdict. */
  predicate Settled(replicas: nat, cs: seq<Completion<bool>>) {
    Reached(replicas, cs) || 1 + Successes(cs) + replicas - |cs| < Quorum(replicas)
  }

  /** The counters over any prefix of completions: the decision is there exactly when the outcome is settled. */
  lemma {:induction false} WriteAccounting(replicas: nat, cs: seq<Completion<bool>>)
    requires 0 < |cs| <= replicas
    ensures var p := WriteProgress(replicas, cs);
            && p.state.pending == replicas - |cs|
            && p.state.w == Quorum(replicas)
            && p.state.hinted == Failures(cs)
            && (p.decisions == [] ==> p.state.acks == 1 + Successes(cs))
            && (p.decisions != [] ==> p.state.acks == p.decisions[0].acks)
            && (p.decisions != [] <==> Settled(replicas, cs))
            && (p.decisions != [] ==>
                  |p.decisions| == 1 && (p.decisions[0].acks >= p.decisions[0].w <==> Reached(replicas, cs)))
  {
    var init := cs[..|cs| - 1];
    SuccessesPrefix(cs, |init|);
    if init == [] {
      assert WriteProgress(replicas, init) == Progress(StartWrite(replicas), []);
    } else {
      WriteAccounting(replicas, init);
    }
  }

  /**
   Deciding early means the same as deciding late: however the reports arrive, once all replicas
   have completed there has been exactly one decision, it succeeded if and only if the local
   commit and the successful replicas reach the quorum, and every failed replica was hinted exactly once.
   */
  lemma EarlyDecisionIsFinal(replicas: nat, reports: seq<Completion<bool>>)
    requires replicas > 0
    requires forall t: nat :: t < replicas ==> Names(reports, t)
    ensures var cs := Admitted(reports, replicas);
            var p := WriteProgress(replicas, cs);
            && |p.decisions| == 1
            && (p.decisions[0].acks >= p.decisions[0].w <==> Reached(replicas, cs))
            && Distinct(p.state.hinted)
            && (forall k :: 0 <= k < |cs| ==> (cs[k].target in p.state.hinted <==> !cs[k].result))
  {
    var cs := Admitted(reports, replicas);
    AdmittedOnce(reports, replicas);
    AllTargets(cs, replicas);
    WriteAccounting(replicas, cs);
    FailuresOnce(cs, replicas);
    forall k | 0 <= k < |cs| ensures Completion(cs[k].target, false) in cs <==> !cs[k].result {
      if Completion(cs[k].target, false) in cs {
        var j :| 0 <= j < |cs| && cs[j] == Completion(cs[k].target, false);
        assert j == k;
      } else {
        assert cs[k] in cs;
      }
    }
  }

  lemma {:induction false} FailuresOnce(cs: seq<Completion<bool>>, n: nat)
    requires DistinctTargets(cs, n)
    ensures Distinct(Failures(cs))
    ensures forall t: nat :: t in Failures(cs) <==> Completion(t, false) in cs
  {
    if cs == [] {
    } else {
      var init, c := cs[..|cs| - 1], cs[|cs| - 1];
      assert cs == init + [c];
      FailuresOnce(init, n);
      assert Completion(c.target, false) !in init;
    }
  }

  /**
   The decision comes as early as it can: it has been taken after a prefix of completions if and
   only if every way of completing the remaining replicas gives the same verdict.
   */
  lemma DecidesAsSoonAsSettled(replicas: nat, cs: seq<Completion<bool>>)
    requires 0 < |cs| <= replicas
    ensures WriteProgress(replicas, cs).decisions != []
       <==> (forall xs: seq<Completion<bool>>, ys: seq<Completion<bool>> ::
                |cs| + |xs| == replicas && |cs| + |ys| == replicas ==>
                  Reached(replicas, cs + xs) == Reached(replicas, cs + ys))
  {
    WriteAccounting(replicas, cs);
    var rest := replicas - |cs|;
    if Settled(replicas, cs) {
      forall xs: seq<Completion<bool>>, ys: seq<Completion<bool>>
        | |cs| + |xs| == replicas && |cs| + |ys| == replicas
        ensures Reached(replicas, cs + xs) == Reached(replicas, cs + ys)
      {
        assert (cs + xs)[..|cs|] == cs == (cs + ys)[..|cs|];
        SuccessesPrefix(cs + xs, |cs|);
        SuccessesPrefix(cs + ys, |cs|);
      }
    } else {
      var xs, ys := Uniform(rest, true), Uniform(rest, false);
      UniformSuccesses(cs, rest, true);
      UniformSuccesses(cs, rest, false);
      assert Reached(replicas, cs + xs) != Reached(replicas, cs + ys);
    }
  }

  function Uniform(count: nat, ok: bool): (r: seq<Completion<bool>>)
    ensures |r| == count
  {
    if count == 0 then [] else Uniform(count - 1, ok) + [Completion(0, ok)]
  }

  lemma {:induction false} UniformSuccesses(cs: seq<Completion<bool>>, count: nat, ok: bool)
    ensures Successes(cs + Uniform(count, ok)) == Successes(cs) + (if ok then count else 0)
  {
    if count == 0 {
      assert cs + Uniform(0, ok) == cs;
    } else {
      var all := cs + Uniform(count, ok);
      assert all[..|all| - 1] == cs + Uniform(count - 1, ok);
      UniformSuccesses(cs, count - 1, ok);
    }
  }
}
