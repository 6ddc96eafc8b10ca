/**
 What a timing wheel promises, as a plain map from entry to the tick it is due at. An entry scheduled `t` ticks
 ahead is due `t` ticks later, except that 0 means a full turn of the wheel.
 */
module TtlWheelSpec {

  const SLOT_COUNT := 256

  datatype Schedule<!N> = Schedule(now: nat, due: map<N, nat>) {
    predicate Pending() {
      forall n :: n in due ==> due[n] > now
    }
  }

  function Delay(ticks: nat): nat {
    if ticks == 0 then SLOT_COUNT else ticks
  }

  function Insert<N>(s: Schedule<N>, n: N, ticks: nat): Schedule<N> {
    s.(due := s.due[n := s.now + Delay(ticks)])
  }

  function Remove<N>(s: Schedule<N>, n: N): Schedule<N> {
    s.(due := s.due - {n})
  }

  /** The entries the next tick fires. */
  function Fired<N>(s: Schedule<N>): set<N> {
    set n | n in s.due && s.due[n] == s.now + 1
  }

  /** One tick; `again` holds the fired entries that the callback schedules once more, and for how long. */
  function Tick<N>(s: Schedule<N>, again: map<N, nat>): Schedule<N> {
    Schedule(s.now + 1, Refired(s.due, Fired(s), Fired(s), s.now + 1, again))
  }

  /** The due ticks once `gone` left the schedule and `called`, part of it, went through the callback. */
  function Refired<N>(due: map<N, nat>, gone: set<N>, called: set<N>, now: nat, again: map<N, nat>): map<N, nat> {
    map n | n in due && (n in gone ==> n in called && n in again) ::
      if n in gone then now + Delay(again[n]) else due[n]
  }

  datatype Op<!N> = InsertOp(node: N, ticks: nat) | RemoveOp(node: N) | TickOp(again: map<N, nat>)

  function Step<N>(s: Schedule<N>, op: Op<N>): Schedule<N> {
    match op
    case InsertOp(n, t) => Insert(s, n, t)
    case RemoveOp(n) => Remove(s, n)
    case TickOp(again) => Tick(s, again)
  }

  function Run<N>(s: Schedule<N>, ops: seq<Op<N>>): Schedule<N> {
    if ops == [] then s else Step(Run(s, ops[..|ops| - 1]), ops[|ops| - 1])
  }

  function Ticks<N>(ops: seq<Op<N>>): nat {
    if ops == [] then 0 else Ticks(ops[..|ops| - 1]) + if ops[|ops| - 1].TickOp? then 1 else 0
  }

  ghost predicate Untouched<N>(ops: seq<Op<N>>, n: N) {
    forall i :: 0 <= i < |ops| ==> ops[i].TickOp? || ops[i].node != n
  }

  /** Nothing scheduled is ever overdue. */
  lemma {:induction false} RunsStayPending<N>(s: Schedule<N>, ops: seq<Op<N>>)
    requires s.Pending()
    ensures Run(s, ops).Pending()
  {
    if ops == [] {
    } else {
      RunsStayPending(s, ops[..|ops| - 1]);
    }
  }

  /** While nobody touches it, an entry waits for its due tick. */
  lemma {:induction false} Waits<N>(s: Schedule<N>, n: N, ops: seq<Op<N>>)
    requires n in s.due && s.now + Ticks(ops) < s.due[n] && Untouched(ops, n)
    ensures Run(s, ops).now == s.now + Ticks(ops)
    ensures n in Run(s, ops).due && Run(s, ops).due[n] == s.due[n]
  {
    if ops == [] {
    } else {
      var front := ops[..|ops| - 1];
      assert Untouched(front, n);
      Waits(s, n, front);
    }
  }

  /**
   In every run after an insert for `ticks` ticks that does not touch the entry again, the entry fires at tick number
   `ticks`, number 256 if `ticks` is 0, and at no earlier one.
   */
  lemma FiresExactlyWhenDue<N>(s: Schedule<N>, n: N, ticks: nat, ops: seq<Op<N>>, i: nat)
    requires Untouched(ops, n) && i < |ops| && ops[i].TickOp? && Ticks(ops[..i]) < if ticks == 0 then 256 else ticks
    ensures n in Fired(Run(Insert(s, n, ticks), ops[..i]))
       <==> Ticks(ops[..i]) + 1 == if ticks == 0 then 256 else ticks
  {
    Waits(Insert(s, n, ticks), n, ops[..i]);
  }

  /** An entry taken out, and not put back in, never fires. */
  lemma {:induction false} RemovedNeverFires<N>(s: Schedule<N>, n: N, ops: seq<Op<N>>)
    requires Untouched(ops, n)
    ensures n !in Run(Remove(s, n), ops).due && n !in Fired(Run(Remove(s, n), ops))
  {
    if ops == [] {
    } else {
      var front := ops[..|ops| - 1];
      assert Untouched(front, n);
      RemovedNeverFires(s, n, front);
    }
  }

  /**
   A tick takes out what it fires, except what the callback schedules again, which is due as if inserted at this tick;
   everything else stays due when it was.
   */
  lemma TickLeaves<N>(s: Schedule<N>, again: map<N, nat>, n: N)
    ensures var t := Tick(s, again);
            && t.now == s.now + 1
            && (n in t.due <==> n in s.due && (s.due[n] != s.now + 1 || n in again))
            && (n in t.due && s.due[n] != s.now + 1 ==> t.due[n] == s.due[n])
            && (n in t.due && s.due[n] == s.now + 1 ==> t.due[n] == t.now + if again[n] == 0 then 256 else again[n])
  {
  }
}
