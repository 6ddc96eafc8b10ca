/**
 The reducer of one quorum read: local entry and replica votes folded into a last-writer-wins
 maximum, with a flag saying whether any answer diverged.
 */
module ReadQuorum {
  import opened Common
  import opened Lww
  import FanOut

  datatype Status = OkStatus | NotFoundStatus | OtherStatus

  datatype Response = Response(status: Status, version: nat, writer: nat, tombstone: bool,
                               value: Option<Bytes>, expiresAt: Option<int>)

  /** A replica's completion: the send failed, or it answered. */
  datatype Vote = Failed | Answered(res: Response)

  /** Votes that carry a version count as acknowledgements; a tombstone is such a vote. */
  predicate Counted(v: Vote) {
    v.Answered? && v.res.status == OkStatus && v.res.version != 0
  }

  predicate Missing(v: Vote) {
    v.Answered? && v.res.status == NotFoundStatus
  }

  function EntryOf(res: Response): Entry {
    Entry(Stamp(res.version, res.writer, res.tombstone),
          if res.value.Some? then res.value.value else [],
          res.expiresAt)
  }

  const ZERO: Stamp := Stamp(0, 0, false)

  function StampOrZero(e: Option<Entry>): Stamp {
    if e.Some? then e.value.stamp else ZERO
  }

  /** The reducer as a value. */
  datatype Reducer = Reducer(r: nat, pending: int, acks: nat, best: Stamp, needsRepair: bool, entry: Option<Entry>)

  function Start(r: nat, total: nat, local: Option<Entry>): Reducer {
    Reducer(r, total, if local.Some? then 1 else 0, StampOrZero(local), false, local)
  }

  function Note(st: Reducer, v: Vote, active: bool): Reducer {
    if !active then st
    else
      var st := st.(pending := st.pending - 1);
      if Counted(v) then
        var e := EntryOf(v.res);
        var st := st.(acks := st.acks + 1);
        if WinsOver(e.stamp, st.best) then st.(needsRepair := true, best := e.stamp, entry := Some(e))
        else if Compare(e.stamp, st.best) != Equal then st.(needsRepair := true)
        else st
      else if Missing(v) then st.(needsRepair := true)
      else st
  }

  predicate ShouldFire(st: Reducer) {
    st.acks >= st.r || st.pending == 0
  }

  class ReadReducer {
    const r: nat
    var pending: int
    var acks: nat
    var bestVersion: nat
    var bestWriter: nat
    var bestTombstone: bool
    var needsRepair: bool
    var entry: Option<Entry>

    ghost function Model(): Reducer
      reads this
    {
      Reducer(r, pending, acks, Stamp(bestVersion, bestWriter, bestTombstone), needsRepair, entry)
    }

    constructor (r: nat, total: nat, local: Option<Entry>)
      ensures Model() == Start(r, total, local)
    {
      this.r, pending, acks, needsRepair, entry := r, total, 0, false, None;
      bestVersion, bestWriter, bestTombstone := 0, 0, false;
      if local.Some? {
        acks := 1;
        var stamp := local.value.stamp;
        bestVersion, bestWriter, bestTombstone := stamp.version, stamp.writer, stamp.tombstone;
        entry := local;
      }
    }

    method NoteRemote(v: Vote, active: bool)
      modifies this
      ensures Model() == Note(old(Model()), v, active)
    {
      if !active { return; }
      pending := pending - 1;
      if v.Failed? { return; }
      var res := v.res;
      if res.status == OkStatus && res.version != 0 {
        acks := acks + 1;
        var vote, best := Stamp(res.version, res.writer, res.tombstone), Stamp(bestVersion, bestWriter, bestTombstone);
        if WinsOver(vote, best) {
          needsRepair := true;
          bestVersion, bestWriter, bestTombstone := res.version, res.writer, res.tombstone;
          var value: Bytes := [];
          if res.value.Some? { value := res.value.value; }
          entry := Some(Entry(vote, value, res.expiresAt));
        } else if Compare(vote, best) != Equal {
          needsRepair := true;
        }
      } else if res.status == NotFoundStatus {
        needsRepair := true;
      }
    }
  }

  /** Votes folded in arrival order, all of them before the decision. */
  function NoteAll(r: nat, total: nat, local: Option<Entry>, vs: seq<Vote>): Reducer {
    if vs == [] then Start(r, total, local)
    else Note(NoteAll(r, total, local, vs[..|vs| - 1]), vs[|vs| - 1], true)
  }

  /** `e` is the local entry or the entry of a counted vote. */
  ghost predicate Candidate(local: Option<Entry>, vs: seq<Vote>, e: Entry) {
    local == Some(e) || exists v :: v in vs && Counted(v) && EntryOf(v.res) == e
  }

  /** Some replica lacks the key, or answered with a stamp other than the local one. */
  ghost predicate Diverged(local: Option<Entry>, vs: seq<Vote>) {
    exists v :: v in vs && (Missing(v) || (Counted(v) && EntryOf(v.res).stamp != StampOrZero(local)))
  }

  function CountedVotes(vs: seq<Vote>): nat {
    if vs == [] then 0 else CountedVotes(vs[..|vs| - 1]) + (if Counted(vs[|vs| - 1]) then 1 else 0)
  }

  /** The winner is a maximal candidate, divergence alone flags repair, and every counted vote acknowledges. */
  lemma {:induction false} NoteAllIsMaximum(r: nat, total: nat, local: Option<Entry>, vs: seq<Vote>)
    ensures var st := NoteAll(r, total, local, vs);
            && st.r == r && st.pending == total - |vs|
            && st.acks == (if local.Some? then 1 else 0) + CountedVotes(vs)
            && st.best == StampOrZero(st.entry)
            && (st.entry.Some? ==> Candidate(local, vs, st.entry.value))
            && (forall e :: Candidate(local, vs, e) ==> st.entry.Some? && Covers(st.entry.value.stamp, e.stamp))
            && (st.needsRepair <==> Diverged(local, vs))
  {
    if vs == [] {
    } else {
      var init, v := vs[..|vs| - 1], vs[|vs| - 1];
      assert vs == init + [v];
      NoteAllIsMaximum(r, total, local, init);
      var before, st := NoteAll(r, total, local, init), NoteAll(r, total, local, vs);
      forall e | Candidate(local, vs, e) ensures st.entry.Some? && Covers(st.entry.value.stamp, e.stamp) {
        if Candidate(local, init, e) {
          assert Covers(before.entry.value.stamp, e.stamp);
        } else {
          assert Counted(v) && EntryOf(v.res) == e;
        }
      }
    }
  }

  /** The read's winner in the stamp's own fields: the highest version, then writer, then a delete marker. */
  lemma ReadPicksNewest(r: nat, total: nat, local: Option<Entry>, vs: seq<Vote>, e: Entry)
    requires Candidate(local, vs, e)
    ensures var st := NoteAll(r, total, local, vs);
            && st.entry.Some? && Candidate(local, vs, st.entry.value)
            && var w := st.entry.value.stamp;
            && w.version >= e.stamp.version
            && (w.version == e.stamp.version ==> w.writer >= e.stamp.writer)
            && (w.version == e.stamp.version && w.writer == e.stamp.writer && e.stamp.tombstone ==> w.tombstone)
  {
    NoteAllIsMaximum(r, total, local, vs);
    CoversInFields(NoteAll(r, total, local, vs).entry.value.stamp, e.stamp);
  }

  /** Two candidates with one stamp are the same entry. */
  ghost predicate StampDeterminesCandidate(local: Option<Entry>, vs: seq<Vote>) {
    forall e, f :: Candidate(local, vs, e) && Candidate(local, vs, f) && e.stamp == f.stamp ==> e == f
  }

  lemma {:induction false} CountedVotesRemove(vs: seq<Vote>, k: nat)
    requires k < |vs|
    ensures CountedVotes(vs) == CountedVotes(RemoveAt(vs, k)) + (if Counted(vs[k]) then 1 else 0)
  {
    if k == |vs| - 1 {
      assert RemoveAt(vs, k) == vs[..k];
    } else {
      var init, rest := vs[..|vs| - 1], RemoveAt(vs, k);
      assert rest[..|rest| - 1] == RemoveAt(init, k);
      CountedVotesRemove(init, k);
    }
  }

  lemma MultisetRemoveAt<T>(s: seq<T>, k: nat)
    requires k < |s|
    ensures multiset(RemoveAt(s, k)) == multiset(s) - multiset{s[k]}
  {
    assert s == s[..k] + [s[k]] + s[k + 1..];
  }

  lemma {:induction false} CountedVotesPermute(vs: seq<Vote>, ws: seq<Vote>)
    requires multiset(vs) == multiset(ws)
    ensures CountedVotes(vs) == CountedVotes(ws)
    decreases |vs|
  {
    if vs == [] {
      assert |multiset(ws)| == |ws| == 0;
    } else {
      var init, v := vs[..|vs| - 1], vs[|vs| - 1];
      MultisetRemoveAt(vs, |vs| - 1);
      assert RemoveAt(vs, |vs| - 1) == init;
      assert v in multiset(ws);
      var k :| 0 <= k < |ws| && ws[k] == v;
      MultisetRemoveAt(ws, k);
      CountedVotesPermute(init, RemoveAt(ws, k));
      CountedVotesRemove(ws, k);
    }
  }

  /** The same votes in any order give the same winner, the same repair flag and the same counters. */
  lemma ReductionIsOrderFree(r: nat, total: nat, local: Option<Entry>, vs: seq<Vote>, ws: seq<Vote>)
    requires multiset(vs) == multiset(ws)
    requires StampDeterminesCandidate(local, vs)
    ensures NoteAll(r, total, local, vs) == NoteAll(r, total, local, ws)
  {
    NoteAllIsMaximum(r, total, local, vs);
    NoteAllIsMaximum(r, total, local, ws);
    CountedVotesPermute(vs, ws);
    assert |vs| == |multiset(vs)| == |ws|;
    forall v ensures v in vs <==> v in ws {
      assert v in vs <==> v in multiset(vs);
    }
    forall e ensures Candidate(local, vs, e) <==> Candidate(local, ws, e) {}
    var a, b := NoteAll(r, total, local, vs), NoteAll(r, total, local, ws);
    if a.entry.Some? { assert Candidate(local, ws, a.entry.value); }
    if b.entry.Some? { assert Candidate(local, vs, b.entry.value); }
  }

  // ---------------------------------------------------------------- the decision

  const READ_POLICY: FanOut.Policy<Reducer, Vote> :=
    FanOut.Policy((st: Reducer, _: nat, v: Vote, active: bool) => Note(st, v, active), ShouldFire)

  function VotesIn(cs: seq<FanOut.Completion<Vote>>): (vs: seq<Vote>)
    ensures |vs| == |cs| && forall i :: 0 <= i < |vs| ==> vs[i] == cs[i].result
  {
    seq(|cs|, i requires 0 <= i < |cs| => cs[i].result)
  }

  /** The first point at which the read has its acknowledgements or has heard from everyone, if there is one. */
  function DecidedAfter(r: nat, total: nat, local: Option<Entry>, vs: seq<Vote>): (k: Option<nat>)
    ensures k.Some? ==> 0 < k.value <= |vs| && ShouldFire(NoteAll(r, total, local, vs[..k.value]))
    ensures forall j :: 0 < j <= |vs| && (k.Some? ==> j < k.value) ==> !ShouldFire(NoteAll(r, total, local, vs[..j]))
  {
    if vs == [] then None
    else
      var init := vs[..|vs| - 1];
      var k := DecidedAfter(r, total, local, init);
      assert forall j :: 0 < j <= |init| ==> vs[..j] == init[..j];
      assert vs[..|vs|] == vs;
      if k.Some? then k else if ShouldFire(NoteAll(r, total, local, vs)) then Some(|vs|) else None
  }

  /** That point in counts: the first with the quorum's worth of versioned answers, or the last answer of all. */
  lemma DecidesAtQuorum(r: nat, total: nat, local: Option<Entry>, vs: seq<Vote>, k: nat)
    requires 0 < k <= |vs| <= total
    ensures DecidedAfter(r, total, local, vs) == Some(k)
       <==> && ((if local.Some? then 1 else 0) + CountedVotes(vs[..k]) >= r || k == total)
            && forall j :: 0 < j < k ==> (if local.Some? then 1 else 0) + CountedVotes(vs[..j]) < r
  {
    hide NoteAll, CountedVotes;
    forall j | 0 < j <= |vs|
      ensures ShouldFire(NoteAll(r, total, local, vs[..j]))
         <==> (if local.Some? then 1 else 0) + CountedVotes(vs[..j]) >= r || j == total
    {
      NoteAllIsMaximum(r, total, local, vs[..j]);
    }
  }

  /** The read decides on the votes up to that point; later ones are drained and change nothing. */
  lemma {:induction false} LateVotesChangeNothing(r: nat, total: nat, local: Option<Entry>,
                                                  cs: seq<FanOut.Completion<Vote>>)
    ensures var p := FanOut.Reduced(READ_POLICY, Start(r, total, local), cs);
            match DecidedAfter(r, total, local, VotesIn(cs))
            case None => p == FanOut.Progress(NoteAll(r, total, local, VotesIn(cs)), [])
            case Some(k) =>
              var st := NoteAll(r, total, local, VotesIn(cs)[..k]);
              p == FanOut.Progress(st, [st])
  {
    if cs == [] {
    } else {
      var init, c := cs[..|cs| - 1], cs[|cs| - 1];
      LateVotesChangeNothing(r, total, local, init);
      var vs := VotesIn(cs);
      assert vs[..|vs| - 1] == VotesIn(init);
      var k := DecidedAfter(r, total, local, VotesIn(init));
      if k.Some? { assert vs[..k.value] == VotesIn(init)[..k.value]; }
      assert vs[..|vs|] == vs;
    }
  }

  /** Once every replica has completed, the read has decided. */
  lemma AllVotesDecide(r: nat, total: nat, local: Option<Entry>, vs: seq<Vote>)
    requires |vs| == total > 0
    ensures DecidedAfter(r, total, local, vs).Some?
  {
    NoteAllIsMaximum(r, total, local, vs);
    assert vs[..|vs|] == vs;
  }
}
