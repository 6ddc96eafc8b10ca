/**
 Crash safety down to the bytes of the log files. The machine of `Persistence` runs over real log
 files: a crash may cut an append, a repair or a header at any byte, and recovery decodes what is
 there. Every such run is shown to be a run of the machine over records.
 */
module LogFiles {
  import opened Common
  import opened Lww
  import opened Persistence
  import Wal

  // ---------------------------------------------------------------- writes and log records

  /** The write fits the field widths of a log record. */
  predicate Fits(w: Write) {
    && w.entry.stamp.version < 0x1_0000_0000_0000_0000
    && w.entry.stamp.writer < 0x1_0000_0000_0000_0000
    && (w.entry.expiresAt.Some? ==> 0 <= w.entry.expiresAt.value < 0x1_0000_0000_0000_0000)
  }

  predicate AllFit(ws: seq<Write>) {
    forall w :: w in ws ==> Fits(w)
  }

  function ToWal(w: Write): Wal.WalEntry
    requires Fits(w)
  {
    var at := w.entry.expiresAt;
    Wal.WalEntry(Wal.Set, w.key, w.entry.value, w.entry.stamp.version, w.entry.stamp.writer,
                 if at.Some? then at.value else 0, at.Some?, w.entry.stamp.tombstone)
  }

  function FromWal(e: Wal.WalEntry): Write {
    Write(e.key, Entry(Stamp(e.version, e.writer, e.tombstone), e.value,
                       if e.hasTtl then Some(e.expiresAtMs) else None))
  }

  function ToWals(ws: seq<Write>): (r: seq<Wal.WalEntry>)
    requires AllFit(ws)
    ensures |r| == |ws|
  {
    seq(|ws|, i requires 0 <= i < |ws| => ToWal(ws[i]))
  }

  function FromWals(es: seq<Wal.WalEntry>): (r: seq<Write>)
    ensures |r| == |es|
  {
    seq(|es|, i requires 0 <= i < |es| => FromWal(es[i]))
  }

  lemma WritesRoundTrip(ws: seq<Write>, k: nat)
    requires AllFit(ws) && k <= |ws|
    ensures FromWals(ToWals(ws)[..k]) == ws[..k]
  {
  }

  lemma FromWalsConcat(a: seq<Wal.WalEntry>, b: seq<Wal.WalEntry>)
    ensures FromWals(a + b) == FromWals(a) + FromWals(b)
  {
  }

  /** The writes a replay of the file finds. */
  function Decoded(hash: Wal.Hash, file: Bytes): seq<Write> {
    FromWals(Wal.Replay(hash, file).entries)
  }

  // ---------------------------------------------------------------- one log file

  /** A log with nothing torn off. */
  ghost predicate Full(hash: Wal.Hash, file: Bytes) {
    exists es :: Wal.AllStorable(es) && file == Wal.Image(hash, es)
  }

  ghost predicate IsCut(hash: Wal.Hash, file: Bytes, es: seq<Wal.WalEntry>, cut: nat) {
    Wal.AllStorable(es) && (cut == 0 || 8 <= cut) && cut <= |Wal.Image(hash, es)| && file == Wal.Image(hash, es)[..cut]
  }

  /** A log cut anywhere but inside its header. */
  ghost predicate Cut(hash: Wal.Hash, file: Bytes) {
    exists es, cut: nat :: IsCut(hash, file, es, cut)
  }

  ghost predicate HeaderCut(file: Bytes) {
    0 < |file| < 8 && file == Wal.Header()[..|file|]
  }

  lemma CutReads(hash: Wal.Hash, file: Bytes, es: seq<Wal.WalEntry>, cut: nat) returns (k: nat)
    requires IsCut(hash, file, es, cut)
    ensures k <= |es| && !Wal.Replay(hash, file).corrupted
    ensures Wal.Replay(hash, file).entries == es[..k] && Wal.Healed(hash, file) in {[], Wal.Image(hash, es[..k])}
    ensures Wal.Healed(hash, file) == [] ==> k == 0
    ensures Wal.Reopened(Wal.Healed(hash, file)) == Wal.Image(hash, es[..k])
  {
    Wal.HealedIsImage(hash, es, cut);
    if cut == 0 {
      k := 0;
    } else {
      k := Wal.Whole(es, cut - 8);
      Wal.CutReadsWholeRecords(hash, es, cut);
      HealedOrEmpty(hash, file, es, k);
    }
  }

  lemma HealedOrEmpty(hash: Wal.Hash, file: Bytes, es: seq<Wal.WalEntry>, k: nat)
    requires Wal.AllStorable(es) && k <= |es|
    requires Wal.Replay(hash, file) == Wal.Replayed(es[..k], false, if k == 0 then 0 else 8 + Wal.SizeOf(es[..k]))
    requires Wal.Reopened(Wal.Healed(hash, file)) == Wal.Image(hash, es[..k])
    ensures if k == 0 then Wal.Healed(hash, file) == [] else Wal.Healed(hash, file) == Wal.Image(hash, es[..k])
  {
  }

  lemma FullReads(hash: Wal.Hash, es: seq<Wal.WalEntry>)
    requires Wal.AllStorable(es)
    ensures IsCut(hash, Wal.Image(hash, es), es, |Wal.Image(hash, es)|)
    ensures Wal.Replay(hash, Wal.Image(hash, es)).entries == es && !Wal.Replay(hash, Wal.Image(hash, es)).corrupted
  {
    Wal.HeaderBytes();
    var file := Wal.Image(hash, es);
    hide Wal.Records, Wal.Replay, Wal.Header, Wal.Whole;
    assert file[..|file|] == file;
    Wal.CutReadsWholeRecords(hash, es, |file|);
    Wal.WholeOfAll(hash, es);
    assert es[..|es|] == es;
  }

  /** Healing keeps what a file says; reopening a healed file makes it whole. */
  lemma HealReads(hash: Wal.Hash, file: Bytes)
    requires Cut(hash, file)
    ensures !Wal.Replay(hash, file).corrupted
    ensures Cut(hash, Wal.Healed(hash, file)) && Decoded(hash, Wal.Healed(hash, file)) == Decoded(hash, file)
    ensures Full(hash, Wal.Reopened(Wal.Healed(hash, file)))
    ensures Decoded(hash, Wal.Reopened(Wal.Healed(hash, file))) == Decoded(hash, file)
  {
    var es, cut: nat :| IsCut(hash, file, es, cut);
    var k := CutReads(hash, file, es, cut);
    hide Wal.Replay, Wal.Healed, Wal.Reopened, Wal.Image, IsCut;
    FullReads(hash, es[..k]);
    EmptyReads(hash);
  }

  lemma EmptyReads(hash: Wal.Hash)
    ensures Cut(hash, []) && Wal.Replay(hash, []).entries == []
  {
    assert IsCut(hash, [], [], 0);
  }

  lemma FreshReads(hash: Wal.Hash)
    ensures Full(hash, Wal.Header()) && Decoded(hash, Wal.Header()) == []
  {
    assert Wal.Image(hash, []) == Wal.Header();
    FullReads(hash, []);
  }

  lemma HeaderCutReads(hash: Wal.Hash, file: Bytes)
    requires HeaderCut(file)
    ensures Wal.Replay(hash, file).corrupted && Decoded(hash, file) == []
  {
    Wal.HeaderCutIsCorrupt(hash, |file|);
    Wal.LegacyNeedsBytes(hash, file);
    assert Wal.Open(file) == (Wal.Legacy, 0) && file[0..] == file;
  }

  lemma WholeCons(a: seq<Wal.WalEntry>, b: seq<Wal.WalEntry>, room: nat)
    ensures Wal.SizeOf(a) == if a == [] then 0 else Wal.RecordSize(a[0]) + Wal.SizeOf(a[1..])
    ensures b != [] && Wal.RecordSize(b[0]) <= room ==>
              Wal.Whole(b, room) == 1 + Wal.Whole(b[1..], room - Wal.RecordSize(b[0]))
  {
    hide Wal.RecordSize;
  }

  lemma {:induction false} WholeConcat(a: seq<Wal.WalEntry>, b: seq<Wal.WalEntry>, room: nat)
    ensures Wal.Whole(a + b, Wal.SizeOf(a) + room) == |a| + Wal.Whole(b, room)
  {
    hide Wal.RecordSize, Wal.Whole, Wal.SizeOf;
    WholeCons(a, a + b, Wal.SizeOf(a) + room);
    if a == [] {
      assert a + b == b;
    } else {
      assert (a + b)[1..] == a[1..] + b;
      WholeConcat(a[1..], b, room);
    }
  }

  /** An append that a crash cuts anywhere adds the records it got through, whole, and nothing else. */
  lemma TornReads(hash: Wal.Hash, file: Bytes, ws: seq<Write>, bytes: nat)
    requires Full(hash, file) && AllFit(ws) && Wal.AllStorable(ToWals(ws))
    requires bytes <= |Wal.Records(hash, ToWals(ws))|
    ensures Cut(hash, file + Wal.Records(hash, ToWals(ws))[..bytes])
    ensures Decoded(hash, file + Wal.Records(hash, ToWals(ws))[..bytes])
            == Decoded(hash, file) + ws[..Wal.Whole(ToWals(ws), bytes)]
  {
    hide Wal.Replay, Wal.Records, Wal.Image, ToWals, FromWals, IsCut, Wal.Whole, Wal.AllStorable;
    var es :| Wal.AllStorable(es) && file == Wal.Image(hash, es);
    var more := ToWals(ws);
    var k := Wal.Whole(more, bytes);
    Appended(hash, es, more, bytes);
    FullReads(hash, es);
    WritesRoundTrip(ws, k);
    FromWalsConcat(es, more[..k]);
    assert IsCut(hash, file + Wal.Records(hash, more)[..bytes], es + more, |file| + bytes);
  }

  lemma Appended(hash: Wal.Hash, es: seq<Wal.WalEntry>, more: seq<Wal.WalEntry>, bytes: nat)
    requires Wal.AllStorable(es) && Wal.AllStorable(more) && bytes <= |Wal.Records(hash, more)|
    ensures var file := Wal.Image(hash, es);
            var longer := file + Wal.Records(hash, more)[..bytes];
            && IsCut(hash, longer, es + more, |file| + bytes)
            && Wal.Replay(hash, longer).entries == es + more[..Wal.Whole(more, bytes)]
  {
    Wal.HeaderBytes();
    hide Wal.Replay, Wal.Records, Wal.Header, Wal.Whole, Wal.SizeOf;
    var file, tail := Wal.Image(hash, es), Wal.Records(hash, more);
    Wal.RecordsConcat(hash, es, more);
    Wal.Regroup(Wal.Header(), Wal.Records(hash, es), tail);
    assert (file + tail)[..|file| + bytes] == file + tail[..bytes];
    Wal.RecordsSize(hash, es);
    Wal.CutReadsWholeRecords(hash, es + more, |file| + bytes);
    WholeConcat(es, more, bytes);
    var k := Wal.Whole(more, bytes);
    assert (es + more)[..|es| + k] == es + more[..k];
  }

  lemma AppendReads(hash: Wal.Hash, file: Bytes, ws: seq<Write>)
    requires Full(hash, file) && AllFit(ws) && Wal.AllStorable(ToWals(ws))
    ensures Full(hash, file + Wal.Records(hash, ToWals(ws)))
    ensures Decoded(hash, file + Wal.Records(hash, ToWals(ws))) == Decoded(hash, file) + ws
  {
    hide Wal.Replay, Wal.Records, Wal.Image, ToWals, FromWals, IsCut, Wal.AllStorable;
    var es :| Wal.AllStorable(es) && file == Wal.Image(hash, es);
    var more := ToWals(ws);
    FullAppended(hash, es, more);
    FullReads(hash, es);
    FullReads(hash, es + more);
    assert more[..|ws|] == more && ws[..|ws|] == ws;
    WritesRoundTrip(ws, |ws|);
    FromWalsConcat(es, more);
  }

  lemma FullAppended(hash: Wal.Hash, es: seq<Wal.WalEntry>, more: seq<Wal.WalEntry>)
    requires Wal.AllStorable(es) && Wal.AllStorable(more)
    ensures Wal.AllStorable(es + more) && Wal.Image(hash, es) + Wal.Records(hash, more) == Wal.Image(hash, es + more)
  {
    hide Wal.Records, Wal.Header;
    Wal.RecordsConcat(hash, es, more);
    Wal.Regroup(Wal.Header(), Wal.Records(hash, es), Wal.Records(hash, more));
  }

  // ---------------------------------------------------------------- the machine over files

  datatype Logs = Logs(sealed: map<nat, Bytes>, active: Option<Bytes>)

  datatype FileState = FileState(
    logs: Logs,
    snapshots: map<nat, Store>,
    current: Option<nat>,
    phase: Phase,
    store: Store,
    pending: seq<Write>,
    nextSeq: nat,
    drained: set<Write>,
    written: set<Write>)

  const NO_FILES: FileState := FileState(Logs(map[], None), map[], None, Down, map[], [], 1, {}, {})

  function DecodedSegments(hash: Wal.Hash, sealed: map<nat, Bytes>): map<nat, seq<Write>> {
    map n | n in sealed :: Decoded(hash, sealed[n])
  }

  lemma OneSegmentMore(hash: Wal.Hash, sealed: map<nat, Bytes>, n: nat, file: Bytes)
    ensures DecodedSegments(hash, sealed[n := file]) == DecodedSegments(hash, sealed)[n := Decoded(hash, file)]
  {
    hide Decoded;
  }

  lemma OneSegmentLess(hash: Wal.Hash, sealed: map<nat, Bytes>, n: nat)
    ensures DecodedSegments(hash, sealed - {n}) == DecodedSegments(hash, sealed) - {n}
  {
    hide Decoded;
  }

  /** What the files say. */
  function Contents(hash: Wal.Hash, s: FileState): Disk {
    Disk(s.snapshots, s.current, DecodedSegments(hash, s.logs.sealed),
         if s.logs.active.Some? then Some(Decoded(hash, s.logs.active.value)) else None)
  }

  function Abs(hash: Wal.Hash, s: FileState): State {
    State(Contents(hash, s), s.phase, s.store, s.pending, s.nextSeq, s.drained, s.written)
  }

  /** Some log file has bytes that no crash of an append leaves: recovery stops with an error. */
  predicate Refused(hash: Wal.Hash, logs: Logs) {
    || (exists n :: n in logs.sealed && Wal.Replay(hash, logs.sealed[n]).corrupted)
    || (logs.active.Some? && Wal.Replay(hash, logs.active.value).corrupted)
  }

  datatype FileStep =
    | Plain(step: Step)
    | TornAppend(bytes: nat)           // crash in a drain, after `bytes` bytes of the batch
    | Repair(seqNo: Option<nat>)       // recovery truncates one log, then crashes
    | TornHeader(bytes: nat)           // recovery creates or reopens an empty log, crash after `bytes` bytes

  ghost predicate Appendable(s: FileState) {
    AllFit(s.pending) && Wal.AllStorable(ToWals(s.pending))
  }

  ghost predicate FileEnabled(hash: Wal.Hash, s: FileState, step: FileStep) {
    match step
    case Plain(step) =>
      && !step.TornDrain? && !step.CreateLog? && Enabled(Abs(hash, s), step)
      && (step.Accept? ==> Fits(step.w))
      && (step.Recover? ==> !Refused(hash, s.logs))
    case TornAppend(bytes) =>
      && s.phase.Idle? && s.logs.active.Some? && Appendable(s)
      && bytes <= |Wal.Records(hash, ToWals(s.pending))|
    case Repair(None) => s.phase.Down? && s.logs.active.Some? && !Wal.Replay(hash, s.logs.active.value).corrupted
    case Repair(Some(n)) => s.phase.Down? && n in s.logs.sealed && !Wal.Replay(hash, s.logs.sealed[n]).corrupted
    case TornHeader(bytes) =>
      s.phase.Down? && !Refused(hash, s.logs) && bytes < 8 && Wal.Healed(hash, ActiveBytes(s.logs)) == []
  }

  function ActiveBytes(logs: Logs): Bytes {
    if logs.active.Some? then logs.active.value else []
  }

  /** The log files after a step that is not cut short. */
  ghost function LogsAfter(hash: Wal.Hash, s: FileState, step: Step): Logs
    requires Enabled(Abs(hash, s), step) && AllFit(s.pending)
  {
    var logs := s.logs;
    match step
    case Drain => logs.(active := Some(logs.active.value + Wal.Records(hash, ToWals(s.pending))))
    case SealRename => Logs(logs.sealed[s.nextSeq := logs.active.value], None)
    case SealFresh => logs.(active := Some(Wal.Header()))
    case Rotate => logs.(active := Some(Wal.Header()))
    case DeleteSealed(n) => logs.(sealed := logs.sealed - {n})
    case Recover(_) =>
      Logs(map n | n in logs.sealed :: Wal.Healed(hash, logs.sealed[n]),
           Some(Wal.Reopened(Wal.Healed(hash, ActiveBytes(logs)))))
    case _ => logs
  }

  /** Memory and snapshots as in `t`, log files as given. */
  function With(t: State, logs: Logs): FileState {
    FileState(logs, t.disk.snapshots, t.disk.current, t.phase, t.store, t.pending, t.nextSeq, t.drained, t.written)
  }

  ghost function FileNext(cfg: Config, hash: Wal.Hash, s: FileState, step: FileStep): FileState
    requires ValidConfig(cfg) && AllFit(s.pending) && FileEnabled(hash, s, step)
  {
    match step
    case Plain(step) =>
      if step.Drain? && !Appendable(s) then s    // a record too large: the batch is refused and queued again
      else With(Next(cfg, Abs(hash, s), step), LogsAfter(hash, s, step))
    case TornAppend(bytes) =>
      var file := s.logs.active.value + Wal.Records(hash, ToWals(s.pending))[..bytes];
      s.(logs := s.logs.(active := Some(file)), phase := Down, store := map[], pending := [])
    case Repair(None) => s.(logs := s.logs.(active := Some(Wal.Healed(hash, s.logs.active.value))))
    case Repair(Some(n)) => s.(logs := s.logs.(sealed := s.logs.sealed[n := Wal.Healed(hash, s.logs.sealed[n])]))
    case TornHeader(bytes) => s.(logs := s.logs.(active := Some(Wal.Header()[..bytes])))
  }

  ghost predicate FilesOk(hash: Wal.Hash, s: FileState) {
    && AllFit(s.pending)
    && (forall n :: n in s.logs.sealed ==> Cut(hash, s.logs.sealed[n]))
    && (s.logs.active.Some? && Up(Abs(hash, s)) ==> Full(hash, s.logs.active.value))
    && (s.logs.active.Some? ==> Cut(hash, s.logs.active.value) || HeaderCut(s.logs.active.value))
  }

  // ---------------------------------------------------------------- every run over files is a run over records

  /** The record-level steps a file-level step amounts to. */
  ghost function AsSteps(hash: Wal.Hash, s: FileState, step: FileStep): seq<Step>
    requires FileEnabled(hash, s, step)
  {
    match step
    case Plain(step) => if step.Drain? && !Appendable(s) then [] else [step]
    case TornAppend(bytes) => [TornDrain(Wal.Whole(ToWals(s.pending), bytes))]
    case Repair(_) => []
    case TornHeader(_) => if s.logs.active.None? then [CreateLog] else []
  }

  lemma ActiveReads(hash: Wal.Hash, s: FileState)
    requires FilesOk(hash, s) && s.phase.Down? && !Refused(hash, s.logs)
    ensures var was := ActiveBytes(s.logs);
            var file := Wal.Reopened(Wal.Healed(hash, was));
            && Cut(hash, was) && Full(hash, file)
            && Decoded(hash, file) == Decoded(hash, was)
            && Decoded(hash, was) == if s.logs.active.Some? then Decoded(hash, s.logs.active.value) else []
  {
    hide Cut, Full, Decoded, Wal.Replay, Wal.Healed, Wal.Reopened;
    EmptyReads(hash);
    if s.logs.active.Some? && HeaderCut(s.logs.active.value) { HeaderCutReads(hash, s.logs.active.value); }
    HealReads(hash, ActiveBytes(s.logs));
    NothingDecoded(hash);
  }

  lemma NothingDecoded(hash: Wal.Hash)
    ensures Decoded(hash, []) == []
  {
    EmptyReads(hash);
  }

  lemma RecoverSimulates(cfg: Config, hash: Wal.Hash, s: FileState, step: Step)
    requires ValidConfig(cfg) && FilesOk(hash, s) && FileEnabled(hash, s, Plain(step)) && step.Recover?
    ensures Abs(hash, FileNext(cfg, hash, s, Plain(step))) == Next(cfg, Abs(hash, s), step)
    ensures FilesOk(hash, FileNext(cfg, hash, s, Plain(step)))
  {
    hide Cut, Full, Decoded, Wal.Replay, Wal.Healed, Wal.Reopened, Recovered;
    ActiveReads(hash, s);
    forall n | n in s.logs.sealed
      ensures Cut(hash, Wal.Healed(hash, s.logs.sealed[n]))
      ensures Decoded(hash, Wal.Healed(hash, s.logs.sealed[n])) == Decoded(hash, s.logs.sealed[n])
    {
      HealReads(hash, s.logs.sealed[n]);
    }
    FullIsCut(hash, Wal.Reopened(Wal.Healed(hash, ActiveBytes(s.logs))));
  }

  lemma FullIsCut(hash: Wal.Hash, file: Bytes)
    requires Full(hash, file)
    ensures Cut(hash, file)
  {
    var es :| Wal.AllStorable(es) && file == Wal.Image(hash, es);
    FullReads(hash, es);
  }

  lemma DrainSimulates(cfg: Config, hash: Wal.Hash, s: FileState)
    requires ValidConfig(cfg) && FilesOk(hash, s) && FileEnabled(hash, s, Plain(Drain)) && Appendable(s)
    ensures Abs(hash, FileNext(cfg, hash, s, Plain(Drain))) == Next(cfg, Abs(hash, s), Drain)
    ensures FilesOk(hash, FileNext(cfg, hash, s, Plain(Drain)))
  {
    hide Cut, Full, Decoded, Wal.Records, ToWals;
    AppendReads(hash, s.logs.active.value, s.pending);
    FullIsCut(hash, s.logs.active.value + Wal.Records(hash, ToWals(s.pending)));
  }

  lemma PlainFilesOk(cfg: Config, hash: Wal.Hash, s: FileState, step: Step)
    requires ValidConfig(cfg) && FilesOk(hash, s) && FileEnabled(hash, s, Plain(step))
    requires !step.Recover? && !step.Drain?
    ensures FilesOk(hash, FileNext(cfg, hash, s, Plain(step)))
  {
    hide Cut, Full, Decoded, Wal.Header, HeaderCut, Recovered, Wal.Replay, Put, Compare, ShardOf;
    FreshReads(hash);
    FullIsCut(hash, Wal.Header());
    if step.SealRename? { FullIsCut(hash, s.logs.active.value); }
  }

  lemma PlainSimulates(cfg: Config, hash: Wal.Hash, s: FileState, step: Step)
    requires ValidConfig(cfg) && FilesOk(hash, s) && FileEnabled(hash, s, Plain(step))
    requires !step.Recover? && !step.Drain?
    ensures Abs(hash, FileNext(cfg, hash, s, Plain(step))) == Next(cfg, Abs(hash, s), step)
    ensures FilesOk(hash, FileNext(cfg, hash, s, Plain(step)))
  {
    hide Next, LogsAfter, FilesOk, Enabled, ReadsAs, Abs;
    FilesAllFit(hash, s);
    PlainFilesOk(cfg, hash, s, step);
    PlainLogs(cfg, hash, s, step);
    WithReads(hash, Next(cfg, Abs(hash, s), step), LogsAfter(hash, s, step));
  }

  ghost predicate ReadsAs(hash: Wal.Hash, logs: Logs, disk: Disk) {
    && disk.sealed == DecodedSegments(hash, logs.sealed)
    && disk.active == if logs.active.Some? then Some(Decoded(hash, logs.active.value)) else None
  }

  lemma WithReads(hash: Wal.Hash, t: State, logs: Logs)
    requires ReadsAs(hash, logs, t.disk)
    ensures Abs(hash, With(t, logs)) == t
  {
    hide Decoded;
  }

  lemma PlainLogs(cfg: Config, hash: Wal.Hash, s: FileState, step: Step)
    requires ValidConfig(cfg) && FilesOk(hash, s) && FileEnabled(hash, s, Plain(step))
    requires !step.Recover? && !step.Drain?
    ensures ReadsAs(hash, LogsAfter(hash, s, step), Next(cfg, Abs(hash, s), step).disk)
  {
    hide Full, Decoded, DecodedSegments, Wal.Header, Recovered, Put, Compare, ShardOf, FilesOk;
    FreshReads(hash);
    match step
    case SealRename => OneSegmentMore(hash, s.logs.sealed, s.nextSeq, s.logs.active.value);
    case DeleteSealed(n) => OneSegmentLess(hash, s.logs.sealed, n);
    case _ =>
  }

  lemma TornAppendSimulates(cfg: Config, hash: Wal.Hash, s: FileState, bytes: nat)
    requires ValidConfig(cfg) && FilesOk(hash, s) && FileEnabled(hash, s, TornAppend(bytes))
    ensures var k := Wal.Whole(ToWals(s.pending), bytes);
            && Enabled(Abs(hash, s), TornDrain(k))
            && Abs(hash, FileNext(cfg, hash, s, TornAppend(bytes))) == Next(cfg, Abs(hash, s), TornDrain(k))
    ensures FilesOk(hash, FileNext(cfg, hash, s, TornAppend(bytes)))
  {
    hide Cut, Full, Decoded, Wal.Records, ToWals, Wal.Whole;
    TornReads(hash, s.logs.active.value, s.pending, bytes);
  }

  lemma RepairSimulates(cfg: Config, hash: Wal.Hash, s: FileState, n: Option<nat>)
    requires ValidConfig(cfg) && FilesOk(hash, s) && FileEnabled(hash, s, Repair(n))
    ensures Abs(hash, FileNext(cfg, hash, s, Repair(n))) == Abs(hash, s)
    ensures FilesOk(hash, FileNext(cfg, hash, s, Repair(n)))
  {
    hide Cut, Full, Decoded, Wal.Replay, Wal.Healed;
    if n.Some? {
      HealReads(hash, s.logs.sealed[n.value]);
    } else {
      if HeaderCut(s.logs.active.value) { HeaderCutReads(hash, s.logs.active.value); }
      HealReads(hash, s.logs.active.value);
    }
  }

  lemma TornHeaderSimulates(cfg: Config, hash: Wal.Hash, s: FileState, bytes: nat)
    requires ValidConfig(cfg) && FilesOk(hash, s) && FileEnabled(hash, s, TornHeader(bytes))
    ensures var t := Abs(hash, FileNext(cfg, hash, s, TornHeader(bytes)));
            if s.logs.active.Some? then t == Abs(hash, s)
            else Enabled(Abs(hash, s), CreateLog) && t == Next(cfg, Abs(hash, s), CreateLog)
    ensures FilesOk(hash, FileNext(cfg, hash, s, TornHeader(bytes)))
  {
    hide Cut, Full, Decoded, Wal.Replay, Wal.Healed;
    ActiveReads(hash, s);
    HealReads(hash, ActiveBytes(s.logs));
    EmptyReads(hash);
    NothingDecoded(hash);
    Wal.HeaderBytes();
    hide Wal.Header;
    var file := Wal.Header()[..bytes];
    if bytes == 0 { assert file == []; } else { HeaderCutReads(hash, file); }
  }

  lemma StepSimulates(cfg: Config, hash: Wal.Hash, s: FileState, step: FileStep)
    requires ValidConfig(cfg) && FilesOk(hash, s) && FileEnabled(hash, s, step)
    ensures EnabledSteps(cfg, Abs(hash, s), AsSteps(hash, s, step))
    ensures Execute(cfg, Abs(hash, s), AsSteps(hash, s, step)) == Abs(hash, FileNext(cfg, hash, s, step))
    ensures FilesOk(hash, FileNext(cfg, hash, s, step))
  {
    hide FilesOk, Abs, Next, Enabled, LogsAfter, With, Wal.Whole, ToWals, Wal.Records;
    match step {
      case Plain(Recover(from)) => RecoverSimulates(cfg, hash, s, Recover(from));
      case Plain(Drain) => if Appendable(s) { DrainSimulates(cfg, hash, s); }
      case Plain(step) => PlainSimulates(cfg, hash, s, step);
      case TornAppend(bytes) => TornAppendSimulates(cfg, hash, s, bytes);
      case Repair(n) => RepairSimulates(cfg, hash, s, n);
      case TornHeader(bytes) => TornHeaderSimulates(cfg, hash, s, bytes);
    }
  }

  /** After a recovery no log file ends in half a record: the active log is whole, a sealed one whole or empty. */
  lemma RecoveryHeals(cfg: Config, hash: Wal.Hash, s: FileState, from: Option<nat>)
    requires ValidConfig(cfg) && FilesOk(hash, s) && FileEnabled(hash, s, Plain(Recover(from)))
    ensures var logs := FileNext(cfg, hash, s, Plain(Recover(from))).logs;
            && logs.sealed.Keys == s.logs.sealed.Keys
            && (forall n :: n in logs.sealed ==> logs.sealed[n] == [] || Full(hash, logs.sealed[n]))
            && logs.active.Some? && Full(hash, logs.active.value)
  {
    ActiveReads(hash, s);
    forall n | n in s.logs.sealed
      ensures Wal.Healed(hash, s.logs.sealed[n]) == [] || Full(hash, Wal.Healed(hash, s.logs.sealed[n]))
    {
      HealedIsWhole(hash, s.logs.sealed[n]);
    }
    hide Full, Wal.Healed, Wal.Reopened, Decoded, Cut, Wal.Replay, Recovered;
  }

  lemma HealedIsWhole(hash: Wal.Hash, file: Bytes)
    requires Cut(hash, file)
    ensures Wal.Healed(hash, file) == [] || Full(hash, Wal.Healed(hash, file))
  {
    var es, cut: nat :| IsCut(hash, file, es, cut);
    var k := CutReads(hash, file, es, cut);
    hide Wal.Healed, Wal.Image, Wal.Replay, Wal.Reopened;
    assert Wal.AllStorable(es[..k]);
  }

  // ---------------------------------------------------------------- whole runs

  ghost predicate FileRun(cfg: Config, hash: Wal.Hash, s: FileState, steps: seq<FileStep>, t: FileState)
    requires ValidConfig(cfg)
    decreases |steps|
  {
    if steps == [] then t == s
    else
      && AllFit(s.pending) && FileEnabled(hash, s, steps[0])
      && FileRun(cfg, hash, FileNext(cfg, hash, s, steps[0]), steps[1..], t)
  }

  lemma {:induction false} ExecuteConcat(cfg: Config, s: State, a: seq<Step>, b: seq<Step>)
    requires ValidConfig(cfg) && EnabledSteps(cfg, s, a) && EnabledSteps(cfg, Execute(cfg, s, a), b)
    ensures EnabledSteps(cfg, s, a + b)
    ensures Execute(cfg, s, a + b) == Execute(cfg, Execute(cfg, s, a), b)
    decreases |a|
  {
    hide Next, Enabled;
    if a == [] {
      assert a + b == b;
    } else {
      assert (a + b)[1..] == a[1..] + b;
      ExecuteConcat(cfg, Next(cfg, s, a[0]), a[1..], b);
    }
  }

  lemma {:induction false} RunSimulates(cfg: Config, hash: Wal.Hash, s: FileState, steps: seq<FileStep>, t: FileState)
    returns (run: seq<Step>)
    requires ValidConfig(cfg) && FilesOk(hash, s) && FileRun(cfg, hash, s, steps, t)
    ensures EnabledSteps(cfg, Abs(hash, s), run) && Execute(cfg, Abs(hash, s), run) == Abs(hash, t)
    ensures FilesOk(hash, t)
    decreases |steps|
  {
    hide FilesOk, Abs, FileNext, FileEnabled, Next, Enabled, EnabledSteps, Execute;
    if steps == [] {
      run := Standstill(cfg, Abs(hash, s));
    } else {
      StepSimulates(cfg, hash, s, steps[0]);
      var rest := RunSimulates(cfg, hash, FileNext(cfg, hash, s, steps[0]), steps[1..], t);
      var first := AsSteps(hash, s, steps[0]);
      ExecuteConcat(cfg, Abs(hash, s), first, rest);
      run := first + rest;
    }
  }

  lemma Standstill(cfg: Config, s: State) returns (run: seq<Step>)
    requires ValidConfig(cfg)
    ensures EnabledSteps(cfg, s, run) && Execute(cfg, s, run) == s
  {
    run := [];
  }

  /** Of all that crashes leave behind, only a log that ends inside its header makes recovery refuse. */
  lemma RefusedIffHeaderCut(hash: Wal.Hash, s: FileState)
    requires FilesOk(hash, s)
    ensures Refused(hash, s.logs) <==> s.logs.active.Some? && 0 < |s.logs.active.value| < 8
  {
    Wal.HeaderBytes();
    hide Wal.Replay, Cut, Wal.Header, Full;
    forall n | n in s.logs.sealed ensures !Wal.Replay(hash, s.logs.sealed[n]).corrupted {
      HealReads(hash, s.logs.sealed[n]);
    }
    if s.logs.active.Some? {
      var file := s.logs.active.value;
      if HeaderCut(file) { HeaderCutReads(hash, file); } else { HealReads(hash, file); CutIsLong(hash, file); }
    }
  }

  lemma CutIsLong(hash: Wal.Hash, file: Bytes)
    requires Cut(hash, file)
    ensures !(0 < |file| < 8)
  {
  }

  ghost predicate Stuck(s: FileState) {
    s.phase.Down? && s.logs.active.Some? && 0 < |s.logs.active.value| < 8
  }

  lemma StuckStep(cfg: Config, hash: Wal.Hash, s: FileState, step: FileStep)
    requires ValidConfig(cfg) && FilesOk(hash, s) && Stuck(s) && FileEnabled(hash, s, step)
    ensures var t := FileNext(cfg, hash, s, step); Stuck(t) && t.logs.active == s.logs.active
  {
    RefusedIffHeaderCut(hash, s);
    ShortIsCorrupt(hash, s);
    hide Wal.Replay, Wal.Healed, Wal.Header, FilesOk, Refused, Decoded;
  }

  lemma ShortIsCorrupt(hash: Wal.Hash, s: FileState)
    requires FilesOk(hash, s) && Stuck(s)
    ensures Wal.Replay(hash, s.logs.active.value).corrupted
  {
    hide Wal.Replay, Cut, Wal.Header, Full;
    var file := s.logs.active.value;
    if HeaderCut(file) { HeaderCutReads(hash, file); } else { CutIsLong(hash, file); }
  }

  /** Once the active log of a node that is down ends inside its header, no run brings the node up again. */
  lemma {:induction false} HeaderCutIsFinal(cfg: Config, hash: Wal.Hash, s: FileState, steps: seq<FileStep>,
                                            t: FileState)
    requires ValidConfig(cfg) && FilesOk(hash, s) && Stuck(s) && FileRun(cfg, hash, s, steps, t)
    ensures Stuck(t) && t.logs.active == s.logs.active
    decreases |steps|
  {
    hide FilesOk, FileNext, FileEnabled, Stuck, Abs;
    if steps == [] {
    } else {
      StuckStep(cfg, hash, s, steps[0]);
      StepSimulates(cfg, hash, s, steps[0]);
      HeaderCutIsFinal(cfg, hash, FileNext(cfg, hash, s, steps[0]), steps[1..], t);
    }
  }

  /** And otherwise recovery is enabled, and brings it up. */
  lemma RecoversUnlessStuck(cfg: Config, hash: Wal.Hash, s: FileState) returns (step: FileStep)
    requires ValidConfig(cfg) && FilesOk(hash, s) && s.phase.Down? && !Stuck(s)
    ensures FileEnabled(hash, s, step) && FileNext(cfg, hash, s, step).phase.Idle?
  {
    RefusedIffHeaderCut(hash, s);
    hide Wal.Replay, Wal.Healed, Wal.Header, Wal.Reopened, FilesOk, Refused, Decoded;
    var from := None;
    if s.current.Some? && s.current.value in s.snapshots {
      from := s.current;
    } else if s.snapshots != map[] {
      var n :| n in s.snapshots;
      from := Some(n);
    }
    assert MayLoad(Contents(hash, s), from);
    step := Plain(Recover(from));
    FilesAllFit(hash, s);
  }

  lemma FilesAllFit(hash: Wal.Hash, s: FileState)
    requires FilesOk(hash, s)
    ensures AllFit(s.pending)
  {
  }

  /**
   After any run over files, with appends, repairs and headers cut at any byte: recovery refuses the
   files only when the active log ends inside its header, and the bytes on disk decode to a store that
   has, for every record drained so far, an entry at least as new, and no entry that was not written.
   */
  lemma FilesLoseNothing(cfg: Config, hash: Wal.Hash, steps: seq<FileStep>, s: FileState, from: Option<nat>)
    requires ValidConfig(cfg) && FileRun(cfg, hash, NO_FILES, steps, s) && MayLoad(Contents(hash, s), from)
    ensures Refused(hash, s.logs) <==> s.logs.active.Some? && 0 < |s.logs.active.value| < 8
    ensures forall w :: w in s.drained ==> Holds(Recovered(Contents(hash, s), from), w.key, w.entry.stamp)
    ensures StoreFrom(Recovered(Contents(hash, s), from), s.written)
  {
    hide Recovered, FilesOk, FileRun, EnabledSteps, Execute, MayLoad, Contents, Holds, StoreFrom, Refused;
    NoFilesOk(hash);
    var run := RunSimulates(cfg, hash, NO_FILES, steps, s);
    NothingDrainedIsLost(cfg, run, from);
    RefusedIffHeaderCut(hash, s);
  }

  lemma NoFilesOk(hash: Wal.Hash)
    ensures FilesOk(hash, NO_FILES) && Abs(hash, NO_FILES) == INIT
  {
  }

  // ---------------------------------------------------------------- from an accepted write to bytes and back

  predicate FileStaysUp(step: FileStep) {
    step.Plain? && StaysUp(step.step)
  }

  lemma FileQueuedStep(cfg: Config, hash: Wal.Hash, s: FileState, step: FileStep, w: Write)
    requires ValidConfig(cfg) && FilesOk(hash, s) && FileEnabled(hash, s, step)
    requires w in s.drained || (FileStaysUp(step) && w in s.pending)
    ensures var t := FileNext(cfg, hash, s, step);
            (w in s.drained ==> w in t.drained) && (w in t.pending || w in t.drained)
  {
    hide Next, LogsAfter, Contents, FilesOk, Enabled;
    if step.Plain? { QueuedStep(cfg, Abs(hash, s), step.step, w); }
  }

  lemma {:induction false} FileStaysQueued(cfg: Config, hash: Wal.Hash, s: FileState, steps: seq<FileStep>,
                                           t: FileState, w: Write)
    requires ValidConfig(cfg) && FilesOk(hash, s) && FileRun(cfg, hash, s, steps, t)
    requires w in s.drained || (w in s.pending && forall step :: step in steps ==> FileStaysUp(step))
    ensures FilesOk(hash, t) && (w in s.drained ==> w in t.drained) && (w in t.pending || w in t.drained)
    decreases |steps|
  {
    hide FilesOk, FileNext, FileEnabled, Abs;
    if steps == [] {
    } else {
      var u := FileNext(cfg, hash, s, steps[0]);
      FileQueuedStep(cfg, hash, s, steps[0], w);
      StepSimulates(cfg, hash, s, steps[0]);
      FileStaysQueued(cfg, hash, u, steps[1..], t, w);
    }
  }

  /** A drain that goes through has every queued write in the bytes of the active log. */
  lemma DrainReachesFile(cfg: Config, hash: Wal.Hash, s: FileState, w: Write)
    requires ValidConfig(cfg) && FilesOk(hash, s) && FileEnabled(hash, s, Plain(Drain))
    requires Appendable(s) && w in s.pending
    ensures var t := FileNext(cfg, hash, s, Plain(Drain));
            t.logs.active.Some? && w in Decoded(hash, t.logs.active.value) && w in t.drained
  {
    DrainSimulates(cfg, hash, s);
    hide Decoded, Full, FilesOk;
    DrainWrites(cfg, Abs(hash, s));
  }

  /**
   The same from end to end over the bytes: `w` is accepted over nothing later, the process stays up through `between`
   and drains records that all fit a log, and then anything happens, with crashes at any byte: what the files decode to
   has `w` or something at least as new.
   */
  lemma DrainedBytesSurvive(cfg: Config, hash: Wal.Hash, before: seq<FileStep>, s: FileState, w: Write,
                            between: seq<FileStep>, u: FileState, after: seq<FileStep>, t: FileState, from: Option<nat>)
    requires ValidConfig(cfg) && FileRun(cfg, hash, NO_FILES, before, s) && AllFit(s.pending)
    requires !s.phase.Down? && IsFresh(Abs(hash, s), w)
    requires w.entry.stamp.version < 0x1_0000_0000_0000_0000 && w.entry.stamp.writer < 0x1_0000_0000_0000_0000
    requires w.entry.expiresAt.Some? ==> 0 <= w.entry.expiresAt.value < 0x1_0000_0000_0000_0000
    requires FileRun(cfg, hash, FileNext(cfg, hash, s, Plain(Accept(w))), between, u)
    requires (forall step :: step in between ==> FileStaysUp(step)) && AllFit(u.pending)
    requires FileEnabled(hash, u, Plain(Drain))
    requires forall x :: x in u.pending ==> |x.key| < 0x1_0000_0000 && |x.entry.value| < 0x1_0000_0000
    requires FileRun(cfg, hash, FileNext(cfg, hash, u, Plain(Drain)), after, t) && MayLoad(Contents(hash, t), from)
    ensures var store := Recovered(Contents(hash, t), from);
            && w.key in store && AsNew(store[w.key].stamp, w.entry.stamp)
            && store[w.key].stamp.version >= w.entry.stamp.version
  {
    hide FilesOk, FileNext, FileEnabled, FileRun, Abs, Recovered, Contents, Next, MayLoad, Inv;
    AcceptIsEnabled(hash, s, w);
    ShortIsAppendable(u);
    NoFilesOk(hash);
    InitOk(cfg);
    var run := RunSimulates(cfg, hash, NO_FILES, before, s);
    RunsKeep(cfg, INIT, run);
    var a := FileNext(cfg, hash, s, Plain(Accept(w)));
    AcceptReachesQueue(cfg, hash, s, w);
    FileStaysQueued(cfg, hash, a, between, u, w);
    var d := FileNext(cfg, hash, u, Plain(Drain));
    FileQueuedStep(cfg, hash, u, Plain(Drain), w);
    if w in u.pending { DrainReachesFile(cfg, hash, u, w); }
    StepSimulates(cfg, hash, u, Plain(Drain));
    FileStaysQueued(cfg, hash, d, after, t, w);
    KeepsInv(cfg, hash, s, Plain(Accept(w)), between, u);
    KeepsInv(cfg, hash, u, Plain(Drain), after, t);
    FileRecovered(cfg, hash, t, from, w);
  }

  lemma AcceptIsEnabled(hash: Wal.Hash, s: FileState, w: Write)
    requires !s.phase.Down?
    requires w.entry.stamp.version < 0x1_0000_0000_0000_0000 && w.entry.stamp.writer < 0x1_0000_0000_0000_0000
    requires w.entry.expiresAt.Some? ==> 0 <= w.entry.expiresAt.value < 0x1_0000_0000_0000_0000
    ensures FileEnabled(hash, s, Plain(Accept(w)))
  {
  }

  lemma ShortIsAppendable(s: FileState)
    requires AllFit(s.pending)
    requires forall x :: x in s.pending ==> |x.key| < 0x1_0000_0000 && |x.entry.value| < 0x1_0000_0000
    ensures Appendable(s)
  {
  }

  lemma AcceptReachesQueue(cfg: Config, hash: Wal.Hash, s: FileState, w: Write)
    requires ValidConfig(cfg) && FilesOk(hash, s) && FileEnabled(hash, s, Plain(Accept(w))) && IsFresh(Abs(hash, s), w)
    ensures var t := FileNext(cfg, hash, s, Plain(Accept(w))); FilesOk(hash, t) && w in t.pending
  {
    PlainSimulates(cfg, hash, s, Accept(w));
    hide FilesOk, Contents, Next;
    AcceptQueues(cfg, Abs(hash, s), w);
  }

  lemma KeepsInv(cfg: Config, hash: Wal.Hash, s: FileState, step: FileStep, more: seq<FileStep>, t: FileState)
    requires ValidConfig(cfg) && FilesOk(hash, s) && Inv(cfg, Abs(hash, s)) && FileEnabled(hash, s, step)
    requires AllFit(s.pending) && FileRun(cfg, hash, FileNext(cfg, hash, s, step), more, t)
    ensures FilesOk(hash, t) && Inv(cfg, Abs(hash, t))
  {
    hide FilesOk, FileNext, FileEnabled, FileRun, Abs, Inv, EnabledSteps, Execute;
    StepSimulates(cfg, hash, s, step);
    RunsKeep(cfg, Abs(hash, s), AsSteps(hash, s, step));
    var run := RunSimulates(cfg, hash, FileNext(cfg, hash, s, step), more, t);
    RunsKeep(cfg, Abs(hash, FileNext(cfg, hash, s, step)), run);
  }

  lemma FileRecovered(cfg: Config, hash: Wal.Hash, t: FileState, from: Option<nat>, w: Write)
    requires ValidConfig(cfg) && Inv(cfg, Abs(hash, t)) && w in t.drained && MayLoad(Contents(hash, t), from)
    ensures var store := Recovered(Contents(hash, t), from);
            && w.key in store && AsNew(store[w.key].stamp, w.entry.stamp)
            && store[w.key].stamp.version >= w.entry.stamp.version
  {
    hide Inv, Contents, Recovered, MayLoad;
    DrainedIsRecovered(cfg, Abs(hash, t), from, w);
  }
}
