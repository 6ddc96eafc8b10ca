/** The hint journal's file: checksummed records appended one by one, and the recovery loop that reads them back. */
module HintJournalImpl {
  import opened Common
  import opened Codec
  import opened Buffers
  import opened HintQueueSpec
  import opened HintQueueImpl
  import opened HintJournalSpec
  import Wal

  type Hash = Bytes -> u64

  const OP_ADD: u8 := 1
  const OP_DEL: u8 := 2

  // ---------------------------------------------------------------- records as bytes

  function Blob(s: Bytes, tail: Bytes): Bytes {
    Le(|s|, 4) + (s + tail)
  }

  function AddTail(e: Essence): Bytes {
    Le(e.version, 8) + (Le(e.writer, 8) + (Le(e.expiryMs, 8) + (Le(if e.tombstone then 1 else 0, 1) + [])))
  }

  function AddPayload(e: Essence, sysExpiryMs: u64): Bytes {
    Le(OP_ADD, 1) + (Le(sysExpiryMs, 8) + Blob(e.target, Blob(e.key, Blob(e.value, AddTail(e)))))
  }

  function DelPayload(target: NodeId, key: Key, version: u64): Bytes {
    Le(OP_DEL, 1) + Blob(target, Blob(key, Le(version, 8) + []))
  }

  function Payload(r: Record): Bytes {
    match r
    case Add(e, expiry) => AddPayload(e, expiry)
    case Del(target, key, version) => DelPayload(target, key, version)
  }

  function Framed(hash: Hash, payload: Bytes): Bytes {
    Le(|payload|, 4) + (Le(hash(payload), 8) + payload)
  }

  function Image(hash: Hash, rs: seq<Record>): Bytes {
    if rs == [] then [] else Framed(hash, Payload(rs[0])) + Image(hash, rs[1..])
  }

  /** Lengths are stored in four bytes. */
  predicate Recordable(r: Record) {
    |Payload(r)| < 0x1_0000_0000
  }

  // ---------------------------------------------------------------- reading a record

  datatype AddEnd = AddEnd(version: u64, writer: u64, expiryMs: u64, tombstone: bool)

  function U64(d: Bytes): Wal.Parsed<u64> {
    match Wal.ReadInt(d, 8)
    case Got(x, rest) =>
      Wal.IntIsRead(d, 8);
      Widths();
      Wal.Got(x, rest)
    case Short(rest) => Wal.Short(rest)
    case Bad(rest) => Wal.Bad(rest)
  }

  /** Records written before delete markers end after the writer; nothing may follow the last field. */
  function ParseAddEnd(d: Bytes): Wal.Parsed<AddEnd> {
    var (version, d) :- U64(d);
    var (writer, d) :- U64(d);
    if d == [] then Wal.Got(AddEnd(version, writer, 0, false), [])
    else
      var (expiryMs, d) :- U64(d);
      var (tombstone, d) :- Wal.ReadInt(d, 1);
      if tombstone > 1 || d != [] then Wal.Bad(d) else Wal.Got(AddEnd(version, writer, expiryMs, tombstone != 0), [])
  }

  function ParseAdd(d: Bytes): Wal.Parsed<Record> {
    var (sysExpiryMs, d) :- U64(d);
    var (target, d) :- Wal.ReadBlob(d);
    var (key, d) :- Wal.ReadBlob(d);
    var (value, d) :- Wal.ReadBlob(d);
    var (x, d) :- ParseAddEnd(d);
    Wal.Got(Add(Essence(target, key, value, x.version, x.writer, x.expiryMs, x.tombstone), sysExpiryMs), d)
  }

  function ParseDel(d: Bytes): Wal.Parsed<Record> {
    var (target, d) :- Wal.ReadBlob(d);
    var (key, d) :- Wal.ReadBlob(d);
    var (version, d) :- U64(d);
    if d != [] then Wal.Bad(d) else Wal.Got(Del(target, key, version), d)
  }

  function ParseRecord(d: Bytes): Option<Record> {
    match Wal.ReadInt(d, 1)
    case Short(_) => None
    case Bad(_) => None
    case Got(op, rest) =>
      var r := if op == OP_ADD then ParseAdd(rest) else if op == OP_DEL then ParseDel(rest) else Wal.Bad(rest);
      if r.Got? then Some(r.value) else None
  }

  /** The next record and where the following one starts; nothing when the file ends or makes no sense. */
  function NextRecord(hash: Hash, d: Bytes): (r: Option<(Record, Bytes)>)
    ensures r.Some? ==> |r.value.1| < |d|
  {
    match Wal.ReadInt(d, 4)
    case Short(_) => None
    case Bad(_) => None
    case Got(n, d) =>
      if n > |d| - 8 then None
      else
        var sum, payload := FromLe(d[..8]), d[8..8 + n];
        if hash(payload) != sum then None
        else
          var r := ParseRecord(payload);
          if r == None then None else Some((r.value, d[8 + n..]))
  }

  /** A record is read only from a payload that is all there and whose checksum is the stored one. */
  lemma ReadIsChecksummed(hash: Hash, d: Bytes)
    requires NextRecord(hash, d).Some?
    ensures |d| >= 12
    ensures var n := FromLe(d[..4]);
            && 12 + n <= |d| && FromLe(d[4..12]) == hash(d[12..12 + n])
            && ParseRecord(d[12..12 + n]) == Some(NextRecord(hash, d).value.0)
            && NextRecord(hash, d).value.1 == d[12 + n..]
  {
    hide FromLe, ParseRecord;
    var rest := d[4..];
    assert rest[..8] == d[4..12];
    var n := FromLe(d[..4]);
    assert rest[8..8 + n] == d[12..12 + n] && rest[8 + n..] == d[12 + n..];
  }

  /** An intent written before there were deadlines and delete markers ends after the writer, and has neither. */
  lemma OldIntentIsRead(e: Essence, sysExpiryMs: u64)
    requires |e.target| < 0x1_0000_0000 && |e.key| < 0x1_0000_0000 && |e.value| < 0x1_0000_0000
    ensures ParseRecord(Le(OP_ADD, 1) + (Le(sysExpiryMs, 8) +
                          Blob(e.target, Blob(e.key, Blob(e.value, Le(e.version, 8) + (Le(e.writer, 8) + []))))))
         == Some(Add(e.(expiryMs := 0, tombstone := false), sysExpiryMs))
  {
    Widths();
    hide Le, U64, Wal.ReadInt, Pow256, Wal.ReadBlob;
    var t4 := Le(e.writer, 8) + [];
    var t3 := Le(e.version, 8) + t4;
    var t2 := Blob(e.value, t3);
    var t1 := Blob(e.key, t2);
    var t0 := Blob(e.target, t1);
    IntIsRead(OP_ADD, 1, Le(sysExpiryMs, 8) + t0);
    U64IsRead(sysExpiryMs, t0);
    BlobIsRead(e.target, t1);
    BlobIsRead(e.key, t2);
    BlobIsRead(e.value, t3);
    U64IsRead(e.version, t4);
    U64IsRead(e.writer, []);
  }

  /** All records up to the first that is not wholly there. */
  function Scan(hash: Hash, d: Bytes): seq<Record>
    decreases |d|
  {
    match NextRecord(hash, d)
    case None => []
    case Some((r, rest)) => [r] + Scan(hash, rest)
  }

  lemma IntIsRead(x: nat, n: nat, more: Bytes)
    requires x < Pow256(n)
    ensures Wal.ReadInt(Le(x, n) + more, n) == Wal.Got(x, more)
  {
    Wal.CutInt(x, n, more, n + |more|);
    var d := Le(x, n) + more;
    assert d[..n + |more|] == d && more[..|more|] == more;
  }

  lemma U64IsRead(x: u64, more: Bytes)
    ensures U64(Le(x, 8) + more) == Wal.Got(x, more)
  {
    Widths();
    IntIsRead(x, 8, more);
  }

  lemma BlobIsRead(s: Bytes, more: Bytes)
    requires |s| < 0x1_0000_0000
    ensures Wal.ReadBlob(Blob(s, more)) == Wal.Got(s, more)
  {
    var d := Blob(s, more);
    Wal.CutBlob(s, more, |d|);
    assert d[..|d|] == d && more[..|more|] == more;
  }

  lemma AddEndIsRead(e: Essence)
    ensures ParseAddEnd(AddTail(e)) == Wal.Got(AddEnd(e.version, e.writer, e.expiryMs, e.tombstone), [])
  {
    Widths();
    hide Le, U64, Wal.ReadInt, Pow256;
    var flag: nat := if e.tombstone then 1 else 0;
    var t3 := Le(flag, 1) + [];
    var t2 := Le(e.expiryMs, 8) + t3;
    var t1 := Le(e.writer, 8) + t2;
    U64IsRead(e.version, t1);
    U64IsRead(e.writer, t2);
    U64IsRead(e.expiryMs, t3);
    IntIsRead(flag, 1, []);
  }

  lemma AddIsRead(e: Essence, sysExpiryMs: u64)
    requires Recordable(Add(e, sysExpiryMs))
    ensures ParseRecord(AddPayload(e, sysExpiryMs)) == Some(Add(e, sysExpiryMs))
  {
    Widths();
    hide Le, U64, Wal.ReadInt, Pow256, Wal.ReadBlob, ParseAddEnd, AddTail;
    var t3 := AddTail(e);
    var t2 := Blob(e.value, t3);
    var t1 := Blob(e.key, t2);
    var t0 := Blob(e.target, t1);
    IntIsRead(OP_ADD, 1, Le(sysExpiryMs, 8) + t0);
    U64IsRead(sysExpiryMs, t0);
    BlobIsRead(e.target, t1);
    BlobIsRead(e.key, t2);
    BlobIsRead(e.value, t3);
    AddEndIsRead(e);
  }

  lemma DelIsRead(target: NodeId, key: Key, version: u64)
    requires Recordable(Del(target, key, version))
    ensures ParseRecord(DelPayload(target, key, version)) == Some(Del(target, key, version))
  {
    Widths();
    hide Le, U64, Wal.ReadInt, Pow256, Wal.ReadBlob;
    var t2 := Le(version, 8) + [];
    var t1 := Blob(key, t2);
    IntIsRead(OP_DEL, 1, Blob(target, t1));
    BlobIsRead(target, t1);
    BlobIsRead(key, t2);
    U64IsRead(version, []);
  }

  lemma RecordIsRead(hash: Hash, r: Record, more: Bytes)
    requires Recordable(r)
    ensures NextRecord(hash, Framed(hash, Payload(r)) + more) == Some((r, more))
  {
    Widths();
    var p := Payload(r);
    match r {
      case Add(e, expiry) => AddIsRead(e, expiry);
      case Del(target, key, version) => DelIsRead(target, key, version);
    }
    hide Le, Pow256, Wal.ReadInt, Payload, ParseRecord, FromLe;
    var sum := Le(hash(p), 8);
    var d := sum + p + more;
    assert Framed(hash, p) + more == Le(|p|, 4) + d;
    IntIsRead(|p|, 4, d);
    LeRoundTrip(hash(p), 8);
    assert d[..8] == sum && d[8..8 + |p|] == p && d[8 + |p|..] == more;
  }

  lemma ScanOne(hash: Hash, r: Record, more: Bytes)
    requires Recordable(r)
    ensures Scan(hash, Framed(hash, Payload(r)) + more) == [r] + Scan(hash, more)
  {
    hide NextRecord, Framed, Payload, Recordable;
    RecordIsRead(hash, r, more);
  }

  lemma ScanNothing(hash: Hash)
    ensures Scan(hash, []) == []
  {
    assert NextRecord(hash, []) == None;
  }

  /** A clean journal reads back every record in order. */
  lemma {:induction false} CleanJournalIsRead(hash: Hash, rs: seq<Record>)
    requires forall i :: 0 <= i < |rs| ==> Recordable(rs[i])
    ensures Scan(hash, Image(hash, rs)) == rs
  {
    hide Scan, Framed, Payload, Recordable;
    if rs == [] {
      ScanNothing(hash);
    } else {
      ScanOne(hash, rs[0], Image(hash, rs[1..]));
      CleanJournalIsRead(hash, rs[1..]);
    }
  }

  // ---------------------------------------------------------------- writing

  method WriteBlob(w: BufferWriter, s: Bytes)
    requires w.Valid() && w.offset + 4 + |s| <= w.buf.Length
    modifies w, w.buf
    ensures w.Valid() && w.offset == old(w.offset) + 4 + |s|
    ensures w.Written() == old(w.Written()) + Blob(s, [])
  {
    hide Le, w.Written;
    w.WriteLe(|s|, 4);
    w.WriteBytes(s);
  }

  lemma AddFlattened(e: Essence, expiry: u64)
    ensures [] + Le(OP_ADD, 1) + Le(expiry, 8) + Blob(e.target, []) + Blob(e.key, []) + Blob(e.value, [])
              + Le(e.version, 8) + Le(e.writer, 8) + Le(e.expiryMs, 8) + Le(if e.tombstone then 1 else 0, 1)
         == AddPayload(e, expiry)
  {
    hide Le;
  }

  lemma DelFlattened(target: NodeId, key: Key, version: u64)
    ensures [] + Le(OP_DEL, 1) + Blob(target, []) + Blob(key, []) + Le(version, 8) == DelPayload(target, key, version)
  {
    hide Le;
  }

  /** The buffer is over-sized, then cut back to what was written. */
  method EncodeAdd(hint: Hint, expiry: u64) returns (payload: Bytes)
    ensures payload == AddPayload(EssenceOf(hint), expiry)
  {
    var e := EssenceOf(hint);
    var buf := new u8[|hint.target| + |hint.req.key| + |hint.req.value| + 64 + 8 + 1](_ => 0);
    var w := new BufferWriter(buf);
    AddFlattened(e, expiry);
    assert w.Written() == [];
    hide Le, AddPayload, Blob, w.Written, EssenceOf;
    w.WriteLe(OP_ADD, 1);
    w.WriteLe(expiry, 8);
    WriteBlob(w, e.target);
    WriteBlob(w, e.key);
    WriteBlob(w, e.value);
    w.WriteLe(e.version, 8);
    w.WriteLe(e.writer, 8);
    w.WriteLe(e.expiryMs, 8);
    w.WriteLe(if e.tombstone then 1 else 0, 1);
    payload := Cut(w);
  }

  method Cut(w: BufferWriter) returns (payload: Bytes)
    requires w.Valid()
    ensures payload == w.Written()
  {
    payload := w.buf[..w.offset];
  }

  method EncodeDel(target: NodeId, key: Key, version: u64) returns (payload: Bytes)
    ensures payload == DelPayload(target, key, version)
  {
    var buf := new u8[|target| + |key| + 32](_ => 0);
    var w := new BufferWriter(buf);
    DelFlattened(target, key, version);
    assert w.Written() == [];
    hide Le, DelPayload, Blob, w.Written;
    w.WriteLe(OP_DEL, 1);
    WriteBlob(w, target);
    WriteBlob(w, key);
    w.WriteLe(version, 8);
    payload := Cut(w);
  }

  lemma {:induction false} ImageSnoc(hash: Hash, rs: seq<Record>, r: Record)
    ensures Image(hash, rs + [r]) == Image(hash, rs) + Framed(hash, Payload(r))
  {
    if rs == [] {
      assert Image(hash, [r][1..]) == [];
      assert rs + [r] == [r];
    } else {
      assert (rs + [r])[1..] == rs[1..] + [r];
      ImageSnoc(hash, rs[1..], r);
      hide Framed, Payload;
      Wal.Regroup(Framed(hash, Payload(rs[0])), Image(hash, rs[1..]), Framed(hash, Payload(r)));
    }
  }

  /** The journal of a running node, with its file at the end of which records are appended. */
  class HintJournal {
    const hash: Hash
    var file: Bytes
    ghost var records: seq<Record>

    ghost predicate Valid()
      reads this
    {
      file == Image(hash, records)
    }

    constructor (hash: Hash)
      ensures this.hash == hash && Valid() && records == []
    {
      this.hash, file, records := hash, [], [];
    }

    method WriteRecord(payload: Bytes, ghost r: Record)
      requires Valid() && payload == Payload(r)
      modifies this
      ensures Valid() && records == old(records) + [r]
    {
      hide Image, Payload, Le;
      ImageSnoc(hash, records, r);
      file := file + (Le(|payload|, 4) + (Le(hash(payload), 8) + payload));
      records := records + [r];
    }

    method AppendAdd(hint: Hint, expiry: u64)
      requires Valid()
      modifies this
      ensures Valid() && records == old(records) + [Add(EssenceOf(hint), expiry)]
    {
      var payload := EncodeAdd(hint, expiry);
      WriteRecord(payload, Add(EssenceOf(hint), expiry));
    }

    method AppendDel(target: NodeId, key: Key, version: u64)
      requires Valid()
      modifies this
      ensures Valid() && records == old(records) + [Del(target, key, version)]
    {
      var payload := EncodeDel(target, key, version);
      WriteRecord(payload, Del(target, key, version));
    }
  }

  // ---------------------------------------------------------------- recovery

  /** One record into the queue. */
  method ApplyRecord(r: Record, queue: HintQueue, nowMs: nat, deadline: int) returns (ghost handle: Handle)
    requires queue.Valid()
    modifies queue, queue.slots
    ensures queue.Valid() && queue.Model() == Apply(old(queue.Model()), r, nowMs, deadline, handle)
  {
    hide queue.Valid, queue.Model, Push, RemoveVersion;
    handle := Handle(0, 0);
    match r {
      case Add(e, expiry) =>
        if expiry > nowMs {
          var ok; ghost var given;
          ok, given := queue.Push(Revived(e, deadline));
          handle := given;
        }
      case Del(target, key, version) =>
        queue.RemoveVersion(target, key, version);
    }
  }

  /** Length, checksum, payload; a length that runs past the end of the file stops the scan. */
  method ReadRecord(hash: Hash, input: BufferReader) returns (r: Option<Record>)
    requires input.Valid()
    modifies input
    ensures input.Valid()
    ensures match NextRecord(hash, old(input.Rest()))
            case None => r == None
            case Some((rec, rest)) => r == Some(rec) && input.Rest() == rest
  {
    hide input.Rest, ParseRecord, FromLe;
    ghost var d := input.Rest();
    var n := input.ReadLe(4);
    if n == None { return None; }
    RestSize(input);
    if n.value > |input.data| - input.pos - 8 { return None; }
    var sum := input.ReadLe(8);
    var payload := input.ReadBytes(n.value);
    ghost var d4 := d[4..];
    assert d4[8..][..n.value] == d4[8..8 + n.value] && d4[8..][n.value..] == d4[8 + n.value..];
    if hash(payload.value) != sum.value { return None; }
    r := ParseRecord(payload.value);
  }

  lemma RestSize(input: BufferReader)
    requires input.Valid()
    ensures |input.Rest()| == |input.data| - input.pos
  {
  }

  /** Part-way through recovery: `done` has been applied, `rest` is still to be read. */
  ghost predicate Recovering(hash: Hash, file: Bytes, done: seq<Record>, rest: Bytes) {
    Scan(hash, file) == done + Scan(hash, rest)
  }

  lemma RecoverOne(hash: Hash, file: Bytes, done: seq<Record>, rest: Bytes)
    requires Recovering(hash, file, done, rest)
    ensures match NextRecord(hash, rest)
            case None => Scan(hash, file) == done
            case Some((r, more)) => Recovering(hash, file, done + [r], more)
  {
    hide NextRecord;
    match NextRecord(hash, rest)
    case None => assert done + [] == done;
    case Some((r, more)) => assert done + ([r] + Scan(hash, more)) == done + [r] + Scan(hash, more);
  }

  /** Recovery: read records until the file ends or stops making sense, and apply each to the queue. */
  method Recover(hash: Hash, file: Bytes, queue: HintQueue, nowMs: nat, deadline: int)
    requires queue.Valid() && queue.Model().live == []
    modifies queue, queue.slots
    ensures queue.Valid()
    ensures Similar(queue.Model(), Replay(Scan(hash, file), old(queue.Model()).maxBytes, nowMs, deadline))
  {
    hide queue.Valid, queue.Model, Scan, NextRecord, Similar, Replay, Apply;
    ghost var maxBytes := queue.Model().maxBytes;
    var input := new BufferReader(file, 0);
    ghost var done: seq<Record> := [];
    Starting(hash, file, queue.Model(), input.Rest(), nowMs, deadline);
    var more := true;
    while more
      invariant queue.Valid() && input.Valid() && fresh(input)
      invariant Similar(queue.Model(), Replay(done, maxBytes, nowMs, deadline))
      invariant more ==> Recovering(hash, file, done, input.Rest())
      invariant !more ==> Scan(hash, file) == done
      decreases more, |input.Rest()|
    {
      ghost var rest := input.Rest();
      RecoverOne(hash, file, done, rest);
      Shrinks(hash, rest);
      var r := ReadRecord(hash, input);
      if r == None {
        more := false;
      } else {
        ghost var before := queue.Model();
        ghost var handle := ApplyRecord(r.value, queue, nowMs, deadline);
        ReplaySnoc(done, r.value, maxBytes, nowMs, deadline);
        SimilarApply(before, Replay(done, maxBytes, nowMs, deadline), r.value, nowMs, deadline, deadline, handle,
                     Handle(|done| + 1, 0));
        done := done + [r.value];
      }
    }
  }

  lemma Shrinks(hash: Hash, rest: Bytes)
    ensures match NextRecord(hash, rest) case None => true case Some((_, more)) => |more| < |rest|
  {
  }

  lemma Starting(hash: Hash, file: Bytes, q: Queue, rest: Bytes, nowMs: nat, deadline: int)
    requires q.live == [] && rest == file[0..]
    ensures Recovering(hash, file, [], rest) && Similar(q, Replay([], q.maxBytes, nowMs, deadline))
  {
    assert rest == file;
  }

  /** The file written by any allowed run rebuilds the queue: what recovery reads back replays to the same hints. */
  lemma FileRebuildsQueue(hash: Hash, maxBytes: nat, ops: seq<JournalOp>, nowMs: nat, deadline: int)
    requires AllowedRun(Journaled(Queue([], map[], maxBytes, 0), []), ops)
    requires var s := DoAll(Journaled(Queue([], map[], maxBytes, 0), []), ops);
             Unexpired(s.records, nowMs) && forall i :: 0 <= i < |s.records| ==> Recordable(s.records[i])
    ensures var s := DoAll(Journaled(Queue([], map[], maxBytes, 0), []), ops);
            SameHints(s.queue.live, Replay(Scan(hash, Image(hash, s.records)), s.queue.maxBytes, nowMs, deadline).live)
  {
    var s := DoAll(Journaled(Queue([], map[], maxBytes, 0), []), ops);
    JournalRebuildsQueue(maxBytes, ops, nowMs, deadline);
    CleanJournalIsRead(hash, s.records);
  }
}
