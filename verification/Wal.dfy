/**
 The write-ahead log file: record layout, torn-tail detection, healing and appending. The record
 checksum is any function of the record's bytes, passed in as `hash`.
 */
module Wal {
  import opened Common
  import opened Codec

  type Hash = Bytes -> u64

  datatype Op = Set | Del

  datatype WalEntry = WalEntry(op: Op, key: Bytes, value: Bytes, version: u64, writer: u64,
                               expiresAtMs: u64, hasTtl: bool, tombstone: bool)

  const MAGIC: u32 := 0x57414C30
  const FORMAT_VERSION: u32 := 2

  datatype Format = Legacy | V1 | V2

  function ParseFormat(v: nat): Option<Format> {
    if v == 1 then Some(V1) else if v == 2 then Some(V2) else None
  }

  predicate HasTombstone(f: Format) {
    f == V2
  }

  // ---------------------------------------------------------------- record layout

  function OpCode(op: Op): u8 {
    if op == Set then 1 else 2
  }

  function Flag(b: bool): u8 {
    if b then 1 else 0
  }

  /** Lengths are stored in four bytes; longer entries are refused. */
  predicate Storable(e: WalEntry) {
    |e.key| < 0x1_0000_0000 && |e.value| < 0x1_0000_0000
  }

  /** The record's fields in order, followed by `tail`. */
  function Encoded(e: WalEntry, tail: Bytes): Bytes {
    Le(OpCode(e.op), 1) + (Le(|e.key|, 4) + (e.key + (Le(|e.value|, 4) + (e.value + Stamped(e, tail)))))
  }

  function Stamped(e: WalEntry, tail: Bytes): Bytes {
    Le(e.version, 8) + (Le(e.writer, 8) + (Le(e.expiresAtMs, 8) +
      (Le(Flag(e.hasTtl), 1) + (Le(Flag(e.tombstone), 1) + tail))))
  }

  function Body(e: WalEntry): Bytes {
    Encoded(e, [])
  }

  function Record(hash: Hash, e: WalEntry): Bytes {
    Body(e) + Le(hash(Body(e)), 8)
  }

  function RecordSize(e: WalEntry): nat {
    1 + 4 + |e.key| + 4 + |e.value| + 8 + 8 + 8 + 1 + 1 + 8
  }

  function Records(hash: Hash, es: seq<WalEntry>): Bytes {
    if es == [] then [] else Record(hash, es[0]) + Records(hash, es[1..])
  }

  function Header(): Bytes {
    Le(MAGIC, 4) + Le(FORMAT_VERSION, 4)
  }

  /** A log file with these entries. */
  function Image(hash: Hash, es: seq<WalEntry>): Bytes {
    Header() + Records(hash, es)
  }

  // ---------------------------------------------------------------- reading

  /** A read that got its value, ran out of bytes, or met a byte no writer produces; `rest` is unread. */
  datatype Parsed<+T> = Got(value: T, rest: Bytes) | Short(rest: Bytes) | Bad(rest: Bytes) {
    predicate IsFailure() { !Got? }
    function PropagateFailure<U>(): Parsed<U> requires !Got? { if Short? then Short(rest) else Bad(rest) }
    function Extract(): (T, Bytes) requires Got? { (value, rest) }
  }

  function ReadInt(d: Bytes, n: nat): (r: Parsed<nat>)
    ensures !r.Bad?
  {
    if n > |d| then Short(d) else Got(FromLe(d[..n]), d[n..])
  }

  function ReadString(d: Bytes, n: nat): Parsed<Bytes> {
    if n > |d| then Short(d) else Got(d[..n], d[n..])
  }

  /** The fields as read, flag bytes raw. */
  datatype Fields = Fields(op: nat, key: Bytes, value: Bytes, stamp: StampFields)
  datatype StampFields = StampFields(version: nat, writer: nat, expiresAtMs: nat, hasTtl: nat, tombstone: nat)

  function StampOf(e: WalEntry): StampFields {
    StampFields(e.version, e.writer, e.expiresAtMs, Flag(e.hasTtl), Flag(e.tombstone))
  }

  function FieldsOf(e: WalEntry): Fields {
    Fields(OpCode(e.op), e.key, e.value, StampOf(e))
  }

  function ReadBlob(d: Bytes): (r: Parsed<Bytes>)
    ensures !r.Bad?
  {
    var (n, d) :- ReadInt(d, 4);
    ReadString(d, n)
  }

  function ReadStamp(d: Bytes, f: Format): Parsed<StampFields> {
    var (version, d) :- ReadInt(d, 8);
    var (writer, d) :- ReadInt(d, 8);
    var (expiresAtMs, d) :- ReadInt(d, 8);
    var (hasTtl, d) :- ReadInt(d, 1);
    if HasTombstone(f) then
      var (tombstone, d) :- ReadInt(d, 1);
      if tombstone > 1 then Bad(d) else Got(StampFields(version, writer, expiresAtMs, hasTtl, tombstone), d)
    else
      Got(StampFields(version, writer, expiresAtMs, hasTtl, 0), d)
  }

  function ReadFields(d: Bytes, f: Format): Parsed<Fields> {
    var (op, d) :- ReadInt(d, 1);
    if op != 1 && op != 2 then Bad(d) else
    var (key, d) :- ReadBlob(d);
    var (value, d) :- ReadBlob(d);
    var (stamp, d) :- ReadStamp(d, f);
    Got(Fields(op, key, value, stamp), d)
  }

  /** The fields put back into bytes, followed by `tail`; the checksum is recomputed over these. */
  function RawEncoded(x: Fields, f: Format, tail: Bytes): Bytes {
    Le(x.op, 1) + (Le(|x.key|, 4) + (x.key + (Le(|x.value|, 4) + (x.value + RawStamped(x.stamp, f, tail)))))
  }

  function RawStamped(x: StampFields, f: Format, tail: Bytes): Bytes {
    Le(x.version, 8) + (Le(x.writer, 8) + (Le(x.expiresAtMs, 8) + (Le(x.hasTtl, 1) +
      (if HasTombstone(f) then Le(x.tombstone, 1) + tail else tail))))
  }

  predicate InRange(x: Fields) {
    x.stamp.version < Pow256(8) && x.stamp.writer < Pow256(8) && x.stamp.expiresAtMs < Pow256(8)
  }

  function ToEntry(x: Fields): WalEntry
    requires InRange(x)
  {
    Widths();
    WalEntry(if x.op == 1 then Set else Del, x.key, x.value, x.stamp.version, x.stamp.writer, x.stamp.expiresAtMs,
             x.stamp.hasTtl != 0, x.stamp.tombstone != 0)
  }

  // ---------------------------------------------------------------- reading back a cut file

  /** Reading one field from a cut of `field + more`: all of it, or not enough bytes. */
  lemma CutField(field: Bytes, more: Bytes, cut: nat)
    requires cut <= |field| + |more|
    ensures var d := (field + more)[..cut];
            if cut < |field| then ReadString(d, |field|) == Short(d)
            else ReadString(d, |field|) == Got(field, more[..cut - |field|])
  {
    var d := (field + more)[..cut];
    if cut >= |field| {
      assert d[..|field|] == field;
      assert d[|field|..] == more[..cut - |field|];
    }
  }

  lemma CutInt(x: nat, n: nat, more: Bytes, cut: nat)
    requires cut <= n + |more| && x < Pow256(n)
    ensures var d := (Le(x, n) + more)[..cut];
            if cut < n then ReadInt(d, n) == Short(d) else ReadInt(d, n) == Got(x, more[..cut - n])
  {
    CutField(Le(x, n), more, cut);
    LeRoundTrip(x, n);
  }

  lemma CutBlob(blob: Bytes, more: Bytes, cut: nat)
    requires |blob| < 0x1_0000_0000 && cut <= 4 + |blob| + |more|
    ensures var d := (Le(|blob|, 4) + (blob + more))[..cut];
            if cut < 4 + |blob| then ReadBlob(d).Short?
            else ReadBlob(d) == Got(blob, more[..cut - 4 - |blob|])
  {
    Widths();
    hide Le, FromLe, Pow256;
    CutInt(|blob|, 4, blob + more, cut);
    if cut >= 4 { CutField(blob, more, cut - 4); }
  }

  lemma CutStamp(e: WalEntry, tail: Bytes, cut: nat)
    requires cut <= 26 + |tail|
    ensures |Stamped(e, tail)| == 26 + |tail|
    ensures var d := Stamped(e, tail)[..cut];
            if cut < 26 then ReadStamp(d, V2).Short?
            else ReadStamp(d, V2) == Got(StampOf(e), tail[..cut - 26])
  {
    Widths();
    hide Le, FromLe, Pow256, ReadInt;
    var s5 := Le(Flag(e.tombstone), 1) + tail;
    var s4 := Le(Flag(e.hasTtl), 1) + s5;
    var s3 := Le(e.expiresAtMs, 8) + s4;
    var s2 := Le(e.writer, 8) + s3;
    CutInt(e.version, 8, s2, cut);
    if cut >= 8 { CutInt(e.writer, 8, s3, cut - 8); }
    if cut >= 16 { CutInt(e.expiresAtMs, 8, s4, cut - 16); }
    if cut >= 24 { CutInt(Flag(e.hasTtl), 1, s5, cut - 24); }
    if cut >= 25 { CutInt(Flag(e.tombstone), 1, tail, cut - 25); }
  }

  /** A cut record reads back in full or runs short; it is never taken for garbage. */
  lemma CutFields(e: WalEntry, tail: Bytes, cut: nat)
    requires Storable(e) && cut <= RecordSize(e) - 8 + |tail|
    ensures |Encoded(e, tail)| == RecordSize(e) - 8 + |tail|
    ensures var d := Encoded(e, tail)[..cut];
            if cut < RecordSize(e) - 8 then ReadFields(d, V2).Short?
            else ReadFields(d, V2) == Got(FieldsOf(e), tail[..cut - (RecordSize(e) - 8)])
  {
    Widths();
    hide Le, FromLe, Pow256, ReadInt, ReadBlob, ReadStamp, Stamped;
    var s3 := Stamped(e, tail);
    CutStamp(e, tail, 0);
    var s2 := Le(|e.value|, 4) + (e.value + s3);
    var s1 := Le(|e.key|, 4) + (e.key + s2);
    CutInt(OpCode(e.op), 1, s1, cut);
    if cut >= 1 { CutBlob(e.key, s2, cut - 1); }
    var k := 5 + |e.key|;
    if cut >= k { CutBlob(e.value, s3, cut - k); }
    if cut >= k + 4 + |e.value| { CutStamp(e, tail, cut - k - 4 - |e.value|); }
  }

  // ---------------------------------------------------------------- what was read is what was there

  lemma IntIsRead(d: Bytes, n: nat)
    requires ReadInt(d, n).Got?
    ensures d == Le(ReadInt(d, n).value, n) + ReadInt(d, n).rest
    ensures ReadInt(d, n).value < Pow256(n)
  {
    hide Le, FromLe, Pow256;
    assert d == d[..n] + d[n..];
    LeInverse(d[..n]);
  }

  lemma BlobIsRead(d: Bytes)
    requires ReadBlob(d).Got?
    ensures d == Le(|ReadBlob(d).value|, 4) + (ReadBlob(d).value + ReadBlob(d).rest)
  {
    IntIsRead(d, 4);
  }

  lemma StampIsRead(d: Bytes, f: Format)
    requires ReadStamp(d, f).Got?
    ensures d == RawStamped(ReadStamp(d, f).value, f, ReadStamp(d, f).rest)
    ensures var x := ReadStamp(d, f).value;
            x.version < Pow256(8) && x.writer < Pow256(8) && x.expiresAtMs < Pow256(8)
  {
    hide ReadInt, Le, Pow256;
    IntIsRead(d, 8);
    var d1 := ReadInt(d, 8).rest;
    IntIsRead(d1, 8);
    var d2 := ReadInt(d1, 8).rest;
    IntIsRead(d2, 8);
    var d3 := ReadInt(d2, 8).rest;
    IntIsRead(d3, 1);
    if HasTombstone(f) { IntIsRead(ReadInt(d3, 1).rest, 1); }
  }

  /** Whatever bytes are read, putting the fields back gives exactly those bytes. */
  lemma FieldsAreRead(d: Bytes, f: Format)
    requires ReadFields(d, f).Got?
    ensures d == RawEncoded(ReadFields(d, f).value, f, ReadFields(d, f).rest)
    ensures InRange(ReadFields(d, f).value)
  {
    hide ReadInt, ReadBlob, ReadStamp, RawStamped, Le, Pow256;
    IntIsRead(d, 1);
    var d1 := ReadInt(d, 1).rest;
    BlobIsRead(d1);
    var d2 := ReadBlob(d1).rest;
    BlobIsRead(d2);
    StampIsRead(ReadBlob(d2).rest, f);
  }

  lemma RawStampedTail(x: StampFields, f: Format, tail: Bytes)
    ensures RawStamped(x, f, tail) == RawStamped(x, f, []) + tail
  {
    hide Le;
    var e := if HasTombstone(f) then Le(x.tombstone, 1) else [];
    var d := Le(x.hasTtl, 1) + e;
    var c := Le(x.expiresAtMs, 8) + d;
    var b := Le(x.writer, 8) + c;
    assert RawStamped(x, f, []) == Le(x.version, 8) + b;
    assert RawStamped(x, f, tail)
        == Le(x.version, 8) + (Le(x.writer, 8) + (Le(x.expiresAtMs, 8) + (Le(x.hasTtl, 1) + (e + tail))));
  }

  lemma RawTail(x: Fields, f: Format, tail: Bytes)
    ensures RawEncoded(x, f, tail) == RawEncoded(x, f, []) + tail
  {
    RawStampedTail(x.stamp, f, tail);
    hide Le, RawStamped;
    var st := RawStamped(x.stamp, f, []);
    var c := x.value + st;
    var b := Le(|x.value|, 4) + c;
    var a := x.key + b;
    assert RawEncoded(x, f, []) == Le(x.op, 1) + (Le(|x.key|, 4) + a);
    assert x.value + (st + tail) == c + tail;
    assert Le(|x.value|, 4) + (c + tail) == b + tail;
    assert x.key + (b + tail) == a + tail;
  }

  // ---------------------------------------------------------------- one record, and the whole file

  datatype Outcome = Entry(entry: WalEntry, rest: Bytes) | Torn(rest: Bytes) | Corrupt(rest: Bytes)

  /** Decode the next record; a short read is a torn tail, anything inconsistent is corruption. */
  function NextRecord(hash: Hash, d: Bytes, f: Format): (r: Outcome)
    ensures r.Entry? ==> |r.rest| < |d|
  {
    match ReadFields(d, f)
    case Short(rest) => Torn(rest)
    case Bad(rest) => Corrupt(rest)
    case Got(x, rest) =>
      FieldsAreRead(d, f);
      RawTail(x, f, rest);
      if f == Legacy then Entry(ToEntry(x), rest)
      else
        match ReadInt(rest, 8)
        case Short(rest) => Torn(rest)
        case Bad(rest) => Corrupt(rest)
        case Got(sum, rest) => if hash(RawEncoded(x, f, [])) == sum then Entry(ToEntry(x), rest) else Corrupt(rest)
  }

  /** No record is accepted whose stored checksum is not that of the very bytes it was read from. */
  lemma AcceptedIsChecksummed(hash: Hash, d: Bytes, f: Format)
    requires f != Legacy && NextRecord(hash, d, f).Entry?
    ensures exists n ::
              0 <= n && n + 8 <= |d| && FromLe(d[n..n + 8]) == hash(d[..n])
              && NextRecord(hash, d, f).rest == d[n + 8..]
  {
    hide ReadFields, RawEncoded, FromLe, ToEntry;
    var x, rest := ReadFields(d, f).value, ReadFields(d, f).rest;
    FieldsAreRead(d, f);
    RawTail(x, f, rest);
    var body := RawEncoded(x, f, []);
    var n := |body|;
    assert d[..n] == body && d[n..n + 8] == rest[..8] && d[n + 8..] == rest[8..];
  }

  /** Bytes no writer produces are corruption: an unknown operation at the start of a record. */
  lemma UnknownOpIsCorrupt(hash: Hash, d: Bytes, f: Format)
    requires d != [] && d[0] != 1 && d[0] != 2
    ensures NextRecord(hash, d, f).Corrupt?
  {
    assert d[..1] == [d[0]] && FromLe([d[0]]) == d[0];
  }

  /** A whole record whose checksum is not its bytes' own. */
  lemma BadChecksumIsCorrupt(hash: Hash, e: WalEntry, sum: u64, more: Bytes)
    requires Storable(e) && sum != hash(Body(e))
    ensures NextRecord(hash, Body(e) + (Le(sum, 8) + more), V2).Corrupt?
  {
    hide Le, FromLe, ReadFields, Body, RawEncoded, Pow256, ReadInt, FieldsOf, ToEntry;
    BodyReads(e, Le(sum, 8) + more);
    Widths();
    IntBack(sum, 8, more);
  }

  lemma BodyReads(e: WalEntry, tail: Bytes)
    requires Storable(e)
    ensures ReadFields(Body(e) + tail, V2) == Got(FieldsOf(e), tail) && RawEncoded(FieldsOf(e), V2, []) == Body(e)
  {
    BodyIsRaw(e, tail);
    BodyIsRaw(e, []);
    hide RawEncoded, FieldsOf, Encoded, ReadFields, RecordSize;
    RawTail(FieldsOf(e), V2, tail);
    AtLeastEight(e);
    CutFields(e, tail, RecordSize(e) - 8 + |tail|);
    var d := Encoded(e, tail);
    assert d[..|d|] == d && tail[..|tail|] == tail;
  }

  lemma BodyIsRaw(e: WalEntry, tail: Bytes)
    ensures RawEncoded(FieldsOf(e), V2, tail) == Encoded(e, tail)
  {
    hide Le;
  }

  /** A delete marker that is neither set nor clear. */
  lemma BadMarkerIsCorrupt(hash: Hash, e: WalEntry, marker: u8, more: Bytes)
    requires LegacyEntry(e) && marker > 1
    ensures NextRecord(hash, OldEncoded(e, [marker] + more), V2).Corrupt?
  {
    Widths();
    hide Le, FromLe, Pow256, ReadInt, ReadBlob, ReadStamp;
    var tail := [marker] + more;
    var s3 := Le(e.version, 8) + (Le(e.writer, 8) + (Le(e.expiresAtMs, 8) + (Le(Flag(e.hasTtl), 1) + tail)));
    var s2 := Le(|e.value|, 4) + (e.value + s3);
    IntBack(OpCode(e.op), 1, Le(|e.key|, 4) + (e.key + s2));
    BlobBack(e.key, s2);
    BlobBack(e.value, s3);
    BadMarkerInStamp(e, marker, more);
  }

  lemma BadMarkerInStamp(e: WalEntry, marker: u8, more: Bytes)
    requires marker > 1
    ensures ReadStamp(Le(e.version, 8) + (Le(e.writer, 8) + (Le(e.expiresAtMs, 8) +
                        (Le(Flag(e.hasTtl), 1) + ([marker] + more)))), V2).Bad?
  {
    Widths();
    var tail := [marker] + more;
    assert Le(marker, 1) == [marker];
    hide Le, FromLe, Pow256, ReadInt;
    var s6 := Le(Flag(e.hasTtl), 1) + tail;
    var s5 := Le(e.expiresAtMs, 8) + s6;
    var s4 := Le(e.writer, 8) + s5;
    IntBack(e.version, 8, s4);
    IntBack(e.writer, 8, s5);
    IntBack(e.expiresAtMs, 8, s6);
    IntBack(Flag(e.hasTtl), 1, tail);
    IntBack(marker, 1, more);
  }

  /** Records decoded, whether corruption was flagged, and how far the last good record reaches. */
  datatype Replayed = Replayed(entries: seq<WalEntry>, corrupted: bool, valid: nat)

  function ReplayFrom(hash: Hash, d: Bytes, f: Format): Replayed
    decreases |d|
  {
    if d == [] then Replayed([], false, 0)
    else
      match NextRecord(hash, d, f)
      case Torn(_) => Replayed([], false, 0)
      case Corrupt(_) => Replayed([], true, 0)
      case Entry(e, rest) =>
        var r := ReplayFrom(hash, rest, f);
        Replayed([e] + r.entries, r.corrupted, |d| - |rest| + r.valid)
  }

  /** The format announced by the header and where records start; a file without one is legacy from byte 0. */
  function Open(data: Bytes): (Format, nat) {
    if |data| >= 8 && FromLe(data[..4]) == MAGIC && ParseFormat(FromLe(data[4..8])).Some?
    then (ParseFormat(FromLe(data[4..8])).value, 8)
    else (Legacy, 0)
  }

  function Replay(hash: Hash, data: Bytes): Replayed {
    var (f, start) := Open(data);
    var r := ReplayFrom(hash, if start <= |data| then data[start..] else [], f);
    r.(valid := if r.entries == [] then 0 else start + r.valid)
  }

  function SizeOf(es: seq<WalEntry>): nat {
    if es == [] then 0 else RecordSize(es[0]) + SizeOf(es[1..])
  }

  ghost predicate AllStorable(es: seq<WalEntry>) {
    forall i :: 0 <= i < |es| ==> Storable(es[i])
  }

  /** How many leading records lie wholly within `room` bytes. */
  function Whole(es: seq<WalEntry>, room: nat): (k: nat)
    ensures k <= |es|
    ensures SizeOf(es[..k]) <= room
    ensures k < |es| ==> SizeOf(es[..k + 1]) > room
  {
    if es == [] then 0
    else if RecordSize(es[0]) > room then assert es[..1][1..] == []; 0
    else
      var k := Whole(es[1..], room - RecordSize(es[0]));
      assert es[..k + 1][1..] == es[1..][..k];
      assert k + 1 < |es| ==> es[..k + 2][1..] == es[1..][..k + 1];
      k + 1
  }

  lemma RecordTail(hash: Hash, e: WalEntry, more: Bytes)
    requires Storable(e)
    ensures Record(hash, e) + more == Encoded(e, Le(hash(Body(e)), 8) + more)
    ensures |Record(hash, e)| == RecordSize(e)
    ensures RawEncoded(FieldsOf(e), V2, []) == Body(e)
  {
    RawTail(FieldsOf(e), V2, Le(hash(Body(e)), 8) + more);
    CutFields(e, [], 0);
    var sum := Le(hash(Body(e)), 8);
    assert RawEncoded(FieldsOf(e), V2, sum + more) == Encoded(e, sum + more);
    hide Le, RawEncoded, Encoded;
    assert Body(e) + sum + more == Body(e) + (sum + more);
  }

  lemma ToEntryOf(e: WalEntry)
    ensures InRange(FieldsOf(e)) && ToEntry(FieldsOf(e)) == e
  {
    Widths();
  }

  lemma AtLeastEight(e: WalEntry)
    ensures RecordSize(e) >= 8
  {
  }

  /** One record, cut anywhere, followed by more: decoded if whole, torn otherwise, never corrupt. */
  lemma CutRecord(hash: Hash, e: WalEntry, more: Bytes, room: nat)
    requires Storable(e) && room <= RecordSize(e) + |more|
    ensures var d := (Record(hash, e) + more)[..room];
            |Record(hash, e)| == RecordSize(e)
            && if room < RecordSize(e) then NextRecord(hash, d, V2).Torn?
               else NextRecord(hash, d, V2) == Entry(e, more[..room - RecordSize(e)])
  {
    hide Le, FromLe, ReadFields, Encoded, RawEncoded, Record, Body, Pow256, ReadInt, RecordSize, FieldsOf, ToEntry;
    RecordTail(hash, e, more);
    ToEntryOf(e);
    Widths();
    AtLeastEight(e);
    var sum := hash(Body(e));
    CutFields(e, Le(sum, 8) + more, room);
    if room >= RecordSize(e) - 8 { CutInt(sum, 8, more, room - (RecordSize(e) - 8)); }
  }

  lemma {:induction false} RecordsSize(hash: Hash, es: seq<WalEntry>)
    requires AllStorable(es)
    ensures |Records(hash, es)| == SizeOf(es)
  {
    hide Record, RecordSize;
    if es == [] {
    } else {
      RecordsSize(hash, es[1..]);
      RecordTail(hash, es[0], []);
    }
  }

  /** The records that lie wholly within `room` bytes, read off a log cut there. */
  function Kept(es: seq<WalEntry>, room: nat): Replayed {
    var k := Whole(es, room);
    Replayed(es[..k], false, SizeOf(es[..k]))
  }

  lemma KeptStep(es: seq<WalEntry>, room: nat)
    requires es != []
    ensures Kept(es, room) ==
            if RecordSize(es[0]) > room then Replayed([], false, 0)
            else
              var rest := Kept(es[1..], room - RecordSize(es[0]));
              Replayed([es[0]] + rest.entries, rest.corrupted, RecordSize(es[0]) + rest.valid)
  {
    hide RecordSize;
    if RecordSize(es[0]) <= room {
      var k := Whole(es, room);
      assert es[..k] == [es[0]] + es[1..][..k - 1];
      assert es[..k][1..] == es[1..][..k - 1];
    }
  }

  lemma NothingReplayed(hash: Hash)
    ensures ReplayFrom(hash, [], V2) == Replayed([], false, 0) == Kept([], 0)
  {
  }

  lemma CutFirst(hash: Hash, e: WalEntry, more: Bytes, room: nat)
    requires Storable(e) && room < RecordSize(e)
    ensures |Record(hash, e)| == RecordSize(e)
    ensures ReplayFrom(hash, (Record(hash, e) + more)[..room], V2) == Replayed([], false, 0)
  {
    RecordTail(hash, e, more);
    CutRecord(hash, e, more, room);
    hide Record, NextRecord, RecordSize;
  }

  lemma CutCons(hash: Hash, e: WalEntry, more: Bytes, room: nat, rest: Replayed)
    requires Storable(e) && RecordSize(e) <= room <= RecordSize(e) + |more|
    requires ReplayFrom(hash, more[..room - RecordSize(e)], V2) == rest
    ensures |Record(hash, e)| == RecordSize(e)
    ensures ReplayFrom(hash, (Record(hash, e) + more)[..room], V2)
            == Replayed([e] + rest.entries, rest.corrupted, RecordSize(e) + rest.valid)
  {
    RecordTail(hash, e, more);
    CutRecord(hash, e, more, room);
    hide Record, NextRecord, RecordSize;
  }

  lemma {:induction false} CutKept(hash: Hash, es: seq<WalEntry>, room: nat)
    requires AllStorable(es) && room <= |Records(hash, es)|
    ensures ReplayFrom(hash, Records(hash, es)[..room], V2) == Kept(es, room)
    decreases |es|
  {
    NothingReplayed(hash);
    hide Record, RecordSize, Kept, Storable, ReplayFrom;
    if es == [] {
    } else {
      var e, more := es[0], Records(hash, es[1..]);
      RecordTail(hash, e, more);
      KeptStep(es, room);
      if room < RecordSize(e) {
        CutFirst(hash, e, more, room);
      } else {
        CutKept(hash, es[1..], room - RecordSize(e));
        var rest := Kept(es[1..], room - RecordSize(e));
        CutCons(hash, e, more, room, rest);
      }
    }
  }

  lemma CutRecords(hash: Hash, es: seq<WalEntry>, room: nat)
    requires AllStorable(es) && room <= |Records(hash, es)|
    ensures |Records(hash, es)| == SizeOf(es)
    ensures var k := Whole(es, room);
            ReplayFrom(hash, Records(hash, es)[..room], V2) == Replayed(es[..k], false, SizeOf(es[..k]))
  {
    hide Records, Whole, SizeOf, ReplayFrom;
    RecordsSize(hash, es);
    CutKept(hash, es, room);
  }

  // ---------------------------------------------------------------- a file cut anywhere

  lemma HeaderBytes()
    ensures Header() == Le(MAGIC, 4) + [2, 0, 0, 0] && Le(MAGIC, 4) == [0x30, 0x4C, 0x41, 0x57]
    ensures FromLe([0x30, 0x4C, 0x41, 0x57]) == MAGIC && FromLe([2, 0, 0, 0]) == 2
  {
    Widths();
    assert Le(MAGIC, 4) == [0x30, 0x4C, 0x41, 0x57];
    assert Le(FORMAT_VERSION, 4) == [2, 0, 0, 0];
    LeRoundTrip(MAGIC, 4);
    LeRoundTrip(FORMAT_VERSION, 4);
  }

  lemma HeaderOpens(hash: Hash, d: Bytes)
    ensures |Header() + d| == 8 + |d|
    ensures Reopened(Header() + d) == Header() + d
    ensures var r := ReplayFrom(hash, d, V2);
            Replay(hash, Header() + d) == r.(valid := if r.entries == [] then 0 else 8 + r.valid)
  {
    HeaderBytes();
    hide Header, ReplayFrom, FromLe;
    var f := Header() + d;
    assert f[..4] == [0x30, 0x4C, 0x41, 0x57] && f[4..8] == [2, 0, 0, 0] && f[8..] == d;
  }

  /**
   A log cut at any byte at or past its header reads back exactly the records that lie wholly before the
   cut, is not taken for corrupt, and the reported valid size ends at the last of those records.
   */
  lemma CutReadsWholeRecords(hash: Hash, es: seq<WalEntry>, cut: nat)
    requires AllStorable(es) && 8 <= cut <= |Image(hash, es)|
    ensures var k := Whole(es, cut - 8);
            Replay(hash, Image(hash, es)[..cut])
            == Replayed(es[..k], false, if k == 0 then 0 else 8 + SizeOf(es[..k]))
  {
    HeaderBytes();
    hide Records, Replay, ReplayFrom, Whole, SizeOf, Header;
    CutRecords(hash, es, cut - 8);
    HeaderOpens(hash, Records(hash, es)[..cut - 8]);
    CutHeader(Records(hash, es), cut);
  }

  /** The first header byte is no operation, so a file that ends inside its header reads as corrupt. */
  lemma HeaderCutIsCorrupt(hash: Hash, cut: nat)
    requires 0 < cut < 8
    ensures Replay(hash, Header()[..cut]).corrupted
  {
    HeaderBytes();
    var d := Header()[..cut];
    assert Open(d) == (Legacy, 0);
    assert d[..1] == [0x30];
    assert FromLe(d[..1]) == 0x30;
    assert d[0..] == d;
  }

  /** Of all the ways to cut a log, only the ones inside the header make recovery refuse it. */
  lemma CorruptIffHeaderCut(hash: Hash, es: seq<WalEntry>, cut: nat)
    requires AllStorable(es) && cut <= |Image(hash, es)|
    ensures Replay(hash, Image(hash, es)[..cut]).corrupted <==> 0 < cut < 8
  {
    HeaderBytes();
    if cut >= 8 {
      CutReadsWholeRecords(hash, es, cut);
    } else if cut > 0 {
      HeaderCutIsCorrupt(hash, cut);
      hide Records, Replay;
      assert Image(hash, es)[..cut] == Header()[..cut];
    }
  }

  /** Recovery truncates the file to its valid size. */
  function Healed(hash: Hash, data: Bytes): Bytes {
    var r := Replay(hash, data);
    if r.valid < |data| then data[..r.valid] else data
  }

  /** Opening for append: keep a valid header, add one to a file too short to hold one, else start afresh. */
  function Reopened(data: Bytes): Bytes {
    if |data| < 8 then data + Header()
    else if FromLe(data[..4]) == MAGIC && ParseFormat(FromLe(data[4..8])).Some? then data
    else Header()
  }

  /** No byte of a header but the first is the byte a header starts with. */
  lemma HeaderStartsOnce(data: Bytes, i: nat)
    requires Open(data).1 == 8 && 0 < i < 8
    ensures data[i] != 0x30
  {
    HeaderBytes();
    VersionBytes(data[4..8]);
    LeInverse(data[..4]);
    hide Le, FromLe, Pow256;
    assert data[i] == if i < 4 then data[..4][i] else data[4..8][i - 4];
  }

  lemma VersionBytes(d: Bytes)
    requires |d| == 4 && ParseFormat(FromLe(d)).Some?
    ensures d == [1, 0, 0, 0] || d == [2, 0, 0, 0]
  {
    LeInverse(d);
    assert Le(1, 4) == [1, 0, 0, 0] && Le(2, 4) == [2, 0, 0, 0];
  }

  /** A reopened log has a header at its start unless it was a few bytes, too short to hold one. */
  lemma ReopenedHasHeaderIff(data: Bytes)
    ensures Open(Reopened(data)).1 == 8 <==> data == [] || |data| >= 8
  {
    HeaderBytes();
    var file := Reopened(data);
    if data == [] || |data| >= 8 {
      hide FromLe, Header;
      assert [] + Header() == Header();
      assert Header()[..4] == [0x30, 0x4C, 0x41, 0x57] && Header()[4..8] == [2, 0, 0, 0];
    } else {
      hide FromLe, Header;
      assert file[|data|] == Header()[0] == 0x30;
      if Open(file).1 == 8 { HeaderStartsOnce(file, |data|); }
    }
  }

  lemma LegacyNeedsBytes(hash: Hash, d: Bytes)
    requires |d| < 34
    ensures ReplayFrom(hash, d, Legacy).entries == []
  {
    hide ReadFields, RawEncoded, Le;
    if ReadFields(d, Legacy).Got? {
      FieldsAreRead(d, Legacy);
      RawSize(ReadFields(d, Legacy).value, ReadFields(d, Legacy).rest);
    }
  }

  lemma RawSize(x: Fields, tail: Bytes)
    ensures |RawEncoded(x, Legacy, tail)| >= 34
  {
    hide Le;
  }

  /** Reopening keeps every record of a log with a header, and leaves none of one without. */
  lemma ReopenedKeepsRecords(hash: Hash, data: Bytes)
    ensures Replay(hash, Reopened(data)).entries == if Open(data).0 == Legacy then [] else Replay(hash, data).entries
  {
    HeaderBytes();
    ReopenedHasHeaderIff(data);
    hide ReplayFrom, Header, FromLe;
    var file := Reopened(data);
    if 0 < |data| < 8 {
      LegacyNeedsBytes(hash, file);
      assert file[0..] == file;
    } else if Open(data).0 == Legacy {
      assert file == Header() + [];
      HeaderOpens(hash, []);
      NothingReplayed(hash);
    }
  }

  /** A record's fields as they were before there were delete markers, followed by `tail`. */
  function OldEncoded(e: WalEntry, tail: Bytes): Bytes {
    Le(OpCode(e.op), 1) + (Le(|e.key|, 4) + (e.key + (Le(|e.value|, 4) + (e.value +
      (Le(e.version, 8) + (Le(e.writer, 8) + (Le(e.expiresAtMs, 8) + (Le(Flag(e.hasTtl), 1) + tail))))))))
  }

  lemma OldEncodedIsRaw(e: WalEntry, f: Format, tail: Bytes)
    requires f != V2
    ensures OldEncoded(e, tail) == RawEncoded(FieldsOf(e), f, tail)
  {
    hide Le;
  }

  /** A log of the format before headers and checksums. */
  function LegacyImage(es: seq<WalEntry>): Bytes {
    if es == [] then [] else OldEncoded(es[0], LegacyImage(es[1..]))
  }

  /** What the formats without a delete marker can hold. */
  predicate LegacyEntry(e: WalEntry) {
    Storable(e) && !e.tombstone
  }

  lemma OldStamp(x: StampFields, f: Format, tail: Bytes)
    requires f != V2 && x.version < Pow256(8) && x.writer < Pow256(8) && x.expiresAtMs < Pow256(8)
    requires x.hasTtl < Pow256(1) && x.tombstone == 0
    ensures ReadStamp(RawStamped(x, f, tail), f) == Got(x, tail)
  {
    hide Le, FromLe, Pow256, ReadInt;
    var s4 := Le(x.hasTtl, 1) + tail;
    var s3 := Le(x.expiresAtMs, 8) + s4;
    var s2 := Le(x.writer, 8) + s3;
    IntBack(x.version, 8, s2);
    IntBack(x.writer, 8, s3);
    IntBack(x.expiresAtMs, 8, s4);
    IntBack(x.hasTtl, 1, tail);
  }

  lemma IntBack(x: nat, n: nat, more: Bytes)
    requires x < Pow256(n)
    ensures ReadInt(Le(x, n) + more, n) == Got(x, more)
  {
    hide Pow256, Le, FromLe;
    CutInt(x, n, more, n + |more|);
    assert (Le(x, n) + more)[..n + |more|] == Le(x, n) + more;
    assert more[..|more|] == more;
  }

  lemma BlobBack(blob: Bytes, more: Bytes)
    requires |blob| < 0x1_0000_0000
    ensures ReadBlob(Le(|blob|, 4) + (blob + more)) == Got(blob, more)
  {
    var all := Le(|blob|, 4) + (blob + more);
    hide Le, ReadBlob;
    CutBlob(blob, more, |all|);
    assert all[..|all|] == all;
    assert more[..|more|] == more;
  }

  lemma OldFields(e: WalEntry, f: Format, tail: Bytes)
    requires LegacyEntry(e) && f != V2
    ensures ReadFields(RawEncoded(FieldsOf(e), f, tail), f) == Got(FieldsOf(e), tail)
  {
    Widths();
    var x := FieldsOf(e);
    hide Le, FromLe, Pow256, ReadInt, ReadBlob, ReadStamp, RawStamped;
    var s3 := RawStamped(x.stamp, f, tail);
    var s2 := Le(|x.value|, 4) + (x.value + s3);
    IntBack(x.op, 1, Le(|x.key|, 4) + (x.key + s2));
    BlobBack(x.key, s2);
    BlobBack(x.value, s3);
    OldStamp(x.stamp, f, tail);
  }

  lemma LegacyRecord(hash: Hash, e: WalEntry, tail: Bytes)
    requires LegacyEntry(e)
    ensures NextRecord(hash, OldEncoded(e, tail), Legacy) == Entry(e, tail)
    ensures |OldEncoded(e, tail)| >= 34
  {
    hide ReadFields, RawEncoded, FieldsOf, ToEntry, OldEncoded;
    OldEncodedIsRaw(e, Legacy, tail);
    OldFields(e, Legacy, tail);
    ToEntryOf(e);
    RawSize(FieldsOf(e), tail);
  }

  // ---------------------------------------------------------------- the format before delete markers

  function V1Record(hash: Hash, e: WalEntry, tail: Bytes): Bytes {
    var body := OldEncoded(e, []);
    body + (Le(hash(body), 8) + tail)
  }

  function V1Records(hash: Hash, es: seq<WalEntry>): Bytes {
    if es == [] then [] else V1Record(hash, es[0], V1Records(hash, es[1..]))
  }

  lemma V1RecordReads(hash: Hash, e: WalEntry, tail: Bytes)
    requires LegacyEntry(e)
    ensures NextRecord(hash, V1Record(hash, e, tail), V1) == Entry(e, tail)
  {
    hide ReadFields, RawEncoded, FieldsOf, ToEntry, Le, FromLe, ReadInt, Pow256, OldEncoded;
    OldEncodedIsRaw(e, V1, []);
    var body := OldEncoded(e, []);
    var sum := hash(body);
    RawTail(FieldsOf(e), V1, Le(sum, 8) + tail);
    OldFields(e, V1, Le(sum, 8) + tail);
    ToEntryOf(e);
    Widths();
    IntBack(sum, 8, tail);
  }

  lemma {:induction false} V1Reads(hash: Hash, es: seq<WalEntry>)
    requires forall e :: e in es ==> LegacyEntry(e)
    ensures ReplayFrom(hash, V1Records(hash, es), V1).entries == es
    ensures !ReplayFrom(hash, V1Records(hash, es), V1).corrupted
  {
    hide NextRecord, V1Record, LegacyEntry;
    if es == [] {
    } else {
      V1Reads(hash, es[1..]);
      V1RecordReads(hash, es[0], V1Records(hash, es[1..]));
      V1RecordIsLong(hash, es[0], V1Records(hash, es[1..]));
    }
  }

  lemma V1RecordIsLong(hash: Hash, e: WalEntry, tail: Bytes)
    ensures V1Record(hash, e, tail) != []
  {
    hide Le, OldEncoded;
  }

  /** A log written before delete markers were, its records without that byte, still reads back in full. */
  lemma V1LogIsRead(hash: Hash, es: seq<WalEntry>)
    requires forall e :: e in es ==> LegacyEntry(e)
    ensures var r := Replay(hash, Le(MAGIC, 4) + (Le(1, 4) + V1Records(hash, es)));
            r.entries == es && !r.corrupted
  {
    HeaderBytes();
    LeRoundTrip(1, 4) by { Widths(); }
    V1Reads(hash, es);
    hide Le, FromLe, ReplayFrom, V1Records;
    var d := Le(MAGIC, 4) + (Le(1, 4) + V1Records(hash, es));
    assert d[..4] == Le(MAGIC, 4) && d[4..8] == Le(1, 4) && d[8..] == V1Records(hash, es);
  }

  lemma {:induction false} LegacyReads(hash: Hash, es: seq<WalEntry>)
    requires forall e :: e in es ==> LegacyEntry(e)
    ensures ReplayFrom(hash, LegacyImage(es), Legacy).entries == es
  {
    hide NextRecord, OldEncoded, LegacyEntry;
    if es == [] {
    } else {
      LegacyReads(hash, es[1..]);
      LegacyRecord(hash, es[0], LegacyImage(es[1..]));
    }
  }

  lemma HeaderFirst(data: Bytes)
    requires Open(data).1 == 8
    ensures data[0] == 0x30
  {
    HeaderBytes();
    LeInverse(data[..4]);
    hide Le, FromLe;
    assert data[0] == data[..4][0];
  }

  lemma LegacyFirst(es: seq<WalEntry>)
    requires es != []
    ensures LegacyImage(es) != [] && LegacyImage(es)[0] == OpCode(es[0].op)
  {
    assert Le(OpCode(es[0].op), 1) == [OpCode(es[0].op)];
  }

  /** The first byte of a legacy log is an operation, no header's. */
  lemma LegacyHasNoHeader(es: seq<WalEntry>)
    ensures Open(LegacyImage(es)) == (Legacy, 0)
  {
    hide LegacyImage, FromLe;
    if es == [] {
      assert LegacyImage([]) == [] by { NoLegacy(); }
    } else {
      LegacyFirst(es);
      if Open(LegacyImage(es)).1 == 8 { HeaderFirst(LegacyImage(es)); }
    }
  }

  lemma NoLegacy()
    ensures LegacyImage([]) == []
  {
  }

  /** Every legacy log that says anything reads back, and loses all of it when opened for append. */
  lemma LegacyLogIsEmptied(hash: Hash, es: seq<WalEntry>)
    requires forall e :: e in es ==> LegacyEntry(e)
    ensures Replay(hash, LegacyImage(es)).entries == es && Replay(hash, Reopened(LegacyImage(es))).entries == []
  {
    LegacyHasNoHeader(es);
    LegacyReads(hash, es);
    ReopenedKeepsRecords(hash, LegacyImage(es));
    hide LegacyImage, ReplayFrom, Open, Reopened;
    assert LegacyImage(es)[0..] == LegacyImage(es);
  }

  lemma Regroup(a: Bytes, b: Bytes, c: Bytes)
    ensures (a + b) + c == a + (b + c)
  {
  }

  lemma CutHeader(d: Bytes, cut: nat)
    requires |Header()| == 8 <= cut <= 8 + |d|
    ensures (Header() + d)[..cut] == Header() + d[..cut - 8]
  {
  }

  lemma {:induction false} RecordsConcat(hash: Hash, a: seq<WalEntry>, b: seq<WalEntry>)
    ensures Records(hash, a + b) == Records(hash, a) + Records(hash, b)
  {
    hide Record;
    if a == [] {
      assert a + b == b;
    } else {
      RecordsConcat(hash, a[1..], b);
      assert (a + b)[1..] == a[1..] + b;
      Regroup(Record(hash, a[0]), Records(hash, a[1..]), Records(hash, b));
    }
  }

  lemma EmptyHeals(hash: Hash)
    ensures Replay(hash, []).valid == 0 && Reopened([]) == Header() == Image(hash, [])
  {
  }

  /** Healing a cut log and reopening it leaves precisely the log of the surviving records. */
  lemma HealedIsImage(hash: Hash, es: seq<WalEntry>, cut: nat)
    requires AllStorable(es) && (cut == 0 || 8 <= cut) && cut <= |Image(hash, es)|
    ensures var k := if cut == 0 then 0 else Whole(es, cut - 8);
            Reopened(Healed(hash, Image(hash, es)[..cut])) == Image(hash, es[..k])
  {
    HeaderBytes();
    hide Records, ReplayFrom, Replay, Whole, SizeOf, Header, Reopened;
    if cut == 0 {
      EmptyHeals(hash);
    } else {
      var k := Whole(es, cut - 8);
      var kept, lost := Records(hash, es[..k]), Records(hash, es[k..]);
      CutReadsWholeRecords(hash, es, cut);
      CutRecords(hash, es[..k], 0);
      RecordsConcat(hash, es[..k], es[k..]);
      assert es[..k] + es[k..] == es;
      CutHeader(kept + lost, cut);
      if k == 0 { EmptyHeals(hash); } else {
        assert (kept + lost)[..cut - 8][..|kept|] == kept;
        CutHeader((kept + lost)[..cut - 8], 8 + |kept|);
        HeaderOpens(hash, kept);
      }
    }
  }

  /**
   Crash, heal, reopen, append: the next recovery reads the records that survived the crash followed by
   every record appended since, for every cut and every batch.
   */
  lemma HealedLogKeepsAppending(hash: Hash, es: seq<WalEntry>, cut: nat, more: seq<WalEntry>)
    requires AllStorable(es) && AllStorable(more) && (cut == 0 || 8 <= cut) && cut <= |Image(hash, es)|
    ensures var k := if cut == 0 then 0 else Whole(es, cut - 8);
            var r := Replay(hash, Reopened(Healed(hash, Image(hash, es)[..cut])) + Records(hash, more));
            r.entries == es[..k] + more && !r.corrupted
  {
    HeaderBytes();
    hide Records, Replay, Whole, SizeOf, Healed, Reopened, Header;
    HealedIsImage(hash, es, cut);
    var k := if cut == 0 then 0 else Whole(es, cut - 8);
    var all := es[..k] + more;
    RecordsConcat(hash, es[..k], more);
    Regroup(Header(), Records(hash, es[..k]), Records(hash, more));
    WholeOfAll(hash, all);
    var file := Image(hash, all);
    CutReadsWholeRecords(hash, all, |file|);
    assert file[..|file|] == file;
    assert all[..|all|] == all;
  }

  lemma WholeOfAll(hash: Hash, es: seq<WalEntry>)
    requires AllStorable(es)
    ensures Whole(es, |Records(hash, es)|) == |es|
  {
    CutRecords(hash, es, 0);
    WholeIsAll(es);
  }

  lemma {:induction false} WholeIsAll(es: seq<WalEntry>)
    ensures Whole(es, SizeOf(es)) == |es|
  {
    if es == [] {
    } else {
      WholeIsAll(es[1..]);
    }
  }
}
