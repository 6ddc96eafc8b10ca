/**
 The log's writer and reader as they run: a cursor over a pre-sized buffer, group commit, and the replay
 loop. Each is proved to do what the byte layout of `Wal` says.
 */
module WalFile {
  import opened Common
  import opened Codec
  import opened Wal
  import opened Buffers

  lemma Flattened(p: Bytes, e: WalEntry)
    ensures p + Le(OpCode(e.op), 1) + Le(|e.key|, 4) + e.key + Le(|e.value|, 4) + e.value
              + Le(e.version, 8) + Le(e.writer, 8) + Le(e.expiresAtMs, 8) + Le(Flag(e.hasTtl), 1)
              + Le(Flag(e.tombstone), 1)
            == p + Body(e)
  {
    hide Le;
  }

  /** The one record encoder; the checksum covers the bytes written since the record began. */
  method EncodeRecord(hash: Hash, out: BufferWriter, e: WalEntry)
    requires out.Valid() && Storable(e) && out.offset + RecordSize(e) <= out.buf.Length
    modifies out, out.buf
    ensures out.Valid() && out.offset == old(out.offset) + RecordSize(e)
    ensures out.Written() == old(out.Written()) + Record(hash, e)
  {
    hide Le;
    var start := out.offset;
    ghost var before := out.Written();
    WriteFields(out, e);
    assert out.buf[start..out.offset] == Body(e) by {
      assert out.buf[start..out.offset] == out.Written()[|before|..];
    }
    var digest := hash(out.buf[start..out.offset]);
    out.WriteLe(digest, 8);
    Regroup(before, Body(e), Le(digest, 8));
  }

  method WriteFields(out: BufferWriter, e: WalEntry)
    requires out.Valid() && out.offset + RecordSize(e) <= out.buf.Length
    modifies out, out.buf
    ensures out.Valid() && out.offset == old(out.offset) + RecordSize(e) - 8
    ensures out.Written() == old(out.Written()) + Body(e)
  {
    hide Le, Body, out.Written;
    Flattened(out.Written(), e);
    out.WriteLe(OpCode(e.op), 1);
    out.WriteLe(|e.key|, 4);
    out.WriteBytes(e.key);
    out.WriteLe(|e.value|, 4);
    out.WriteBytes(e.value);
    out.WriteLe(e.version, 8);
    out.WriteLe(e.writer, 8);
    out.WriteLe(e.expiresAtMs, 8);
    out.WriteLe(Flag(e.hasTtl), 1);
    out.WriteLe(Flag(e.tombstone), 1);
  }

  datatype OpenMode = Truncate | Append

  /** Whether the first eight bytes are a header a reader accepts; `None` when there are no eight bytes. */
  method Probe(existing: Bytes) returns (valid: Option<bool>)
    ensures valid.None? <==> |existing| < 8
    ensures valid.Some? ==> (valid.value <==> Open(existing).1 == 8)
  {
    hide FromLe;
    var probe := new BufferReader(existing, 0);
    assert probe.Rest() == existing;
    var magic := probe.ReadLe(4);
    var version := probe.ReadLe(4);
    if magic == None || version == None { return None; }
    assert existing[4..][..4] == existing[4..8];
    valid := Some(magic.value == MAGIC && ParseFormat(version.value).Some?);
  }

  method FreshHeader() returns (header: Bytes)
    ensures header == Header()
  {
    var scratch := new u8[8](_ => 0);
    var out := new BufferWriter(scratch);
    out.WriteLe(MAGIC, 4);
    out.WriteLe(FORMAT_VERSION, 4);
    assert out.Written() == scratch[..];
    header := scratch[..];
  }

  /** What the file of a new writer is, and what a replay of it finds. */
  lemma OpenedFile(hash: Hash, existing: Bytes, mode: OpenMode)
    ensures Reopened(existing) == if Open(existing).1 == 8 then existing
                                  else if |existing| < 8 then existing + Header() else Header()
    ensures var file := if mode.Truncate? then Header() else Reopened(existing);
            && (Open(file).1 == 8 <==> mode.Truncate? || existing == [] || |existing| >= 8)
            && (mode.Truncate? || Open(existing).1 == 0 ==> Replay(hash, file).entries == [])
  {
    hide Replay, FromLe, Header;
    ReopenedHasHeaderIff(if mode.Truncate? then [] else existing);
    ReopenedKeepsRecords(hash, if mode.Truncate? then [] else existing);
    assert [] + Header() == Header();
  }

  const NOT_OPEN := "WAL file not open"
  const TOO_LARGE := "WAL entry too large"

  /** The append-side of the log: `file` is what has been written to disk. */
  class WalWriter {
    const hash: Hash
    var open: bool
    var file: Bytes

    constructor (hash: Hash, existing: Bytes, mode: OpenMode)
      ensures this.hash == hash && open
      ensures file == if mode.Truncate? then Header() else Reopened(existing)
      ensures Open(file).1 == 8 <==> mode.Truncate? || existing == [] || |existing| >= 8
      ensures mode.Append? && Open(existing).1 == 8 ==> Replay(hash, file) == Replay(hash, existing)
      ensures mode.Truncate? || Open(existing).1 == 0 ==> Replay(hash, file).entries == []
    {
      hide Replay, Reopened, Header;
      this.hash := hash;
      open := true;
      var kept := [];
      var needsHeader := mode.Truncate?;
      if mode.Append? {
        var probe := Probe(existing);
        kept := if probe == Some(false) then [] else existing;
        needsHeader := probe != Some(true);
      }
      var header := [];
      if needsHeader { header := FreshHeader(); }
      file := kept + header;
      OpenedFile(hash, existing, mode);
    }

    method Append(e: WalEntry) returns (r: Result<()>)
      modifies this
      ensures open == old(open)
      ensures r == if !open then Err(NOT_OPEN) else if !Storable(e) then Err(TOO_LARGE) else Ok(())
      ensures file == old(file) + (if r.Ok? then Record(hash, e) else [])
    {
      if !open { return Err(NOT_OPEN); }
      if !Storable(e) { return Err(TOO_LARGE); }
      var scratch := new u8[RecordSize(e)](_ => 0);
      var out := new BufferWriter(scratch);
      EncodeRecord(hash, out, e);
      assert out.Written() == scratch[..];
      file := file + scratch[..];
      r := Ok(());
    }

    /** Group commit: the whole batch lands in one write, or nothing does. */
    method AppendBatch(es: seq<WalEntry>) returns (r: Result<nat>)
      modifies this
      ensures open == old(open)
      ensures r == if !open then Err(NOT_OPEN) else if !AllStorable(es) then Err(TOO_LARGE) else Ok(SizeOf(es))
      ensures file == old(file) + (if r.Ok? then Records(hash, es) else [])
    {
      if !open { return Err(NOT_OPEN); }
      if |es| == 0 { return Ok(0); }
      for i := 0 to |es|
        invariant AllStorable(es[..i])
      {
        if !Storable(es[i]) { return Err(TOO_LARGE); }
      }
      assert es[..|es|] == es;
      var total := TotalSize(es);
      var scratch := EncodeBatch(hash, es, total);
      file := file + scratch[..];
      r := Ok(total);
    }
  }

  method TotalSize(es: seq<WalEntry>) returns (total: nat)
    ensures total == SizeOf(es)
  {
    total := 0;
    for i := 0 to |es|
      invariant total + SizeOf(es[i..]) == SizeOf(es)
    {
      total := total + RecordSize(es[i]);
      assert es[i..][1..] == es[i + 1..];
    }
  }

  method EncodeBatch(hash: Hash, es: seq<WalEntry>, total: nat) returns (scratch: array<u8>)
    requires AllStorable(es) && total == SizeOf(es)
    ensures fresh(scratch) && scratch[..] == Records(hash, es)
  {
    hide Record;
    scratch := new u8[total](_ => 0);
    var out := new BufferWriter(scratch);
    for i := 0 to |es|
      invariant fresh(out) && out.buf == scratch && out.Valid()
      invariant out.offset + SizeOf(es[i..]) == total
      invariant out.Written() + Records(hash, es[i..]) == Records(hash, es)
    {
      assert es[i..][0] == es[i] && es[i..][1..] == es[i + 1..];
      Regroup(out.Written(), Record(hash, es[i]), Records(hash, es[i + 1..]));
      EncodeRecord(hash, out, es[i]);
    }
    assert out.Written() == scratch[..];
  }

  // ---------------------------------------------------------------- reading

  method ReadLengthAndBytes(input: BufferReader) returns (r: Option<Bytes>)
    requires input.Valid()
    modifies input
    ensures input.Valid() && old(input.pos) <= input.pos
    ensures var p := ReadBlob(old(input.Rest()));
            input.Rest() == p.rest && (r == if p.Got? then Some(p.value) else None)
  {
    hide input.Rest;
    var n := input.ReadLe(4);
    if n == None { return None; }
    r := input.ReadBytes(n.value);
  }

  /** Version to tombstone: the fixed-width end of a record. */
  method ReadStampFields(input: BufferReader, f: Format) returns (x: Option<StampFields>, invalid: bool)
    requires input.Valid()
    modifies input
    ensures input.Valid() && old(input.pos) <= input.pos
    ensures var p := ReadStamp(old(input.Rest()), f);
            input.Rest() == p.rest && invalid == p.Bad? && (x == if p.Got? then Some(p.value) else None)
  {
    hide input.Rest, FromLe;
    x, invalid := None, false;
    var version := input.ReadLe(8);
    if version == None { return; }
    var writer := input.ReadLe(8);
    if writer == None { return; }
    var expiresAtMs := input.ReadLe(8);
    if expiresAtMs == None { return; }
    var hasTtl := input.ReadLe(1);
    if hasTtl == None { return; }
    var tombstone := 0;
    if HasTombstone(f) {
      var t := input.ReadLe(1);
      if t == None { return; }
      if t.value > 1 { return None, true; }
      tombstone := t.value;
    }
    x := Some(StampFields(version.value, writer.value, expiresAtMs.value, hasTtl.value, tombstone));
  }

  method ReadEntryFields(input: BufferReader, f: Format) returns (x: Option<Fields>, invalid: bool)
    requires input.Valid()
    modifies input
    ensures input.Valid() && old(input.pos) <= input.pos
    ensures var p := ReadFields(old(input.Rest()), f);
            input.Rest() == p.rest && invalid == p.Bad? && (x == if p.Got? then Some(p.value) else None)
  {
    hide input.Rest, FromLe, ReadBlob, ReadStamp;
    x, invalid := None, false;
    var op := input.ReadLe(1);
    if op == None { return; }
    if op.value != 1 && op.value != 2 { return None, true; }
    var key := ReadLengthAndBytes(input);
    if key == None { return; }
    var value := ReadLengthAndBytes(input);
    if value == None { return; }
    var stamp, bad := ReadStampFields(input, f);
    if stamp == None { return None, bad; }
    x := Some(Fields(op.value, key.value, value.value, stamp.value));
  }

  /** The format the image announces and where its records start. */
  method ReadHeader(data: Bytes) returns (f: Format, start: nat)
    ensures (f, start) == Open(data) && start <= |data|
  {
    hide FromLe;
    f, start := Legacy, 0;
    var header := new BufferReader(data, 0);
    assert header.Rest() == data;
    var magic := header.ReadLe(4);
    if magic != Some(MAGIC) { return; }
    var version := header.ReadLe(4);
    if version == None { return; }
    assert data[4..][..4] == data[4..8];
    var format := ParseFormat(version.value);
    if format == None { return; }
    f, start := format.value, header.pos;
  }

  /** Decodes a log image record by record; `commitPos` ends the last good one. */
  class WalReader {
    const hash: Hash
    const data: Bytes
    const format: Format
    var pos: nat
    var commitPos: nat
    var corrupted: bool

    ghost predicate Valid()
      reads this
    {
      pos <= |data|
    }

    constructor (hash: Hash, data: Bytes)
      ensures this.hash == hash && this.data == data && (format, pos) == Open(data)
      ensures Valid() && commitPos == 0 && !corrupted
    {
      hide Open;
      this.hash := hash;
      this.data := data;
      commitPos, corrupted := 0, false;
      var f, start := ReadHeader(data);
      format, pos := f, start;
    }

    predicate HasMore()
      reads this
    {
      pos < |data|
    }

    method Next() returns (r: Option<WalEntry>)
      requires Valid()
      modifies this
      ensures Valid() && old(pos) <= pos
      ensures var next := NextRecord(hash, data[old(pos)..], format);
              data[pos..] == next.rest
              && (r == if next.Entry? then Some(next.entry) else None)
              && commitPos == (if next.Entry? then pos else old(commitPos))
              && corrupted == (old(corrupted) || next.Corrupt?)
    {
      hide ReadFields, RawEncoded;
      var input := new BufferReader(data, pos);
      assert input.Rest() == data[pos..];
      var x, invalid := ReadEntryFields(input, format);
      assert input.Rest() == data[input.pos..];
      pos := input.pos;
      if x == None {
        if invalid { corrupted := true; }
        return None;
      }
      FieldsAreRead(data[old(pos)..], format);
      if format == Legacy {
        commitPos := pos;
        return Some(ToEntry(x.value));
      }
      var sum := input.ReadLe(8);
      assert input.Rest() == data[input.pos..];
      pos := input.pos;
      if sum == None { return None; }
      if hash(RawEncoded(x.value, format, [])) != sum.value {
        corrupted := true;
        return None;
      }
      commitPos := pos;
      r := Some(ToEntry(x.value));
    }
  }

  /** Having decoded `entries` up to `pos`, the rest of the replay is the replay of the rest. */
  ghost predicate Decoded(hash: Hash, data: Bytes, entries: seq<WalEntry>, pos: nat) {
    var (f, start) := Open(data);
    start <= pos <= |data|
    && (entries == [] ==> pos == start)
    && var all, left := ReplayFrom(hash, data[start..], f), ReplayFrom(hash, data[pos..], f);
       all == Replayed(entries + left.entries, left.corrupted, pos - start + left.valid)
  }

  lemma DecodeOne(hash: Hash, data: Bytes, entries: seq<WalEntry>, pos: nat, next: nat)
    requires Decoded(hash, data, entries, pos) && pos < |data| && pos <= next <= |data|
    requires data[next..] == NextRecord(hash, data[pos..], Open(data).0).rest
    ensures match NextRecord(hash, data[pos..], Open(data).0)
            case Entry(e, rest) => pos < next && Decoded(hash, data, entries + [e], next)
            case Torn(_) => Replay(hash, data) == Replayed(entries, false, if entries == [] then 0 else pos)
            case Corrupt(_) => Replay(hash, data).corrupted
  {
    hide NextRecord, Open;
    match NextRecord(hash, data[pos..], Open(data).0) {
      case Entry(e, rest) =>
        var left := ReplayFrom(hash, rest, Open(data).0);
        assert entries + ([e] + left.entries) == entries + [e] + left.entries;
      case _ =>
    }
  }

  lemma DecodedAll(hash: Hash, data: Bytes, entries: seq<WalEntry>)
    requires Decoded(hash, data, entries, |data|)
    ensures Replay(hash, data) == Replayed(entries, false, if entries == [] then 0 else |data|)
  {
    hide NextRecord, Open;
    assert entries + [] == entries;
  }

  lemma DecodedNone(hash: Hash, data: Bytes)
    ensures Open(data).1 <= |data| && Decoded(hash, data, [], Open(data).1)
  {
    hide NextRecord;
  }

  /** The recovery loop over one file: the decoded entries in order and the file's valid size, or an error. */
  method ReplayLog(hash: Hash, data: Bytes) returns (r: Option<(seq<WalEntry>, nat)>)
    ensures var spec := Replay(hash, data);
            r == if spec.corrupted then None else Some((spec.entries, spec.valid))
  {
    hide Decoded, NextRecord, Replay, Open;
    var reader := new WalReader(hash, data);
    var entries := [];
    DecodedNone(hash, data);
    while reader.HasMore()
      invariant fresh(reader) && reader.hash == hash && reader.data == data && reader.Valid()
      invariant reader.format == Open(data).0 && !reader.corrupted
      invariant reader.commitPos == if entries == [] then 0 else reader.pos
      invariant Decoded(hash, data, entries, reader.pos)
      decreases |data| - reader.pos
    {
      ghost var pos := reader.pos;
      var e := reader.Next();
      DecodeOne(hash, data, entries, pos, reader.pos);
      if e == None {
        if reader.corrupted { return None; }
        return Some((entries, reader.commitPos));
      }
      entries := entries + [e.value];
    }
    DecodedAll(hash, data, entries);
    r := Some((entries, reader.commitPos));
  }
}
