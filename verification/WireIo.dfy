/** The encoders and decoders as they run, moving a cursor over a buffer; each is proved to do what `Wire` says. */
module WireIo {
  import opened Common
  import opened Codec
  import opened Buffers
  import opened Wire

  // ---------------------------------------------------------------- encoding

  /** Add one field to a payload size; once over the message budget, always over it. */
  function AddPayloadSize(size: Option<nat>, field: nat): (r: Option<nat>)
    ensures r.Some? <==> size.Some? && size.value + field <= MAX_PAYLOAD
    ensures r.Some? ==> r.value == size.value + field
  {
    if size.None? || size.value > MAX_PAYLOAD || field > MAX_PAYLOAD - size.value then None
    else Some(size.value + field)
  }

  method RequestPayload(req: Request) returns (size: Option<nat>)
    ensures size == if RequestSize(req) > MAX_PAYLOAD then None else Some(RequestSize(req))
  {
    if |req.key| >= 0x1_0000_0000 || |req.value| >= 0x1_0000_0000 { return None; }
    size := AddPayloadSize(Some(0), 4);
    size := AddPayloadSize(size, |req.key|);
    size := AddPayloadSize(size, 4);
    size := AddPayloadSize(size, |req.value|);
    size := AddPayloadSize(size, 16);
    if req.ttl.Some? { size := AddPayloadSize(size, 4); }
    size := AddPayloadSize(size, 1);
    if req.expiresAt.Some? { size := AddPayloadSize(size, 8); }
    if req.traceId != 0 { size := AddPayloadSize(size, 16); }
  }

  method WriteHeader(w: BufferWriter, opcode: u8, size: nat)
    requires w.Valid() && w.offset + HEADER_SIZE <= w.buf.Length
    modifies w, w.buf
    ensures w.Valid() && w.offset == old(w.offset) + HEADER_SIZE
    ensures w.Written() == old(w.Written()) + Frame(opcode, size, [])
  {
    ByteOf(MAGIC);
    ByteOf(PROTOCOL_VERSION);
    ByteOf(opcode);
    hide Be, w.Written;
    w.WriteBe(MAGIC, 1);
    w.WriteBe(PROTOCOL_VERSION, 1);
    w.WriteBe(opcode, 1);
    w.WriteBe(size, 4);
  }

  method WriteOpt(w: BufferWriter, x: Option<nat>, n: nat)
    requires w.Valid() && w.offset + |OptBe(x, n, [])| <= w.buf.Length
    modifies w, w.buf
    ensures w.Valid() && w.offset == old(w.offset) + |OptBe(x, n, [])|
    ensures w.Written() == old(w.Written()) + OptBe(x, n, [])
  {
    hide Be;
    if x.Some? { w.WriteBe(x.value, n); }
  }

  method WriteBlob(w: BufferWriter, s: Bytes)
    requires w.Valid() && w.offset + 4 + |s| <= w.buf.Length
    modifies w, w.buf
    ensures w.Valid() && w.offset == old(w.offset) + 4 + |s|
    ensures w.Written() == old(w.Written()) + Blob(s, [])
  {
    hide Be, w.Written;
    w.WriteBe(|s|, 4);
    if s != [] { w.WriteBytes(s); }
  }

  method WriteTrace(w: BufferWriter, traceId: u64, spanId: u64)
    requires w.Valid() && w.offset + |Trace(traceId, spanId, [])| <= w.buf.Length
    modifies w, w.buf
    ensures w.Valid() && w.offset == old(w.offset) + |Trace(traceId, spanId, [])|
    ensures w.Written() == old(w.Written()) + Trace(traceId, spanId, [])
  {
    hide Be, w.Written;
    if traceId != 0 {
      w.WriteBe(traceId, 8);
      w.WriteBe(spanId, 8);
    }
  }

  lemma TailFlattened(p: Bytes, req: Request, token: Bytes)
    ensures p + Be(req.version, 8) + Be(req.writer, 8) + Blob(req.key, []) + Blob(req.value, [])
              + Trace(req.traceId, req.spanId, []) + token
         == p + RequestTail(req, token)
  {
    hide Be;
  }

  lemma RequestFlattened(req: Request, token: Bytes, size: nat)
    ensures Frame(req.opcode, size, []) + Be(RequestFlags(req, token), 1) + OptBe(Ttl(req.ttl), 4, [])
              + OptBe(Expiry(req.expiresAt), 8, []) + RequestTail(req, token)
         == Frame(req.opcode, size, RequestBody(req, token))
  {
    hide Be, RequestTail, Ttl, Expiry, RequestFlags;
  }

  method WriteRequestTail(w: BufferWriter, req: Request, token: Bytes)
    requires w.Valid() && w.offset + |RequestTail(req, token)| <= w.buf.Length
    modifies w, w.buf
    ensures w.Valid() && w.offset == old(w.offset) + |RequestTail(req, token)|
    ensures w.Written() == old(w.Written()) + RequestTail(req, token)
  {
    TailFlattened(w.Written(), req, token);
    hide Be, w.Written;
    w.WriteBe(req.version, 8);
    w.WriteBe(req.writer, 8);
    WriteBlob(w, req.key);
    WriteBlob(w, req.value);
    WriteTrace(w, req.traceId, req.spanId);
    if token != [] { w.WriteBytes(token); }
  }

  method EncodeRequestInto(req: Request, token: Bytes) returns (r: Result<Bytes>)
    ensures r == EncodeRequest(req, token)
  {
    var size := RequestPayload(req);
    if size == None { return Err(TOO_LARGE); }
    if token != [] {
      if |token| != TOKEN_SIZE { return Err(BAD_TOKEN); }
      size := AddPayloadSize(size, TOKEN_SIZE);
      if size == None { return Err(TOO_LARGE); }
    }
    var out := WriteRequest(req, token, size.value);
    r := Ok(out[..]);
  }

  /** The buffer is sized from the computed payload size, and the encoding fills it exactly. */
  method WriteRequest(req: Request, token: Bytes, size: nat) returns (out: array<u8>)
    requires size == RequestSize(req) + |token|
    ensures out[..] == Frame(req.opcode, size, RequestBody(req, token))
  {
    hide Be, RequestBody, RequestTail, Ttl, Expiry, RequestFlags, Frame, OptBe, RequestSize;
    out := new u8[HEADER_SIZE + size](_ => 0);
    var w := new BufferWriter(out);
    RequestFits(req, token);
    RequestFlattened(req, token, size);
    ghost var ttl, expiry := OptBe(Ttl(req.ttl), 4, []), OptBe(Expiry(req.expiresAt), 8, []);
    WriteHeader(w, req.opcode, size);
    assert w.Written() == Frame(req.opcode, size, []);
    w.WriteBe(RequestFlags(req, token), 1);
    WriteOpt(w, Ttl(req.ttl), 4);
    WriteOpt(w, Expiry(req.expiresAt), 8);
    WriteRequestTail(w, req, token);
    assert w.Written() == out[..];
  }

  lemma RequestFits(req: Request, token: Bytes)
    ensures 1 + |OptBe(Ttl(req.ttl), 4, [])| + |OptBe(Expiry(req.expiresAt), 8, [])| + |RequestTail(req, token)|
         == RequestSize(req) + |token|
  {
    hide Be;
  }

  method ResponsePayload(res: Response) returns (size: Option<nat>)
    ensures size == if ResponseSize(res) > MAX_PAYLOAD then None else Some(ResponseSize(res))
  {
    size := AddPayloadSize(Some(0), 6);
    if HasVersion(res) { size := AddPayloadSize(size, 16); }
    if res.expiresAt.Some? { size := AddPayloadSize(size, 8); }
    if res.value.Some? { size := AddPayloadSize(size, |res.value.value|); }
    if res.traceId != 0 { size := AddPayloadSize(size, 16); }
  }

  lemma ResponseFlattened(res: Response, size: nat)
    ensures Frame(0, size, []) + Be(res.status, 1) + Be(ResponseFlags(res), 1) + VersionMeta(res, [])
              + OptBe(Expiry(res.expiresAt), 8, []) + ResponseTail(res)
         == Frame(0, size, ResponseBody(res))
  {
    hide Be, Expiry, ResponseFlags, ResponseTail;
  }

  lemma ResponseFits(res: Response)
    ensures 2 + |VersionMeta(res, [])| + |OptBe(Expiry(res.expiresAt), 8, [])| + |ResponseTail(res)|
            == ResponseSize(res)
  {
    hide Be;
  }

  method WriteResponseTail(w: BufferWriter, res: Response)
    requires w.Valid() && w.offset + |ResponseTail(res)| <= w.buf.Length
    modifies w, w.buf
    ensures w.Valid() && w.offset == old(w.offset) + |ResponseTail(res)|
    ensures w.Written() == old(w.Written()) + ResponseTail(res)
  {
    hide Be, w.Written, Trace;
    w.WriteBe(if res.value.Some? then 1 else 0, 4);
    w.WriteBytes(ValueOf(res.value));
    WriteTrace(w, res.traceId, res.spanId);
  }

  method WriteVersion(w: BufferWriter, res: Response)
    requires w.Valid() && w.offset + |VersionMeta(res, [])| <= w.buf.Length
    modifies w, w.buf
    ensures w.Valid() && w.offset == old(w.offset) + |VersionMeta(res, [])|
    ensures w.Written() == old(w.Written()) + VersionMeta(res, [])
  {
    hide Be, w.Written;
    if HasVersion(res) {
      w.WriteBe(res.version, 8);
      w.WriteBe(res.writer, 8);
    }
  }

  method EncodeResponseInto(res: Response) returns (r: Result<Bytes>)
    ensures r == EncodeResponse(res)
  {
    hide ResponseBody, Frame, ResponseSize;
    var size := ResponsePayload(res);
    if size == None { return Err(TOO_LARGE); }
    var out := WriteResponse(res, size.value);
    r := Ok(out[..]);
  }

  method WriteResponse(res: Response, size: nat) returns (out: array<u8>)
    requires size == ResponseSize(res)
    ensures out[..] == Frame(0, size, ResponseBody(res))
  {
    hide Be, ResponseBody, Expiry, ResponseFlags, Frame, OptBe, ResponseSize, VersionMeta, ResponseTail;
    out := new u8[HEADER_SIZE + size](_ => 0);
    var w := new BufferWriter(out);
    ResponseFits(res);
    ResponseFlattened(res, size);
    WriteHeader(w, 0, size);
    assert w.Written() == Frame(0, size, []);
    w.WriteBe(res.status, 1);
    w.WriteBe(ResponseFlags(res), 1);
    WriteVersion(w, res);
    WriteOpt(w, Expiry(res.expiresAt), 8);
    WriteResponseTail(w, res);
    assert w.Written() == out[..];
  }

  // ---------------------------------------------------------------- decoding

  /** The cursor moved and the value came out as the byte-level reading says. */
  ghost predicate Follows<T>(spec: Result<(T, Bytes)>, r: Result<T>, rest: Bytes) {
    if spec.Ok? then r == Ok(spec.value.0) && rest == spec.value.1 else r == Err(spec.error)
  }

  method TakeBe(input: BufferReader, n: nat) returns (r: Result<nat>)
    requires input.Valid()
    modifies input
    ensures input.Valid() && Follows(Wire.ReadBe(old(input.Rest()), n), r, input.Rest())
  {
    var x := input.ReadBe(n);
    r := if x.Some? then Ok(x.value) else Err(TRUNCATED);
  }

  method TakeU64(input: BufferReader) returns (r: Result<u64>)
    requires input.Valid()
    modifies input
    ensures input.Valid() && Follows(ReadU64(old(input.Rest())), r, input.Rest())
  {
    var s := input.ReadBytes(8);
    r := if s.Some? then Ok(U64(s.value)) else Err(TRUNCATED);
  }

  method TakeOpt(input: BufferReader, present: bool, n: nat) returns (r: Result<Option<nat>>)
    requires input.Valid()
    modifies input
    ensures input.Valid() && Follows(ReadOpt(present, old(input.Rest()), n), r, input.Rest())
  {
    hide input.Rest, FromBe;
    if !present { return Ok(None); }
    var x :- TakeBe(input, n);
    r := Ok(Some(x));
  }

  method TakeExpiry(input: BufferReader, present: bool) returns (r: Result<Option<nat>>)
    requires input.Valid()
    modifies input
    ensures input.Valid() && Follows(ReadExpiry(present, old(input.Rest())), r, input.Rest())
  {
    hide input.Rest, ReadOpt;
    var ms :- TakeOpt(input, present, 8);
    r := if ms.Some? && ms.value > MAX_MS then Err(OVERFLOW) else Ok(ms);
  }

  method TakeBlob(input: BufferReader) returns (r: Result<Bytes>)
    requires input.Valid()
    modifies input
    ensures input.Valid() && Follows(ReadBlob(old(input.Rest())), r, input.Rest())
  {
    hide input.Rest, FromBe;
    var n :- TakeBe(input, 4);
    var s := input.ReadBytes(n);
    r := if s.Some? then Ok(s.value) else Err(TRUNCATED);
  }

  method TakeCore(input: BufferReader) returns (r: Result<Core>)
    requires input.Valid()
    modifies input
    ensures input.Valid() && Follows(ReadCore(old(input.Rest())), r, input.Rest())
  {
    hide input.Rest, ReadU64, ReadBlob;
    var version :- TakeU64(input);
    var writer :- TakeU64(input);
    var key :- TakeBlob(input);
    var value :- TakeBlob(input);
    r := Ok(Core(version, writer, key, value));
  }

  method TakeMeta(input: BufferReader) returns (r: Result<Meta>)
    requires input.Valid()
    modifies input
    ensures input.Valid() && Follows(ReadMeta(old(input.Rest())), r, input.Rest())
  {
    hide input.Rest, Wire.ReadBe, ReadOpt, ReadExpiry, Bit;
    var flags :- TakeBe(input, 1);
    var ttl :- TakeOpt(input, Bit(flags, HAS_TTL), 4);
    var ms :- TakeExpiry(input, Bit(flags, HAS_EXPIRES_AT));
    r := Ok(Meta(flags, ttl, ms));
  }

  method TakeTrace(input: BufferReader, present: bool) returns (traceId: u64, spanId: u64)
    requires input.Valid()
    modifies input
    ensures input.Valid() && Ids(traceId, spanId, input.Rest()) == ReadTrace(present, old(input.Rest()))
  {
    traceId, spanId := 0, 0;
    if present && |input.data| - input.pos >= 16 {
      ghost var d := input.Rest();
      var tid := input.ReadBytes(8);
      var sid := input.ReadBytes(8);
      assert d[8..][..8] == d[8..16] && d[8..][8..] == d[16..];
      hide U64;
      traceId := U64(tid.value);
      spanId := if traceId == 0 then 0 else U64(sid.value);
    }
  }

  /** Cut the frame at the start of the buffer, then read its payload field by field. */
  method DecodeRequestFrom(frame: Bytes) returns (r: Result<Decoded>)
    ensures r == DecodeRequest(frame)
  {
    hide ReadMeta, ReadCore, ReadTrace, Bit, AsInt, FromMs, ParseFrame;
    var view :- ParseFrame(frame);
    var (opcode, payload) := view;
    if opcode < 1 || opcode > 16 { return Err(UNKNOWN_OPCODE); }
    var input := new BufferReader(payload, 0);
    assert input.Rest() == payload;
    hide input.Rest;
    var m :- TakeMeta(input);
    var c :- TakeCore(input);
    var traceId, spanId := TakeTrace(input, Bit(m.flags, HAS_TRACE));
    var token := [];
    if Bit(m.flags, HAS_AUTH) {
      var s := input.ReadBytes(TOKEN_SIZE);
      if s.Some? { token := s.value; }
    }
    r := Ok(Decoded(Request(opcode, traceId, spanId, c.key, c.value, c.version, c.writer,
                            AsInt(m.ttl), FromMs(m.ms), Bit(m.flags, HAS_TOMBSTONE)), token));
  }

  method TakeVersion(input: BufferReader, present: bool) returns (r: Result<Version>)
    requires input.Valid()
    modifies input
    ensures input.Valid() && Follows(ReadVersion(present, old(input.Rest())), r, input.Rest())
  {
    hide input.Rest, ReadU64;
    if !present { return Ok(Version(0, 0)); }
    var version :- TakeU64(input);
    var writer :- TakeU64(input);
    r := Ok(Version(version, writer));
  }

  method TakeValue(input: BufferReader, trace: bool) returns (r: Result<Option<Bytes>>)
    requires input.Valid()
    modifies input
    ensures input.Valid() && Follows(ReadValue(trace, old(input.Rest())), r, input.Rest())
  {
    hide FromBe;
    var has :- TakeBe(input, 4);
    if has == 0 { return Ok(None); }
    var reserved := if trace then 16 else 0;
    var remaining := |input.data| - input.pos;
    var s := input.ReadBytes(if remaining > reserved then remaining - reserved else 0);
    r := Ok(s);
  }

  method DecodeResponseFrom(frame: Bytes) returns (r: Result<Response>)
    ensures r == DecodeResponse(frame)
  {
    hide ReadVersion, ReadExpiry, ReadValue, ReadTrace, Bit, FromMs, ParseFrame;
    var view :- ParseFrame(frame);
    var (_, payload) := view;
    if |payload| == 0 { return Err(TRUNCATED); }
    var status, flags: nat := payload[0], 0;
    if |payload| > 1 { flags := payload[1]; }
    var input := new BufferReader(payload, 2);
    assert (flags, input.Rest()) == ReadFlags(payload[1..]);
    hide input.Rest, ReadFlags;
    var v :- TakeVersion(input, Bit(flags, HAS_VERSION));
    var ms :- TakeExpiry(input, Bit(flags, HAS_EXPIRES_AT));
    var value :- TakeValue(input, Bit(flags, HAS_TRACE));
    var traceId, spanId := TakeTrace(input, Bit(flags, HAS_TRACE));
    r := Ok(Response(status, value, v.version, v.writer, FromMs(ms), Bit(flags, HAS_TOMBSTONE), traceId, spanId));
  }
}
