/**
 The binary wire protocol between nodes: frames, requests and responses as bytes, and what survives a round trip.
 */
module Wire {
  import opened Common
  import opened Codec

  const MAGIC: u8 := 0xC1
  const PROTOCOL_VERSION: u8 := 5
  const HEADER_SIZE := 7
  const MAX_PAYLOAD := 67_108_864 - HEADER_SIZE
  const TOKEN_SIZE := 32

  const HAS_TTL := 1
  const HAS_EXPIRES_AT := 2
  const HAS_TRACE := 4
  const HAS_AUTH := 8
  const HAS_TOMBSTONE := 16
  const HAS_VERSION := 1 // in responses

  const TRUNCATED := "truncated"
  const TOO_LARGE := "message too large"
  const BAD_TOKEN := "auth token must be 32 bytes"
  const OVERFLOW := "expires_at overflow"
  const UNKNOWN_OPCODE := "unknown opcode"

  const NS_PER_MS := 1_000_000
  const MAX_MS := 0x7FFF_FFFF_FFFF_FFFF / NS_PER_MS

  datatype Response = Response(status: u8, value: Option<Bytes>, version: u64, writer: u64,
                               expiresAt: Option<int>, tombstone: bool, traceId: u64, spanId: u64)

  datatype Decoded = Decoded(req: Request, token: Bytes)

  // ---------------------------------------------------------------- building blocks

  predicate Bit(flags: nat, mask: nat)
    requires mask > 0
  {
    flags / mask % 2 == 1
  }

  function Mask(b: bool, mask: nat): nat {
    if b then mask else 0
  }

  function OptBe(x: Option<nat>, n: nat, tail: Bytes): Bytes {
    if x.None? then tail else Be(x.value, n) + tail
  }

  function Blob(s: Bytes, tail: Bytes): Bytes {
    Be(|s|, 4) + (s + tail)
  }

  /** A trace of zero means no trace: neither id is sent. */
  function Trace(traceId: u64, spanId: u64, tail: Bytes): Bytes {
    if traceId == 0 then tail else Be(traceId, 8) + (Be(spanId, 8) + tail)
  }

  function ReadBe(d: Bytes, n: nat): Result<(nat, Bytes)> {
    if n > |d| then Err(TRUNCATED) else Ok((FromBe(d[..n]), d[n..]))
  }

  function ReadRaw(d: Bytes, n: nat): Result<(Bytes, Bytes)> {
    if n > |d| then Err(TRUNCATED) else Ok((d[..n], d[n..]))
  }

  function ReadOpt(present: bool, d: Bytes, n: nat): Result<(Option<nat>, Bytes)> {
    if !present then Ok((None, d))
    else
      var (x, d) :- ReadBe(d, n);
      Ok((Some(x), d))
  }

  /** An expiry in milliseconds, refused when it would not fit a nanosecond clock. */
  function ReadExpiry(present: bool, d: Bytes): Result<(Option<nat>, Bytes)> {
    var (ms, d) :- ReadOpt(present, d, 8);
    if ms.Some? && ms.value > MAX_MS then Err(OVERFLOW) else Ok((ms, d))
  }

  function ReadBlob(d: Bytes): Result<(Bytes, Bytes)> {
    var (n, d) :- ReadBe(d, 4);
    ReadRaw(d, n)
  }

  function U64(s: Bytes): u64
    requires |s| == 8
  {
    BeInverse(s);
    Widths();
    FromBe(s)
  }

  function ReadU64(d: Bytes): Result<(u64, Bytes)> {
    if 8 > |d| then Err(TRUNCATED) else Ok((U64(d[..8]), d[8..]))
  }

  datatype Ids = Ids(traceId: u64, spanId: u64, rest: Bytes)

  /** Trace and span when announced and wholly there; a zero trace carries no span. */
  function ReadTrace(present: bool, d: Bytes): Ids {
    if present && |d| >= 16 then
      var tid := U64(d[..8]);
      Ids(tid, if tid == 0 then 0 else U64(d[8..16]), d[16..])
    else Ids(0, 0, d)
  }

  /** Division that drops the remainder towards zero. */
  function TruncDiv(a: int, b: nat): int
    requires b > 0
  {
    if a >= 0 then a / b else -(-a / b)
  }

  /** A point in time as unsigned milliseconds; a negative one wraps around. */
  function ToMs(ns: int): nat {
    TruncDiv(ns, NS_PER_MS) % 0x1_0000_0000_0000_0000
  }

  function Expiry(expiresAt: Option<int>): Option<nat> {
    if expiresAt.None? then None else Some(ToMs(expiresAt.value))
  }

  function FromMs(ms: Option<nat>): Option<int> {
    if ms.None? then None else Some(ms.value * NS_PER_MS)
  }

  /** A duration in milliseconds, cut to 32 bits. */
  function Ttl(ttl: Option<int>): Option<nat> {
    if ttl.None? then None else Some(ttl.value % 0x1_0000_0000)
  }

  function AsInt(x: Option<nat>): Option<int> {
    if x.None? then None else Some(x.value)
  }

  /** What the wire does to times: a deadline loses what it has beyond a whole millisecond, a duration its high bits. */
  lemma TimesAreCut(at: int, ttl: int)
    ensures 0 <= at / 1_000_000 < 0x1_0000_0000_0000_0000 ==>
              FromMs(Expiry(Some(at))) == Some(at - at % 1_000_000)
    ensures 0 <= ttl < 0x1_0000_0000 ==> AsInt(Ttl(Some(ttl))) == Some(ttl)
    ensures AsInt(Ttl(Some(ttl + 0x1_0000_0000))) == AsInt(Ttl(Some(ttl)))
  {
  }

  // ---------------------------------------------------------------- reading back the building blocks

  lemma BeIsRead(x: nat, n: nat, tail: Bytes)
    requires x < Pow256(n)
    ensures ReadBe(Be(x, n) + tail, n) == Ok((x, tail))
  {
    BeRoundTrip(x, n);
    var d := Be(x, n) + tail;
    assert d[..n] == Be(x, n) && d[n..] == tail;
  }

  lemma U64IsRead(x: u64, tail: Bytes)
    ensures ReadU64(Be(x, 8) + tail) == Ok((x, tail))
  {
    Widths();
    BeIsRead(x, 8, tail);
  }

  lemma OptIsRead(x: Option<nat>, n: nat, tail: Bytes)
    requires x.Some? ==> x.value < Pow256(n)
    ensures ReadOpt(x.Some?, OptBe(x, n, tail), n) == Ok((x, tail))
  {
    if x.Some? { BeIsRead(x.value, n, tail); }
  }

  lemma BlobIsRead(s: Bytes, tail: Bytes)
    requires |s| < 0x1_0000_0000
    ensures ReadBlob(Blob(s, tail)) == Ok((s, tail))
  {
    Widths();
    BeIsRead(|s|, 4, s + tail);
    var d := s + tail;
    assert d[..|s|] == s && d[|s|..] == tail;
  }

  lemma TraceIsRead(traceId: u64, spanId: u64, tail: Bytes)
    ensures ReadTrace(traceId != 0, Trace(traceId, spanId, tail))
         == Ids(traceId, if traceId == 0 then 0 else spanId, tail)
  {
    hide Be, FromBe, Pow256;
    Widths();
    BeRoundTrip(traceId, 8);
    BeRoundTrip(spanId, 8);
    if traceId != 0 {
      var d := Trace(traceId, spanId, tail);
      assert d[..8] == Be(traceId, 8) && d[8..16] == Be(spanId, 8) && d[16..] == tail;
    }
  }

  lemma FlagsAreRead(a: bool, b: bool, c: bool, d: bool, e: bool)
    ensures var f := Mask(a, 1) + Mask(b, 2) + Mask(c, 4) + Mask(d, 8) + Mask(e, 16);
            f < 32 && Bit(f, 1) == a && Bit(f, 2) == b && Bit(f, 4) == c && Bit(f, 8) == d && Bit(f, 16) == e
  {
  }

  // ---------------------------------------------------------------- frames

  function Frame(opcode: u8, size: nat, body: Bytes): Bytes {
    [MAGIC, PROTOCOL_VERSION, opcode] + (Be(size, 4) + body)
  }

  /** The opcode and payload of the frame at the start of a buffer; bytes after it are not looked at. */
  function ParseFrame(f: Bytes): Result<(u8, Bytes)> {
    if |f| < HEADER_SIZE then Err("frame too small")
    else if f[0] != MAGIC then Err("bad magic")
    else if f[1] != PROTOCOL_VERSION then Err("bad version")
    else
      var size := FromBe(f[3..HEADER_SIZE]);
      if size > MAX_PAYLOAD then Err("payload too large")
      else if size > |f| - HEADER_SIZE then Err("truncated frame")
      else Ok((f[2], f[HEADER_SIZE..HEADER_SIZE + size]))
  }

  lemma FrameIsParsed(opcode: u8, body: Bytes, extra: Bytes)
    requires |body| <= MAX_PAYLOAD
    ensures ParseFrame(Frame(opcode, |body|, body) + extra) == Ok((opcode, body))
  {
    Widths();
    BeRoundTrip(|body|, 4);
    hide Be, FromBe;
    var f := Frame(opcode, |body|, body) + extra;
    assert f[3..7] == Be(|body|, 4) && f[7..7 + |body|] == body;
  }

  /** What is accepted as a frame: the magic and the protocol version, then a size that is allowed and all there. */
  lemma FrameAcceptedIff(f: Bytes)
    ensures ParseFrame(f).Ok?
       <==> && |f| >= 7 && f[0] == 0xC1 && f[1] == 5
            && FromBe(f[3..7]) <= 67_108_864 - 7 && FromBe(f[3..7]) <= |f| - 7
  {
    hide FromBe;
  }

  // ---------------------------------------------------------------- requests

  function RequestFlags(req: Request, token: Bytes): nat {
    Mask(req.ttl.Some?, HAS_TTL) + Mask(req.expiresAt.Some?, HAS_EXPIRES_AT) + Mask(req.traceId != 0, HAS_TRACE)
      + Mask(token != [], HAS_AUTH) + Mask(req.tombstone, HAS_TOMBSTONE)
  }

  function RequestTail(req: Request, token: Bytes): Bytes {
    Be(req.version, 8) + (Be(req.writer, 8) + Blob(req.key, Blob(req.value, Trace(req.traceId, req.spanId, token))))
  }

  function RequestBody(req: Request, token: Bytes): Bytes {
    Be(RequestFlags(req, token), 1) + OptBe(Ttl(req.ttl), 4, OptBe(Expiry(req.expiresAt), 8, RequestTail(req, token)))
  }

  /** The payload size as the encoder adds it up, the token not yet counted. */
  function RequestSize(req: Request): nat {
    4 + |req.key| + 4 + |req.value| + 16 + (if req.ttl.Some? then 4 else 0) + 1 + (if req.expiresAt.Some? then 8 else 0)
      + if req.traceId != 0 then 16 else 0
  }

  function EncodeRequest(req: Request, token: Bytes): Result<Bytes> {
    if RequestSize(req) > MAX_PAYLOAD then Err(TOO_LARGE)
    else if token != [] && |token| != TOKEN_SIZE then Err(BAD_TOKEN)
    else if RequestSize(req) + |token| > MAX_PAYLOAD then Err(TOO_LARGE)
    else Ok(Frame(req.opcode, RequestSize(req) + |token|, RequestBody(req, token)))
  }

  datatype Core = Core(version: u64, writer: u64, key: Bytes, value: Bytes)

  function ReadCore(d: Bytes): Result<(Core, Bytes)> {
    var (version, d) :- ReadU64(d);
    var (writer, d) :- ReadU64(d);
    var (key, d) :- ReadBlob(d);
    var (value, d) :- ReadBlob(d);
    Ok((Core(version, writer, key, value), d))
  }

  datatype Meta = Meta(flags: nat, ttl: Option<nat>, ms: Option<nat>)

  function ReadMeta(d: Bytes): Result<(Meta, Bytes)> {
    var (flags, d) :- ReadBe(d, 1);
    var (ttl, d) :- ReadOpt(Bit(flags, HAS_TTL), d, 4);
    var (ms, d) :- ReadExpiry(Bit(flags, HAS_EXPIRES_AT), d);
    Ok((Meta(flags, ttl, ms), d))
  }

  function ReadToken(present: bool, d: Bytes): Bytes {
    if present && |d| >= TOKEN_SIZE then d[..TOKEN_SIZE] else []
  }

  function DecodeBody(opcode: Opcode, d: Bytes): Result<Decoded> {
    var (m, d) :- ReadMeta(d);
    var (c, d) :- ReadCore(d);
    var ids := ReadTrace(Bit(m.flags, HAS_TRACE), d);
    var token := ReadToken(Bit(m.flags, HAS_AUTH), ids.rest);
    Ok(Decoded(Request(opcode, ids.traceId, ids.spanId, c.key, c.value, c.version, c.writer,
                       AsInt(m.ttl), FromMs(m.ms), Bit(m.flags, HAS_TOMBSTONE)), token))
  }

  function DecodeRequest(f: Bytes): Result<Decoded> {
    var (opcode, d) :- ParseFrame(f);
    if opcode < 1 || opcode > 16 then Err(UNKNOWN_OPCODE) else DecodeBody(opcode, d)
  }

  /** What the wire can carry of a request. */
  function Canonical(req: Request): Request {
    req.(ttl := AsInt(Ttl(req.ttl)), expiresAt := FromMs(Expiry(req.expiresAt)),
         spanId := if req.traceId == 0 then 0 else req.spanId)
  }

  lemma CoreIsRead(req: Request, token: Bytes)
    requires |req.key| < 0x1_0000_0000 && |req.value| < 0x1_0000_0000
    ensures ReadCore(RequestTail(req, token))
         == Ok((Core(req.version, req.writer, req.key, req.value), Trace(req.traceId, req.spanId, token)))
  {
    hide Be, ReadU64, ReadBlob, Blob;
    var t3 := Trace(req.traceId, req.spanId, token);
    var t2 := Blob(req.value, t3);
    var t1 := Blob(req.key, t2);
    U64IsRead(req.version, Be(req.writer, 8) + t1);
    U64IsRead(req.writer, t1);
    BlobIsRead(req.key, t2);
    BlobIsRead(req.value, t3);
  }

  lemma MetaIsRead(req: Request, token: Bytes)
    ensures ReadMeta(RequestBody(req, token))
         == if req.expiresAt.Some? && ToMs(req.expiresAt.value) > MAX_MS then Err(OVERFLOW)
            else Ok((Meta(RequestFlags(req, token), Ttl(req.ttl), Expiry(req.expiresAt)), RequestTail(req, token)))
  {
    Widths();
    FlagsAreRead(req.ttl.Some?, req.expiresAt.Some?, req.traceId != 0, token != [], req.tombstone);
    hide Be, FromBe, Pow256, ReadBe, RequestTail, ReadOpt, OptBe, Bit, Mask, ToMs;
    var t2 := RequestTail(req, token);
    var t1 := OptBe(Expiry(req.expiresAt), 8, t2);
    BeIsRead(RequestFlags(req, token), 1, OptBe(Ttl(req.ttl), 4, t1));
    OptIsRead(Ttl(req.ttl), 4, t1);
    MsFits(req.expiresAt);
    OptIsRead(Expiry(req.expiresAt), 8, t2);
  }

  lemma MsFits(at: Option<int>)
    ensures Expiry(at).Some? ==> Expiry(at).value < Pow256(8)
  {
    Widths();
  }

  /** The computed payload size is the number of bytes written. */
  lemma RequestBodySize(req: Request, token: Bytes)
    ensures |RequestBody(req, token)| == RequestSize(req) + |token|
  {
    hide Be;
  }

  lemma BodyRoundTrip(req: Request, token: Bytes)
    requires |req.key| < 0x1_0000_0000 && |req.value| < 0x1_0000_0000 && (token == [] || |token| == TOKEN_SIZE)
    ensures DecodeBody(req.opcode, RequestBody(req, token))
         == if req.expiresAt.Some? && ToMs(req.expiresAt.value) > MAX_MS then Err(OVERFLOW)
            else Ok(Decoded(Canonical(req), token))
  {
    FlagsAreRead(req.ttl.Some?, req.expiresAt.Some?, req.traceId != 0, token != [], req.tombstone);
    hide RequestBody, ReadMeta, ReadCore, ReadTrace, Trace, RequestTail, Bit, Mask, ToMs, Ttl, FromMs, AsInt, Expiry;
    MetaIsRead(req, token);
    CoreIsRead(req, token);
    TraceIsRead(req.traceId, req.spanId, token);
    assert token[..|token|] == token;
  }

  /** Decoding an encoded request, whatever follows it in the buffer, gives back what the wire can carry of it. */
  lemma RequestRoundTrip(req: Request, token: Bytes, extra: Bytes)
    requires EncodeRequest(req, token).Ok?
    ensures DecodeRequest(EncodeRequest(req, token).value + extra)
         == if req.expiresAt.Some? && ToMs(req.expiresAt.value) > MAX_MS then Err(OVERFLOW)
            else Ok(Decoded(Canonical(req), token))
  {
    hide RequestBody, ParseFrame, Frame, DecodeBody, Canonical, ToMs;
    RequestBodySize(req, token);
    FrameIsParsed(req.opcode, RequestBody(req, token), extra);
    BodyRoundTrip(req, token);
  }

  /** Times the wire carries exactly: whole milliseconds from the epoch up to the clock's end. */
  predicate WholeMs(at: Option<int>) {
    at.Some? ==> at.value >= 0 && at.value % NS_PER_MS == 0 && at.value / NS_PER_MS <= MAX_MS
  }

  predicate Representable(req: Request) {
    (req.ttl.Some? ==> 0 <= req.ttl.value < 0x1_0000_0000) && WholeMs(req.expiresAt)
    && (req.traceId == 0 ==> req.spanId == 0)
  }

  lemma WholeMsIff(at: Option<int>)
    ensures WholeMs(at) <==> (at.Some? ==> ToMs(at.value) <= MAX_MS) && FromMs(Expiry(at)) == at
  {
    if at.Some? {
      var q := TruncDiv(at.value, NS_PER_MS);
      if WholeMs(at) {
        assert ToMs(at.value) == q == at.value / NS_PER_MS;
      }
    }
  }

  /** A request comes back unchanged if and only if its times and ids fit the wire. */
  lemma RequestSurvivesIff(req: Request, token: Bytes, extra: Bytes)
    requires EncodeRequest(req, token).Ok?
    ensures DecodeRequest(EncodeRequest(req, token).value + extra) == Ok(Decoded(req, token)) <==> Representable(req)
  {
    hide EncodeRequest, DecodeRequest, ToMs, FromMs, Expiry, WholeMs;
    RequestRoundTrip(req, token, extra);
    WholeMsIff(req.expiresAt);
  }

  // ---------------------------------------------------------------- accepted frames

  lemma OptRange(present: bool, d: Bytes, n: nat)
    requires ReadOpt(present, d, n).Ok?
    ensures var (x, rest) := ReadOpt(present, d, n).value;
            x.Some? == present && (x.Some? ==> x.value < Pow256(n)) && |d| == |rest| + if present then n else 0
  {
    if present { BeInverse(d[..n]); }
  }

  lemma MetaRange(d: Bytes)
    requires ReadMeta(d).Ok?
    ensures var (m, rest) := ReadMeta(d).value;
            (m.ttl.Some? ==> m.ttl.value < 0x1_0000_0000) && (m.ms.Some? ==> m.ms.value <= MAX_MS)
            && |d| == |rest| + 1 + (if m.ttl.Some? then 4 else 0) + if m.ms.Some? then 8 else 0
  {
    Widths();
    hide Pow256, FromBe, Bit, ReadOpt;
    var (flags, d1) := ReadBe(d, 1).value;
    OptRange(Bit(flags, HAS_TTL), d1, 4);
    var (_, d2) := ReadOpt(Bit(flags, HAS_TTL), d1, 4).value;
    OptRange(Bit(flags, HAS_EXPIRES_AT), d2, 8);
  }

  lemma CoreRange(d: Bytes)
    requires ReadCore(d).Ok?
    ensures var (c, rest) := ReadCore(d).value; |d| == |rest| + 24 + |c.key| + |c.value|
  {
    hide U64, FromBe;
  }

  /** Every accepted request can be sent on, and is received there as it was received here. */
  lemma RequestFixedPoint(f: Bytes, extra: Bytes)
    requires DecodeRequest(f).Ok?
    ensures var d := DecodeRequest(f).value;
            EncodeRequest(d.req, d.token).Ok?
            && DecodeRequest(EncodeRequest(d.req, d.token).value + extra) == Ok(d)
  {
    var d := DecodeRequest(f).value;
    AcceptedFits(f);
    hide DecodeRequest, EncodeRequest;
    RequestSurvivesIff(d.req, d.token, extra);
  }

  lemma TraceRange(present: bool, d: Bytes)
    ensures var ids := ReadTrace(present, d);
            (ids.traceId == 0 ==> ids.spanId == 0) && |ids.rest| + (if ids.traceId != 0 then 16 else 0) <= |d|
  {
    hide U64;
  }

  lemma TokenRange(present: bool, d: Bytes)
    ensures var t := ReadToken(present, d); (t == [] || |t| == TOKEN_SIZE) && |t| <= |d|
  {
  }

  lemma BodyFits(opcode: Opcode, p: Bytes)
    requires DecodeBody(opcode, p).Ok?
    ensures var d := DecodeBody(opcode, p).value;
            Representable(d.req) && RequestSize(d.req) + |d.token| <= |p| && (d.token == [] || |d.token| == TOKEN_SIZE)
  {
    hide ReadMeta, ReadCore, ReadTrace, ReadToken, Bit, FromMs, WholeMs;
    MetaRange(p);
    var (m, p1) := ReadMeta(p).value;
    CoreRange(p1);
    var (c, p2) := ReadCore(p1).value;
    var ids := ReadTrace(Bit(m.flags, HAS_TRACE), p2);
    TraceRange(Bit(m.flags, HAS_TRACE), p2);
    TokenRange(Bit(m.flags, HAS_AUTH), ids.rest);
    ReadMsIsWhole(m.ms);
  }

  lemma ReadMsIsWhole(ms: Option<nat>)
    requires ms.Some? ==> ms.value <= MAX_MS
    ensures WholeMs(FromMs(ms)) && FromMs(ms).Some? == ms.Some?
  {
  }

  lemma PayloadBound(f: Bytes)
    requires ParseFrame(f).Ok?
    ensures |ParseFrame(f).value.1| <= MAX_PAYLOAD
  {
  }

  lemma AcceptedFits(f: Bytes)
    requires DecodeRequest(f).Ok?
    ensures var d := DecodeRequest(f).value; EncodeRequest(d.req, d.token).Ok? && Representable(d.req)
  {
    hide ParseFrame, DecodeBody, RequestBody, Frame, RequestSize, Representable;
    PayloadBound(f);
    var (opcode, p) := ParseFrame(f).value;
    BodyFits(opcode, p);
  }

  // ---------------------------------------------------------------- responses

  predicate HasVersion(res: Response) {
    res.version != 0 || res.writer != 0
  }

  function ResponseFlags(res: Response): nat {
    Mask(HasVersion(res), HAS_VERSION) + Mask(res.expiresAt.Some?, HAS_EXPIRES_AT) + Mask(res.traceId != 0, HAS_TRACE)
      + Mask(false, HAS_AUTH) + Mask(res.tombstone, HAS_TOMBSTONE)
  }

  function VersionMeta(res: Response, tail: Bytes): Bytes {
    if HasVersion(res) then Be(res.version, 8) + (Be(res.writer, 8) + tail) else tail
  }

  function ValueOf(value: Option<Bytes>): Bytes {
    if value.Some? then value.value else []
  }

  function ResponseTail(res: Response): Bytes {
    Be(if res.value.Some? then 1 else 0, 4) + (ValueOf(res.value) + Trace(res.traceId, res.spanId, []))
  }

  function ResponseBody(res: Response): Bytes {
    Be(res.status, 1) + (Be(ResponseFlags(res), 1) +
      VersionMeta(res, OptBe(Expiry(res.expiresAt), 8, ResponseTail(res))))
  }

  function ResponseSize(res: Response): nat {
    6 + (if HasVersion(res) then 16 else 0) + (if res.expiresAt.Some? then 8 else 0) + |ValueOf(res.value)|
      + if res.traceId != 0 then 16 else 0
  }

  function EncodeResponse(res: Response): Result<Bytes> {
    if ResponseSize(res) > MAX_PAYLOAD then Err(TOO_LARGE) else Ok(Frame(0, ResponseSize(res), ResponseBody(res)))
  }

  datatype Version = Version(version: u64, writer: u64)

  function ReadVersion(present: bool, d: Bytes): Result<(Version, Bytes)> {
    if !present then Ok((Version(0, 0), d))
    else
      var (version, d) :- ReadU64(d);
      var (writer, d) :- ReadU64(d);
      Ok((Version(version, writer), d))
  }

  /** The value is everything up to the trace; when too little is left for both, it is empty. */
  function ReadValue(trace: bool, d: Bytes): Result<(Option<Bytes>, Bytes)> {
    var (has, d) :- ReadBe(d, 4);
    if has == 0 then Ok((None, d))
    else
      var reserved := if trace then 16 else 0;
      var n := if |d| > reserved then |d| - reserved else 0;
      Ok((Some(d[..n]), d[n..]))
  }

  /** A payload may end right after the status byte. */
  function ReadFlags(d: Bytes): (nat, Bytes) {
    if d == [] then (0, d) else (d[0], d[1..])
  }

  function DecodeResponseBody(d: Bytes): Result<Response> {
    if d == [] then Err(TRUNCATED)
    else
      var status := d[0];
      var (flags, d) := ReadFlags(d[1..]);
      var (v, d) :- ReadVersion(Bit(flags, HAS_VERSION), d);
      var (ms, d) :- ReadExpiry(Bit(flags, HAS_EXPIRES_AT), d);
      var (value, d) :- ReadValue(Bit(flags, HAS_TRACE), d);
      var ids := ReadTrace(Bit(flags, HAS_TRACE), d);
      Ok(Response(status, value, v.version, v.writer, FromMs(ms), Bit(flags, HAS_TOMBSTONE), ids.traceId, ids.spanId))
  }

  function DecodeResponse(f: Bytes): Result<Response> {
    var (_, d) :- ParseFrame(f);
    DecodeResponseBody(d)
  }

  function CanonicalResponse(res: Response): Response {
    res.(expiresAt := FromMs(Expiry(res.expiresAt)), spanId := if res.traceId == 0 then 0 else res.spanId)
  }

  lemma ResponseBodySize(res: Response)
    ensures |ResponseBody(res)| == ResponseSize(res)
  {
    hide Be;
  }

  lemma VersionIsRead(res: Response, tail: Bytes)
    ensures ReadVersion(HasVersion(res), VersionMeta(res, tail)) == Ok((Version(res.version, res.writer), tail))
  {
    hide Be, ReadU64;
    if HasVersion(res) {
      U64IsRead(res.version, Be(res.writer, 8) + tail);
      U64IsRead(res.writer, tail);
    }
  }

  lemma ExpiryIsRead(at: Option<int>, tail: Bytes)
    ensures ReadExpiry(at.Some?, OptBe(Expiry(at), 8, tail))
         == if at.Some? && ToMs(at.value) > MAX_MS then Err(OVERFLOW) else Ok((Expiry(at), tail))
  {
    hide ReadOpt, OptBe, ToMs;
    MsFits(at);
    OptIsRead(Expiry(at), 8, tail);
  }

  lemma ValueIsRead(res: Response)
    ensures ReadValue(res.traceId != 0, ResponseTail(res)) == Ok((res.value, Trace(res.traceId, res.spanId, [])))
  {
    Widths();
    var has: nat := if res.value.Some? then 1 else 0;
    var rest := ValueOf(res.value) + Trace(res.traceId, res.spanId, []);
    BeIsRead(has, 4, rest);
    hide Be, ReadBe;
    var n := |ValueOf(res.value)|;
    assert rest[..n] == ValueOf(res.value) && rest[n..] == Trace(res.traceId, res.spanId, []);
  }

  lemma ByteOf(x: u8)
    ensures Be(x, 1) == [x]
  {
    assert Be(x / 256, 0) == [];
  }

  lemma ResponseBodyRoundTrip(res: Response)
    ensures DecodeResponseBody(ResponseBody(res))
         == if res.expiresAt.Some? && ToMs(res.expiresAt.value) > MAX_MS then Err(OVERFLOW)
            else Ok(CanonicalResponse(res))
  {
    FlagsAreRead(HasVersion(res), res.expiresAt.Some?, res.traceId != 0, false, res.tombstone);
    var flags := ResponseFlags(res);
    ByteOf(res.status);
    ByteOf(flags);
    hide Be, ReadVersion, ReadExpiry, ReadValue, ReadTrace, VersionMeta, OptBe, ResponseTail, Trace, Bit, Mask, ToMs,
         FromMs, Expiry, HasVersion;
    var t2 := ResponseTail(res);
    var t1 := OptBe(Expiry(res.expiresAt), 8, t2);
    var t0 := VersionMeta(res, t1);
    var d := ResponseBody(res);
    assert d[1..] == [flags] + t0 && ([flags] + t0)[1..] == t0;
    VersionIsRead(res, t1);
    ExpiryIsRead(res.expiresAt, t2);
    ValueIsRead(res);
    TraceIsRead(res.traceId, res.spanId, []);
  }

  /** Decoding an encoded response, whatever follows it in the buffer, gives back what the wire can carry of it. */
  lemma ResponseRoundTrip(res: Response, extra: Bytes)
    requires EncodeResponse(res).Ok?
    ensures DecodeResponse(EncodeResponse(res).value + extra)
         == if res.expiresAt.Some? && ToMs(res.expiresAt.value) > MAX_MS then Err(OVERFLOW)
            else Ok(CanonicalResponse(res))
  {
    hide ResponseBody, ParseFrame, Frame, DecodeResponseBody, CanonicalResponse, ToMs, ResponseSize;
    ResponseBodySize(res);
    FrameIsParsed(0, ResponseBody(res), extra);
    ResponseBodyRoundTrip(res);
  }

  predicate RepresentableResponse(res: Response) {
    WholeMs(res.expiresAt) && (res.traceId == 0 ==> res.spanId == 0)
  }

  /** A response comes back unchanged if and only if its expiry and ids fit the wire. */
  lemma ResponseSurvivesIff(res: Response, extra: Bytes)
    requires EncodeResponse(res).Ok?
    ensures DecodeResponse(EncodeResponse(res).value + extra) == Ok(res) <==> RepresentableResponse(res)
  {
    hide EncodeResponse, DecodeResponse, ToMs, FromMs, Expiry, WholeMs;
    ResponseRoundTrip(res, extra);
    WholeMsIff(res.expiresAt);
  }

  lemma VersionRange(present: bool, d: Bytes)
    requires ReadVersion(present, d).Ok?
    ensures var (v, rest) := ReadVersion(present, d).value;
            |rest| + (if v.version != 0 || v.writer != 0 then 16 else 0) <= |d|
  {
    hide U64;
  }

  lemma ExpiryRange(present: bool, d: Bytes)
    requires ReadExpiry(present, d).Ok?
    ensures var (ms, rest) := ReadExpiry(present, d).value;
            (ms.Some? ==> ms.value <= MAX_MS) && |d| == |rest| + if ms.Some? then 8 else 0
  {
    hide FromBe;
  }

  lemma ValueRange(trace: bool, d: Bytes)
    requires ReadValue(trace, d).Ok?
    ensures var (v, rest) := ReadValue(trace, d).value; |rest| + |ValueOf(v)| + 4 == |d|
  {
    hide FromBe;
  }

  lemma ResponseBodyFits(p: Bytes)
    requires DecodeResponseBody(p).Ok?
    ensures var r := DecodeResponseBody(p).value; RepresentableResponse(r) && ResponseSize(r) <= |p|
  {
    hide ReadVersion, ReadExpiry, ReadValue, ReadTrace, Bit, FromMs, WholeMs, ValueOf;
    var (flags, d) := ReadFlags(p[1..]);
    VersionRange(Bit(flags, HAS_VERSION), d);
    var (v, d1) := ReadVersion(Bit(flags, HAS_VERSION), d).value;
    ExpiryRange(Bit(flags, HAS_EXPIRES_AT), d1);
    var (ms, d2) := ReadExpiry(Bit(flags, HAS_EXPIRES_AT), d1).value;
    ReadMsIsWhole(ms);
    ValueRange(Bit(flags, HAS_TRACE), d2);
    var (value, d3) := ReadValue(Bit(flags, HAS_TRACE), d2).value;
    TraceRange(Bit(flags, HAS_TRACE), d3);
  }

  /** Every accepted response can be sent on, and is received there as it was received here. */
  lemma ResponseFixedPoint(f: Bytes, extra: Bytes)
    requires DecodeResponse(f).Ok?
    ensures var r := DecodeResponse(f).value;
            EncodeResponse(r).Ok? && DecodeResponse(EncodeResponse(r).value + extra) == Ok(r)
  {
    var (_, p) := ParseFrame(f).value;
    PayloadBound(f);
    ResponseBodyFits(p);
    var r := DecodeResponse(f).value;
    hide ParseFrame, DecodeResponseBody, ResponseBody, Frame, ResponseSize, RepresentableResponse;
    ResponseSurvivesIff(r, extra);
  }
}
