/** Small shared vocabulary: optional values, results and fixed-width integers. */
module Common {

  datatype Option<+T> = None | Some(value: T)

  /** A value, or the reason a call was refused. */
  datatype Result<+T> = Ok(value: T) | Err(error: string) {
    predicate IsFailure() { Err? }
    function PropagateFailure<U>(): Result<U> requires Err? { Err(error) }
    function Extract(): T requires Ok? { value }
  }

  type u8 = x: nat | x < 0x100
  type u32 = x: nat | x < 0x1_0000_0000
  type u64 = x: nat | x < 0x1_0000_0000_0000_0000

  /** A C++ `std::string`: a sequence of bytes. */
  type Bytes = seq<u8>
  type Key = Bytes
  type NodeId = Bytes

  type Opcode = x: u8 | 1 <= x <= 16 witness 1
  const REPLICATE: Opcode := 6

  /** The inter-node request. Deadlines count nanoseconds since the epoch, `ttl` milliseconds. */
  datatype Request = Request(
    opcode: Opcode,
    traceId: u64,
    spanId: u64,
    key: Key,
    value: Bytes,
    version: u64,
    writer: u64,
    ttl: Option<int>,
    expiresAt: Option<int>,
    tombstone: bool)

  /** No value occurs at two positions. */
  ghost predicate Distinct<T>(s: seq<T>) {
    forall i, j :: 0 <= i < j < |s| ==> s[i] != s[j]
  }

  ghost function Elements<T>(s: seq<T>): set<T> {
    set x | x in s
  }

  lemma {:induction false} DistinctSize<T>(s: seq<T>, m: set<T>)
    requires Distinct(s) && forall x :: x in s <==> x in m
    ensures |s| == |m|
  {
    if s == [] {
      assert m == {};
    } else {
      var x := s[|s| - 1];
      assert s == s[..|s| - 1] + [x];
      DistinctSize(s[..|s| - 1], m - {x});
    }
  }

  lemma SubsetSize<T>(a: set<T>, b: set<T>)
    requires a <= b
    ensures |a| <= |b|
  {
    assert b == a + (b - a);
  }

  function RemoveAt<T>(s: seq<T>, k: nat): (r: seq<T>)
    requires k < |s|
  {
    s[..k] + s[k + 1..]
  }
}
