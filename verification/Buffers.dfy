/** Cursors over byte buffers: the writer into a buffer sized beforehand, the reader bounded by its end. */
module Buffers {
  import opened Common
  import opened Codec

  /** Writes integers and strings one after another into a buffer sized beforehand. */
  class BufferWriter {
    const buf: array<u8>
    var offset: nat

    ghost predicate Valid()
      reads this
    {
      offset <= buf.Length
    }

    ghost function Written(): Bytes
      requires Valid()
      reads this, buf
    {
      buf[..offset]
    }

    constructor (buf: array<u8>)
      ensures this.buf == buf && offset == 0 && Valid()
    {
      this.buf := buf;
      offset := 0;
    }

    method WriteBytes(s: Bytes)
      requires Valid() && offset + |s| <= buf.Length
      modifies this, buf
      ensures Valid() && offset == old(offset) + |s|
      ensures Written() == old(Written()) + s
    {
      var i := 0;
      while i < |s|
        invariant 0 <= i <= |s| && offset == old(offset)
        invariant buf[..offset + i] == old(buf[..offset]) + s[..i]
      {
        buf[offset + i] := s[i];
        i := i + 1;
      }
      offset := offset + |s|;
    }

    method WriteLe(x: nat, n: nat)
      requires Valid() && offset + n <= buf.Length
      modifies this, buf
      ensures Valid() && offset == old(offset) + n
      ensures Written() == old(Written()) + Le(x, n)
    {
      WriteBytes(Le(x, n));
    }

    method WriteBe(x: nat, n: nat)
      requires Valid() && offset + n <= buf.Length
      modifies this, buf
      ensures Valid() && offset == old(offset) + n
      ensures Written() == old(Written()) + Be(x, n)
    {
      WriteBytes(Be(x, n));
    }
  }

  /** A bounded cursor over an image; a read past the end fails without moving. */
  class BufferReader {
    const data: Bytes
    var pos: nat

    ghost predicate Valid()
      reads this
    {
      pos <= |data|
    }

    ghost function Rest(): Bytes
      requires Valid()
      reads this
    {
      data[pos..]
    }

    constructor (data: Bytes, pos: nat)
      ensures Valid() && this.data == data && this.pos == if pos <= |data| then pos else |data|
    {
      this.data := data;
      this.pos := if pos <= |data| then pos else |data|;
    }

    method ReadBytes(n: nat) returns (r: Option<Bytes>)
      requires Valid()
      modifies this
      ensures Valid() && old(pos) <= pos
      ensures if n > |old(Rest())| then r == None && Rest() == old(Rest())
              else r == Some(old(Rest())[..n]) && Rest() == old(Rest())[n..]
    {
      if n > |data| - pos { return None; }
      assert data[pos..][..n] == data[pos..pos + n];
      r := Some(data[pos..pos + n]);
      pos := pos + n;
    }

    method ReadLe(n: nat) returns (r: Option<nat>)
      requires Valid()
      modifies this
      ensures Valid() && old(pos) <= pos
      ensures if n > |old(Rest())| then r == None && Rest() == old(Rest())
              else r == Some(FromLe(old(Rest())[..n])) && Rest() == old(Rest())[n..]
    {
      var s := ReadBytes(n);
      r := if s == None then None else Some(FromLe(s.value));
    }

    method ReadBe(n: nat) returns (r: Option<nat>)
      requires Valid()
      modifies this
      ensures Valid() && old(pos) <= pos
      ensures if n > |old(Rest())| then r == None && Rest() == old(Rest())
              else r == Some(FromBe(old(Rest())[..n])) && Rest() == old(Rest())[n..]
    {
      var s := ReadBytes(n);
      r := if s == None then None else Some(FromBe(s.value));
    }
  }
}
