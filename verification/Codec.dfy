/** Fixed-width integers as bytes: little-endian on disk, big-endian on the wire. */
module Codec {
  import opened Common

  function Pow256(n: nat): (r: nat)
    ensures r > 0
  {
    if n == 0 then 1 else 256 * Pow256(n - 1)
  }

  lemma Widths()
    ensures Pow256(1) == 0x100
    ensures Pow256(4) == 0x1_0000_0000
    ensures Pow256(8) == 0x1_0000_0000_0000_0000
  {
    assert Pow256(2) == 0x1_0000;
    assert Pow256(3) == 0x100_0000;
    assert Pow256(5) == 0x100_0000_0000;
    assert Pow256(6) == 0x1_0000_0000_0000;
    assert Pow256(7) == 0x100_0000_0000_0000;
  }

  /** The low `n` bytes of `x`, least significant first. */
  function Le(x: nat, n: nat): (r: Bytes)
    ensures |r| == n
  {
    if n == 0 then [] else [x % 256] + Le(x / 256, n - 1)
  }

  function FromLe(s: Bytes): nat {
    if s == [] then 0 else s[0] + 256 * FromLe(s[1..])
  }

  /** The low `n` bytes of `x`, most significant first. */
  function Be(x: nat, n: nat): (r: Bytes)
    ensures |r| == n
  {
    if n == 0 then [] else Be(x / 256, n - 1) + [x % 256]
  }

  function FromBe(s: Bytes): nat {
    if s == [] then 0 else 256 * FromBe(s[..|s| - 1]) + s[|s| - 1]
  }

  lemma {:induction false} LeRoundTrip(x: nat, n: nat)
    requires x < Pow256(n)
    ensures FromLe(Le(x, n)) == x
  {
    if n == 0 {
    } else {
      assert Le(x, n)[1..] == Le(x / 256, n - 1);
      LeRoundTrip(x / 256, n - 1);
    }
  }

  lemma {:induction false} LeInverse(s: Bytes)
    ensures FromLe(s) < Pow256(|s|)
    ensures Le(FromLe(s), |s|) == s
  {
    if s == [] {
    } else {
      var x := FromLe(s[1..]);
      LeInverse(s[1..]);
      assert (s[0] + 256 * x) % 256 == s[0] && (s[0] + 256 * x) / 256 == x;
      assert s == [s[0]] + s[1..];
    }
  }

  lemma {:induction false} BeRoundTrip(x: nat, n: nat)
    requires x < Pow256(n)
    ensures FromBe(Be(x, n)) == x
  {
    if n == 0 {
    } else {
      var b := Be(x, n);
      assert b[..|b| - 1] == Be(x / 256, n - 1);
      BeRoundTrip(x / 256, n - 1);
    }
  }

  lemma {:induction false} BeInverse(s: Bytes)
    ensures FromBe(s) < Pow256(|s|)
    ensures Be(FromBe(s), |s|) == s
  {
    if s == [] {
    } else {
      var init, last := s[..|s| - 1], s[|s| - 1];
      BeInverse(init);
      assert s == init + [last];
    }
  }
}
