/** A stored entry's version word: the version shifted up by two, over a delete marker bit and a deadline bit. */
module PackedEntry {

  /** Versions that fit the 62 bits left for them. */
  predicate Fits(v: bv64) {
    v < 0x4000_0000_0000_0000
  }

  function VersionOf(word: bv64): bv64 {
    word >> 2
  }

  predicate HasTtl(word: bv64) {
    word & 1 != 0
  }

  predicate IsTombstone(word: bv64) {
    word & 2 != 0
  }

  /** Clearing or setting bit 0 leaves the rest alone. */
  lemma LowBit(word: bv64)
    ensures var off := word & 0xFFFF_FFFF_FFFF_FFFE;
            !HasTtl(off) && VersionOf(off) == VersionOf(word) && IsTombstone(off) == IsTombstone(word)
    ensures var on := (word & 0xFFFF_FFFF_FFFF_FFFE) | 1;
            HasTtl(on) && VersionOf(on) == VersionOf(word) && IsTombstone(on) == IsTombstone(word)
  {
  }

  /** Clearing or setting bit 1 leaves the rest alone. */
  lemma MiddleBit(word: bv64)
    ensures var off := word & 0xFFFF_FFFF_FFFF_FFFD;
            !IsTombstone(off) && VersionOf(off) == VersionOf(word) && HasTtl(off) == HasTtl(word)
    ensures var on := (word & 0xFFFF_FFFF_FFFF_FFFD) | 2;
            IsTombstone(on) && VersionOf(on) == VersionOf(word) && HasTtl(on) == HasTtl(word)
  {
  }

  class VersionedEntry {
    var word: bv64

    constructor ()
      ensures word == 0
    {
      word := 0;
    }

    /** The version reads back as written exactly when it fits; the two bits are left alone either way. */
    method SetVersion(v: bv64)
      modifies this
      ensures VersionOf(word) == v <==> Fits(v)
      ensures HasTtl(word) == HasTtl(old(word)) && IsTombstone(word) == IsTombstone(old(word))
    {
      word := (v << 2) | (word & 3);
    }

    method SetHasTtl(ttl: bool)
      modifies this
      ensures HasTtl(word) == ttl
      ensures VersionOf(word) == VersionOf(old(word)) && IsTombstone(word) == IsTombstone(old(word))
    {
      LowBit(word);
      if ttl {
        word := (word & 0xFFFF_FFFF_FFFF_FFFE) | 1;
      } else {
        word := word & 0xFFFF_FFFF_FFFF_FFFE;
      }
    }

    method SetTombstone(tombstone: bool)
      modifies this
      ensures IsTombstone(word) == tombstone
      ensures VersionOf(word) == VersionOf(old(word)) && HasTtl(word) == HasTtl(old(word))
    {
      MiddleBit(word);
      if tombstone {
        word := (word & 0xFFFF_FFFF_FFFF_FFFD) | 2;
      } else {
        word := word & 0xFFFF_FFFF_FFFF_FFFD;
      }
    }

    /** Version and deadline bit together; this one clears the delete marker. */
    method SetVersionAndTtl(v: bv64, ttl: bool)
      modifies this
      ensures (VersionOf(word) == v <==> Fits(v)) && HasTtl(word) == ttl && !IsTombstone(word)
    {
      word := (v << 2) | (if ttl then 1 else 0);
    }
  }
}
