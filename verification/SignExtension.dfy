/** The sign extensions of 24-bit and 48-bit numbers, on the words that hold them. */
module SignExtension {
  /** The low 24 bits of a word. */
  function To24(x: bv32): bv32 {
    x & 0xFF_FFFF
  }

  /** The low 24 bits, with all the bits above them set if the highest of them is. */
  function From24(x: bv32): bv32 {
    (x & 0xFF_FFFF) | (if x & 0x80_0000 != 0 then 0xFF00_0000 else 0)
  }

  function To48(x: bv64): bv64 {
    x & 0xFFFF_FFFF_FFFF
  }

  function From48(x: bv64): bv64 {
    (x & 0xFFFF_FFFF_FFFF) | (if x & 0x8000_0000_0000 != 0 then 0xFFFF_0000_0000_0000 else 0)
  }

  lemma OnlyInRange24(x: bv32)
    requires From24(To24(x)) == x
    ensures x <= 0x7F_FFFF || x >= 0xFF80_0000
  {
  }

  lemma NonNegative24(x: bv32)
    requires x <= 0x7F_FFFF
    ensures From24(To24(x)) == x
  {
  }

  lemma Negative24(x: bv32)
    requires x >= 0xFF80_0000
    ensures From24(To24(x)) == x
  {
  }

  /** Narrowing and extending gives back exactly the words of the 24-bit signed range. */
  lemma RoundTrip24(x: bv32)
    ensures From24(To24(x)) == x <==> x <= 0x7F_FFFF || x >= 0xFF80_0000
  {
    if From24(To24(x)) == x {
      OnlyInRange24(x);
    } else if x <= 0x7F_FFFF {
      NonNegative24(x);
    } else if x >= 0xFF80_0000 {
      Negative24(x);
    }
  }

  lemma OnlyInRange48(x: bv64)
    requires From48(To48(x)) == x
    ensures x <= 0x7FFF_FFFF_FFFF || x >= 0xFFFF_8000_0000_0000
  {
  }

  lemma NonNegative48(x: bv64)
    requires x <= 0x7FFF_FFFF_FFFF
    ensures From48(To48(x)) == x
  {
  }

  lemma Negative48(x: bv64)
    requires x >= 0xFFFF_8000_0000_0000
    ensures From48(To48(x)) == x
  {
  }

  /** Narrowing and extending gives back exactly the words of the 48-bit signed range. */
  lemma RoundTrip48(x: bv64)
    ensures From48(To48(x)) == x <==> x <= 0x7FFF_FFFF_FFFF || x >= 0xFFFF_8000_0000_0000
  {
    if From48(To48(x)) == x {
      OnlyInRange48(x);
    } else if x <= 0x7FFF_FFFF_FFFF {
      NonNegative48(x);
    } else if x >= 0xFFFF_8000_0000_0000 {
      Negative48(x);
    }
  }

  /** Extending keeps the low 24 bits, and extending twice is extending once. */
  lemma ExtendKeepsLow24(x: bv32)
    ensures To24(From24(x)) == To24(x) && From24(From24(x)) == From24(x)
  {
  }

  lemma ExtendKeepsLow48(x: bv64)
    ensures To48(From48(x)) == To48(x) && From48(From48(x)) == From48(x)
  {
  }

  /** Narrowing clears the bits above the low 24 and keeps those. */
  lemma NarrowClears24(x: bv32)
    ensures To24(x) <= 0xFF_FFFF && (To24(x) ^ x) & 0xFF_FFFF == 0
  {
  }

  lemma NarrowClears48(x: bv64)
    ensures To48(x) <= 0xFFFF_FFFF_FFFF && (To48(x) ^ x) & 0xFFFF_FFFF_FFFF == 0
  {
  }

  /** Whatever the bits above the low 24 are, extending ignores them and lands in the signed range. */
  lemma ExtendIgnoresHigh24(x: bv32)
    ensures From24(x) == From24(To24(x))
    ensures From24(x) <= 0x7F_FFFF || From24(x) >= 0xFF80_0000
  {
  }

  lemma ExtendIgnoresHigh48(x: bv64)
    ensures From48(x) == From48(To48(x))
    ensures From48(x) <= 0x7FFF_FFFF_FFFF || From48(x) >= 0xFFFF_8000_0000_0000
  {
  }
}
