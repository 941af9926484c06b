/** Bit vectors kept in an array of bytes, eight bits to a byte, lowest bit first. */
module BitVectors {
  /** 1 << k, on a byte. */
  function Mask(k: nat): bv8
    requires k < 8
  {
    if k == 0 then 0x01 else if k == 1 then 0x02 else if k == 2 then 0x04 else if k == 3 then 0x08
    else if k == 4 then 0x10 else if k == 5 then 0x20 else if k == 6 then 0x40 else 0x80
  }

  /** value << k, stored back into a byte. */
  function Shifted(value: bv8, k: nat): bv8
    requires k < 8
  {
    if k == 0 then value else if k == 1 then value << 1 else if k == 2 then value << 2 else if k == 3 then value << 3
    else if k == 4 then value << 4 else if k == 5 then value << 5 else if k == 6 then value << 6 else value << 7
  }

  lemma MaskIsShift(k: nat)
    requires k < 8
    ensures Mask(k) == 1 << k
  {
  }

  lemma ShiftedIsShift(value: bv8, k: nat)
    requires k < 8
    ensures Shifted(value, k) == value << k
  {
  }

  predicate Bit(b: bv8, k: nat)
    requires k < 8
  {
    b & Mask(k) != 0
  }

  /** The bit is the k-th binary digit. */
  lemma BitIsDigit(b: bv8, k: nat)
    requires k < 8
    ensures Bit(b, k) <==> (b >> k) & 1 == 1
  {
  }

  function SizeOf(bitCount: nat): nat {
    (bitCount + 7) / 8
  }

  /** The n-th bit of the vector. */
  predicate Check(vector: seq<bv8>, n: nat)
    requires n < 8 * |vector|
  {
    Bit(vector[n / 8], n % 8)
  }

  lemma SetBit(b: bv8, k: nat, j: nat)
    requires k < 8 && j < 8
    ensures Bit(b | Mask(k), j) == (j == k || Bit(b, j))
  {
  }

  lemma ClearBit(b: bv8, k: nat, j: nat)
    requires k < 8 && j < 8
    ensures Bit(b & !Mask(k), j) == (j != k && Bit(b, j))
  {
  }

  lemma OrBit(a: bv8, b: bv8, j: nat)
    requires j < 8
    ensures Bit(a | b, j) == (Bit(a, j) || Bit(b, j))
  {
  }

  /** The lowest bit of the value lands on position k. */
  lemma ShiftedBit(value: bv8, k: nat)
    requires k < 8
    ensures Bit(Shifted(value, k), k) == (value & 1 == 1)
  {
  }

  function Assigned(b: bv8, value: bv8, k: nat): bv8
    requires k < 8
  {
    (b & !Mask(k)) | Shifted(value, k)
  }

  lemma AssignBit(b: bv8, value: bv8, k: nat, j: nat)
    requires k < 8 && j < 8
    ensures Bit(Assigned(b, value, k), j) == if j == k then value & 1 == 1 else Bit(b, j) || Bit(Shifted(value, k), j)
  {
    OrBit(b & !Mask(k), Shifted(value, k), j);
    ClearBit(b, k, j);
    ShiftedBit(value, k);
  }

  /** The bits of a value that land in the byte when it is shifted by k: 0xFF >> k. */
  function Landing(k: nat): bv8
    requires k < 8
  {
    if k == 0 then 0xFF else if k == 1 then 0x7F else if k == 2 then 0x3F else if k == 3 then 0x1F
    else if k == 4 then 0x0F else if k == 5 then 0x07 else if k == 6 then 0x03 else 0x01
  }

  lemma LandingIsShift(k: nat)
    requires k < 8
    ensures Landing(k) == 0xFF >> k
  {
  }

  /** A value with at most its lowest bit landing in the byte spills nothing. */
  lemma NoSpill(value: bv8, k: nat, j: nat)
    requires k < 8 && j < 8 && j != k && value & Landing(k) <= 1
    ensures !Bit(Shifted(value, k), j)
  {
  }

  /** Any other value sets the bit of some neighbour. */
  lemma Spill(value: bv8, k: nat) returns (j: nat)
    requires k < 8 && value & Landing(k) > 1
    ensures j < 8 && j != k && Bit(Shifted(value, k), j)
  {
    if k < 7 && Bit(Shifted(value, k), k + 1) {
      j := k + 1;
    } else if k < 6 && Bit(Shifted(value, k), k + 2) {
      j := k + 2;
    } else if k < 5 && Bit(Shifted(value, k), k + 3) {
      j := k + 3;
    } else if k < 4 && Bit(Shifted(value, k), k + 4) {
      j := k + 4;
    } else if k < 3 && Bit(Shifted(value, k), k + 5) {
      j := k + 5;
    } else if k < 2 && Bit(Shifted(value, k), k + 6) {
      j := k + 6;
    } else {
      j := k + 7;
    }
  }

  /**
   Assigning leaves the neighbours of position k alone in every byte exactly for the values
   of which at most the lowest bit lands in the byte.
   */
  lemma AssignCleanExactly(value: bv8, k: nat)
    requires k < 8
    ensures (forall b: bv8, j: nat :: j < 8 && j != k ==> Bit(Assigned(b, value, k), j) == Bit(b, j))
      <==> value & Landing(k) <= 1
  {
    if value & Landing(k) <= 1 {
      forall b: bv8, j: nat | j < 8 && j != k ensures Bit(Assigned(b, value, k), j) == Bit(b, j) {
        AssignBit(b, value, k, j);
        NoSpill(value, k, j);
      }
    } else {
      var j := Spill(value, k);
      AssignBit(0, value, k, j);
      assert !Bit(0, j);
    }
  }

  /** Assigning 2 to bit 0 of an empty byte sets bit 1 and leaves bit 0 clear. */
  lemma AssignTwo()
    ensures Assigned(0, 2, 0) == 2 && Bit(2, 1) && !Bit(2, 0)
  {
  }

  method Set(vector: array<bv8>, n: nat)
    requires n < 8 * vector.Length
    modifies vector
    ensures vector[..] == old(vector[..])[n / 8 := old(vector[n / 8]) | Mask(n % 8)]
    ensures forall m :: 0 <= m < 8 * vector.Length ==> Check(vector[..], m) == (m == n || old(Check(vector[..], m)))
  {
    ghost var before := vector[..];
    vector[n / 8] := vector[n / 8] | Mask(n % 8);
    forall m | 0 <= m < 8 * vector.Length ensures Check(vector[..], m) == (m == n || Check(before, m)) {
      SetBit(before[n / 8], n % 8, m % 8);
    }
  }

  method Clear(vector: array<bv8>, n: nat)
    requires n < 8 * vector.Length
    modifies vector
    ensures vector[..] == old(vector[..])[n / 8 := old(vector[n / 8]) & !Mask(n % 8)]
    ensures forall m :: 0 <= m < 8 * vector.Length ==> Check(vector[..], m) == (m != n && old(Check(vector[..], m)))
  {
    ghost var before := vector[..];
    vector[n / 8] := vector[n / 8] & !Mask(n % 8);
    forall m | 0 <= m < 8 * vector.Length ensures Check(vector[..], m) == (m != n && Check(before, m)) {
      ClearBit(before[n / 8], n % 8, m % 8);
    }
  }

  method Assign(vector: array<bv8>, n: nat, value: bv8)
    requires n < 8 * vector.Length
    modifies vector
    ensures vector[..] == old(vector[..])[n / 8 := Assigned(old(vector[n / 8]), value, n % 8)]
    ensures Check(vector[..], n) == (value & 1 == 1)
    ensures forall m :: 0 <= m < 8 * vector.Length && m != n ==>
              Check(vector[..], m) ==
                (old(Check(vector[..], m)) || (m / 8 == n / 8 && Bit(Shifted(value, n % 8), m % 8)))
    ensures value & Landing(n % 8) <= 1 ==>
              forall m :: 0 <= m < 8 * vector.Length && m != n ==> Check(vector[..], m) == old(Check(vector[..], m))
  {
    ghost var before := vector[..];
    vector[n / 8] := (vector[n / 8] & !Mask(n % 8)) | Shifted(value, n % 8);
    assert vector[n / 8] == Assigned(before[n / 8], value, n % 8);
    AssignBit(before[n / 8], value, n % 8, n % 8);
    forall m | 0 <= m < 8 * vector.Length && m != n
      ensures Check(vector[..], m) == (Check(before, m) || (m / 8 == n / 8 && Bit(Shifted(value, n % 8), m % 8)))
      ensures value & Landing(n % 8) <= 1 ==> Check(vector[..], m) == Check(before, m)
    {
      AssignBit(before[n / 8], value, n % 8, m % 8);
      if m / 8 == n / 8 && value & Landing(n % 8) <= 1 {
        NoSpill(value, n % 8, m % 8);
      }
    }
  }

  /** A vector sized for n bits has room for each of them and no byte to spare. */
  lemma SizeIsExact(n: nat)
    ensures n <= 8 * SizeOf(n) < n + 8
  {
  }
}
