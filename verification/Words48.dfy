/**
 Split 48-bit counters, their comparison, and the addition of a signed 24-bit value to them.
 */
module Words48 {
  import opened Words

  const HIGH := 0x1_0000

  const WORD48 := 0x1_0000_0000_0000

  type UInt16 = x: int | 0 <= x < 0x1_0000

  type Int8 = x: int | -0x80 <= x < 0x80

  datatype Int24 = Int24(high: Int8, low: UInt16)

  /** The number a signed 24-bit value stands for. */
  function Value24(v: Int24): int {
    v.high * 0x1_0000 + v.low
  }

  predicate IsNegative(v: Int24) {
    v.high < 0
  }

  function Magnitude(v: Int24): Word
    requires !IsNegative(v)
  {
    v.high * 0x1_0000 + v.low
  }

  /** The signed 24-bit values in the order of their parts, from the lowest to the highest number. */
  predicate Below24(v: Int24, w: Int24) {
    v.high < w.high || (v.high == w.high && v.low < w.low)
  }

  /** The value after v; a full low part carries into the high one. */
  function Next24(v: Int24): Int24
    requires v != Int24(0x7F, 0xFFFF)
  {
    if v.low < 0xFFFF then v.(low := v.low + 1) else Int24(v.high + 1, 0)
  }

  /** The numbers are those of 24-bit two's complement, in order and without a gap. */
  lemma Value24Counts(v: Int24, w: Int24)
    ensures -0x80_0000 <= Value24(v) < 0x80_0000
    ensures Value24(v) < Value24(w) <==> Below24(v, w)
    ensures v != Int24(0x7F, 0xFFFF) ==> Value24(Next24(v)) == Value24(v) + 1
    ensures !IsNegative(v) ==> Magnitude(v) == Value24(v)
    ensures IsNegative(v) <==> Value24(v) < 0
  {
  }

  datatype Parts = Parts(high: UInt16, low: Word)

  function Value48(p: Parts): (r: int)
    ensures 0 <= r < WORD48
  {
    p.high * WORD + p.low
  }

  /** What the addition leaves in the two parts, on either branch. */
  function Sum(p: Parts, v: Int24): Parts {
    if IsNegative(v) then
      var d := Wrap(v.low + v.high);
      Parts(if p.low < d then (p.high - 1) % HIGH else p.high, Wrap(p.low - d))
    else
      var d := Magnitude(v);
      Parts(if p.low + d > 0xFFFF_FFFF then (p.high + 1) % HIGH else p.high, Wrap(p.low + d))
  }

  lemma Borrow(p: Parts, d: Word)
    ensures Value48(Parts(if p.low < d then (p.high - 1) % HIGH else p.high, Wrap(p.low - d))) ==
            (Value48(p) - d) % WORD48
  {
  }

  lemma Carry(p: Parts, d: Word)
    ensures Value48(Parts(if p.low + d > 0xFFFF_FFFF then (p.high + 1) % HIGH else p.high, Wrap(p.low + d))) ==
            (Value48(p) + d) % WORD48
  {
  }

  /** The carry and the borrow between the parts make the halves one 48-bit number. */
  lemma SumValue(p: Parts, v: Int24)
    ensures !IsNegative(v) ==> Value48(Sum(p, v)) == (Value48(p) + Value24(v)) % WORD48
    ensures IsNegative(v) ==> Value48(Sum(p, v)) == (Value48(p) - Wrap(v.low + v.high)) % WORD48
  {
    if IsNegative(v) {
      Borrow(p, Wrap(v.low + v.high));
    } else {
      Carry(p, Magnitude(v));
    }
  }

  lemma ResiduesDiffer(x: int, gap: int)
    requires -WORD48 < gap < WORD48 && gap != 0
    ensures x % WORD48 != (x + gap) % WORD48
  {
  }

  /** The addition is the 48-bit sum exactly for the values that are not negative. */
  lemma SumExact(p: Parts, v: Int24)
    ensures Value48(Sum(p, v)) == (Value48(p) + Value24(v)) % WORD48 <==> !IsNegative(v)
  {
    SumValue(p, v);
    if IsNegative(v) {
      var d := Wrap(v.low + v.high);
      assert 0 < Value24(v) + d < WORD48 || -WORD48 < Value24(v) + d < 0 by {
        if v.high == -1 {
          assert Value24(v) + d != 0;
        }
      }
      ResiduesDiffer(Value48(p) - d, Value24(v) + d);
    }
  }

  /** Adding minus one to zero leaves the counter at minus 65534 modulo 2^48. */
  lemma MinusOneGoesWrong()
    ensures Value24(Int24(-1, 0xFFFF)) == -1
    ensures Value48(Sum(Parts(0, 0), Int24(-1, 0xFFFF))) == WORD48 - 65534
  {
  }

  function Total(vs: seq<Int24>): int {
    if vs == [] then 0 else Value24(vs[0]) + Total(vs[1..])
  }

  function SumAll(p: Parts, vs: seq<Int24>): Parts
    decreases |vs|
  {
    if vs == [] then p else SumAll(Sum(p, vs[0]), vs[1..])
  }

  lemma {:induction false} TotalJoin(vs: seq<Int24>, ws: seq<Int24>)
    ensures Total(vs + ws) == Total(vs) + Total(ws)
  {
    if vs == [] {
      assert vs + ws == ws;
    } else {
      TotalJoin(vs[1..], ws);
      assert (vs + ws)[1..] == vs[1..] + ws;
    }
  }

  /** Accumulation can be interrupted anywhere. */
  lemma {:induction false} SumAllJoin(p: Parts, vs: seq<Int24>, ws: seq<Int24>)
    ensures SumAll(p, vs + ws) == SumAll(SumAll(p, vs), ws)
    decreases |vs|
  {
    if vs == [] {
      assert vs + ws == ws;
    } else {
      SumAllJoin(Sum(p, vs[0]), vs[1..], ws);
      assert (vs + ws)[1..] == vs[1..] + ws;
    }
  }

  lemma SumAllOne(p: Parts, v: Int24)
    ensures SumAll(p, [v]) == Sum(p, v) && Total([v]) == Value24(v)
  {
    assert [v][1..] == [];
  }

  lemma ShiftResidue(x: int, y: int)
    ensures (x % WORD48 + y) % WORD48 == (x + y) % WORD48
  {
  }

  /** A counter that accumulates values that are not negative holds their sum modulo 2^48. */
  lemma {:induction false} SumAllValue(p: Parts, vs: seq<Int24>)
    requires forall k :: 0 <= k < |vs| ==> !IsNegative(vs[k])
    ensures Value48(SumAll(p, vs)) == (Value48(p) + Total(vs)) % WORD48
    decreases |vs|
  {
    if vs == [] {
    } else {
      var rest := vs[1..];
      SumValue(p, vs[0]);
      SumAllValue(Sum(p, vs[0]), rest);
      ShiftResidue(Value48(p) + Value24(vs[0]), Total(rest));
    }
  }

  class UInt48 {
    var high: UInt16
    var low: Word

    function Get(): Parts
      reads this
    {
      Parts(high, low)
    }

    constructor (high: UInt16, low: Word)
      ensures Get() == Parts(high, low)
    {
      this.high := high;
      this.low := low;
    }

    method AddInt24(v: Int24)
      modifies this
      ensures Get() == Sum(old(Get()), v)
      ensures Value48(Get()) == (old(Value48(Get())) + Value24(v)) % WORD48 <==> !IsNegative(v)
    {
      SumExact(Get(), v);
      if v.high < 0 {
        if low < Wrap(v.low + v.high) {
          high := (high - 1) % HIGH;
        }
        low := Wrap(low - Wrap(v.low + v.high));
      } else {
        if low + Magnitude(v) > 0xFFFF_FFFF {
          high := (high + 1) % HIGH;
        }
        low := Wrap(low + Magnitude(v));
      }
    }
  }

  // ---- Comparisons ----

  predicate IsEqual(a: Parts, b: Parts) {
    a.high == b.high && a.low == b.low
  }

  predicate IsGreat(a: Parts, b: Parts) {
    a.high > b.high || (a.high == b.high && a.low > b.low)
  }

  predicate IsLess(a: Parts, b: Parts) {
    !IsEqual(a, b) && !IsGreat(a, b)
  }

  predicate IsGreatOrEqual(a: Parts, b: Parts) {
    !IsLess(a, b)
  }

  predicate IsLessOrEqual(a: Parts, b: Parts) {
    !IsGreat(a, b)
  }

  lemma ComparisonsAreNumeric(a: Parts, b: Parts)
    ensures IsEqual(a, b) <==> Value48(a) == Value48(b)
    ensures IsGreat(a, b) <==> Value48(a) > Value48(b)
    ensures IsLess(a, b) <==> Value48(a) < Value48(b)
    ensures IsGreatOrEqual(a, b) <==> Value48(a) >= Value48(b)
    ensures IsLessOrEqual(a, b) <==> Value48(a) <= Value48(b)
  {
  }
}
