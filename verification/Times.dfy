/**
 The 32-bit timer: wrapping addition, subtraction and comparison of times, and the
 conversions between milliseconds and beacon intervals of 16 us times 960.
 */
module Times {
  import opened Words

  const HALF: int := 0xFFFF_FFFF / 2

  const BEACON_USEC := 16 * 960

  type Time = Word

  function Add(a: Time, b: Time): Time {
    Wrap(a + b)
  }

  function Subtract(a: Time, b: Time): Time {
    if Wrap(a - b) < HALF then Wrap(a - b) else Wrap(b - a)
  }

  predicate GE(a: Time, b: Time) {
    Wrap(a - b) < HALF
  }

  /** The wrapped sum of two wrapped times is their wrapped sum. */
  lemma AddWraps(a: int, b: int)
    ensures Add(Wrap(a), Wrap(b)) == Wrap(a + b)
  {
  }

  function Distance(a: int, b: int): nat {
    if a >= b then a - b else b - a
  }

  /** The wrapped difference of two wrapped times is their wrapped difference. */
  lemma WrapDifference(a: int, b: int)
    ensures Wrap(Wrap(a) - Wrap(b)) == Wrap(a - b)
  {
  }

  /** On unbounded times less than half the range apart, the wrapped comparison is the comparison. */
  lemma OrderOnWindow(a: int, b: int)
    requires Distance(a, b) <= HALF - 1
    ensures GE(Wrap(a), Wrap(b)) <==> a >= b
    ensures Subtract(Wrap(a), Wrap(b)) == Distance(a, b)
  {
    WrapDifference(a, b);
    WrapDifference(b, a);
  }

  /**
   For unbounded times less than the whole range apart, the comparison is right exactly for
   differences from -(2^31 + 1) to 2^31 - 2, and the subtraction for those and for 2^31.
   */
  lemma WindowExact(a: int, b: int)
    requires Distance(a, b) < WORD
    ensures (GE(Wrap(a), Wrap(b)) <==> a >= b) <==> -(HALF + 2) <= a - b <= HALF - 1
    ensures Subtract(Wrap(a), Wrap(b)) == Distance(a, b) <==>
            -(HALF + 2) <= a - b <= HALF - 1 || a - b == HALF + 1
  {
    WrapDifference(a, b);
    WrapDifference(b, a);
  }

  /** On all residues the comparison is antisymmetric, and exactly three differences are incomparable. */
  lemma OrderOnResidues(a: Time, b: Time)
    ensures GE(a, b) && GE(b, a) ==> a == b
    ensures !GE(a, b) && !GE(b, a) <==> Wrap(a - b) in {HALF, HALF + 1, HALF + 2}
  {
  }

  ghost predicate Ascending(times: seq<int>) {
    forall j, k :: 0 <= j < k < |times| ==> times[j] <= times[k]
  }

  function Wrapped(times: seq<int>): seq<Time> {
    seq(|times|, k requires 0 <= k < |times| => Wrap(times[k]))
  }

  lemma {:induction false} Chain(times: seq<int>, j: nat, k: nat)
    requires j < k < |times|
    requires forall i :: 1 <= i < |times| ==> times[i] >= times[i - 1]
    ensures times[j] <= times[k]
    decreases k
  {
    if j + 1 == k {
    } else {
      Chain(times, j, k - 1);
    }
  }

  /**
   A queue of alarm times from one window is in order exactly if each wrapped time is at or
   after the one before it, wherever the window crosses the wrap.
   */
  lemma QueueOrder(lo: int, times: seq<int>)
    requires forall k :: 0 <= k < |times| ==> lo <= times[k] <= lo + HALF - 1
    ensures Ascending(times) <==> forall k :: 1 <= k < |times| ==> GE(Wrapped(times)[k], Wrapped(times)[k - 1])
  {
    forall k | 1 <= k < |times| ensures GE(Wrapped(times)[k], Wrapped(times)[k - 1]) <==> times[k] >= times[k - 1] {
      OrderOnWindow(times[k], times[k - 1]);
    }
    if forall k :: 1 <= k < |times| ==> GE(Wrapped(times)[k], Wrapped(times)[k - 1]) {
      forall j, k | 0 <= j < k < |times| ensures times[j] <= times[k] {
        Chain(times, j, k);
      }
    }
  }

  /** What was added is what the subtraction reports, up to half the range and at 2^31 by accident. */
  lemma AddThenSubtract(a: Time, d: Time)
    ensures Subtract(Add(a, d), a) == d <==> d < HALF || d == HALF + 1
    ensures GE(Add(a, d), a) <==> d < HALF
  {
  }

  // ---- Ticks ----

  const WIDE := 0x1_0000_0000_0000_0000

  function FromMsecCeil(ms: Time): Time {
    Wrap((ms * 1000 + (BEACON_USEC - 1)) % WIDE / BEACON_USEC)
  }

  function FromMsecFloor(ms: Time): Time {
    Wrap(ms * 1000 % WIDE / BEACON_USEC)
  }

  function FromUsecCeil(us: Time): Time {
    Wrap(us + (BEACON_USEC - 1)) / BEACON_USEC
  }

  function ToMsec(t: Time): Time {
    Wrap(BEACON_USEC * t) / 1000
  }

  function ToUsec(t: Time): int {
    BEACON_USEC * t
  }

  /** The last tick whose length in microseconds fits 32 bits. */
  const LAST_TICK: Time := 279620

  /** Rounding up to ticks is the lower adjoint of converting ticks back. */
  lemma CeilGalois(ms: Time, t: Time)
    requires t <= LAST_TICK
    ensures FromMsecCeil(ms) <= t <==> ms <= ToMsec(t)
  {
  }

  /** Rounding up is the lower adjoint of the exact length of a tick, for every delay and every tick. */
  lemma CeilGaloisUsec(ms: Time, t: Time)
    ensures FromMsecCeil(ms) <= t <==> ms * 1000 <= ToUsec(t)
  {
  }

  /** Converting back gives the length in milliseconds, rounded down, of what 32 bits hold of it in microseconds. */
  lemma ToMsecRemainder(t: Time)
    ensures ToMsec(t) * 1000 <= ToUsec(t) % WORD < (ToMsec(t) + 1) * 1000
  {
  }

  /** That is the length of the ticks exactly up to the last tick that fits. */
  lemma ToMsecExact(t: Time)
    ensures ToMsec(t) * 1000 <= ToUsec(t) < (ToMsec(t) + 1) * 1000 <==> t <= LAST_TICK
  {
  }

  /** No later tick has that property: the product wraps, and some longer delay seems to fit. */
  lemma CeilGaloisExact(t: Time)
    ensures (forall ms: Time :: FromMsecCeil(ms) <= t <==> ms <= ToMsec(t)) <==> t <= LAST_TICK
  {
    if t <= LAST_TICK {
      forall ms: Time ensures FromMsecCeil(ms) <= t <==> ms <= ToMsec(t) { CeilGalois(ms, t); }
    } else {
      var ms: Time := ToMsec(t) + 1;
      assert FromMsecCeil(ms) <= LAST_TICK + 1;
    }
  }

  /** Rounding down to ticks is the upper adjoint of the exact length of a tick, for every tick. */
  lemma FloorGalois(ms: Time, t: Time)
    ensures t <= FromMsecFloor(ms) <==> ToUsec(t) <= ms * 1000
  {
  }

  /** Ticks survive the way to milliseconds and back exactly up to the last tick that fits. */
  lemma TickRoundTrip(t: Time)
    ensures FromMsecCeil(ToMsec(t)) == t <==> t <= LAST_TICK
  {
  }

  /**
   The detour over ticks never shortens a delay, and lengthens it by less than a tick, exactly
   for the delays whose ticks can be converted back.
   */
  lemma DelayNotShortened(ms: Time)
    ensures ms <= ToMsec(FromMsecCeil(ms)) <==> FromMsecCeil(ms) <= LAST_TICK
    ensures FromMsecCeil(ms) <= LAST_TICK ==> ToMsec(FromMsecCeil(ms)) <= ms + 15
  {
    var t := FromMsecCeil(ms);
    if t <= LAST_TICK {
      CeilGalois(ms, t);
      if t > 0 {
        CeilGalois(ms, t - 1);
        assert BEACON_USEC * t / 1000 <= BEACON_USEC * (t - 1) / 1000 + 16;
      }
    } else {
      assert ms > 4294963;
      assert t == LAST_TICK + 1 ==> ToMsec(t) == 11;
    }
  }

  /** The microsecond conversion works in 32 bits and is right exactly while the rounding fits them. */
  lemma UsecCeilExact(us: Time)
    ensures (forall t: Time :: FromUsecCeil(us) <= t <==> us <= ToUsec(t)) <==> us + (BEACON_USEC - 1) < WORD
    ensures us + (BEACON_USEC - 1) >= WORD ==> FromUsecCeil(us) == 0
  {
    if us + (BEACON_USEC - 1) >= WORD {
      assert FromUsecCeil(us) == 0 && us > ToUsec(0);
    }
  }
}
