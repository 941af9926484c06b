/**
 The low-power switch of the Zephyr platform: two flags in front of a counted lock that
 keeps the system out of its low-power states while it is held.
 */
module LowPower {
  type UInt8 = x: int | 0 <= x <= 255

  datatype Call = Config(enable: UInt8) | Off | On

  // ---- What a history of calls says by itself, without the flags ----

  /** The argument of the last configuration was nonzero, or there was none. */
  predicate Enabled(calls: seq<Call>) {
    if calls == [] then true
    else
      var last := calls[|calls| - 1];
      if last.Config? then last.enable != 0 else Enabled(calls[..|calls| - 1])
  }

  /** The last call, if any, switched low power on. */
  predicate SwitchedOn(calls: seq<Call>) {
    calls == [] || calls[|calls| - 1].On?
  }

  /** The calls that configure right after an "on" that came while low power was disabled. */
  function Leaks(calls: seq<Call>): nat {
    if calls == [] then 0
    else
      var before := calls[..|calls| - 1];
      Leaks(before) + if calls[|calls| - 1].Config? && !Enabled(before) && SwitchedOn(before) then 1 else 0
  }

  /** The number of times the lock is held after a history. */
  function Locks(calls: seq<Call>): nat {
    Leaks(calls) + if Enabled(calls) && SwitchedOn(calls) then 0 else 1
  }

  /** A leaked lock is never given back, whatever is called afterwards. */
  lemma {:induction false} LeaksStay(calls: seq<Call>, more: seq<Call>)
    ensures Leaks(calls + more) >= Leaks(calls)
    ensures Locks(calls + more) >= Leaks(calls)
    decreases |more|
  {
    if more == [] {
      assert calls + more == calls;
    } else {
      LeaksStay(calls, more[..|more| - 1]);
      assert (calls + more)[..|calls + more| - 1] == calls + more[..|more| - 1];
    }
  }

  /** The i-th call is a configuration right behind an "on" that came while low power was disabled. */
  ghost predicate LeaksAt(calls: seq<Call>, i: nat) {
    0 < i < |calls| && calls[i].Config? && calls[i - 1].On? && !Enabled(calls[..i - 1])
  }

  ghost function LeakPlaces(calls: seq<Call>): set<nat> {
    set i: nat | i < |calls| && LeaksAt(calls, i)
  }

  /** Whether a call leaks does not depend on the calls after it. */
  lemma LeaksAtPrefix(calls: seq<Call>, n: nat, i: nat)
    requires i < n <= |calls|
    ensures LeaksAt(calls, i) <==> LeaksAt(calls[..n], i)
  {
    assert i > 0 ==> calls[..i - 1] == calls[..n][..i - 1];
  }

  lemma PlacesGrow(calls: seq<Call>, n: nat)
    requires |calls| == n + 1
    ensures LeakPlaces(calls) == LeakPlaces(calls[..n]) + if LeaksAt(calls, n) then {n} else {}
  {
    forall i: nat | i < n ensures i in LeakPlaces(calls) <==> i in LeakPlaces(calls[..n]) {
      LeaksAtPrefix(calls, n, i);
    }
  }

  lemma LastLeak(calls: seq<Call>, n: nat)
    requires |calls| == n + 1
    ensures Leaks(calls) == Leaks(calls[..n]) + if LeaksAt(calls, n) then 1 else 0
  {
    if n > 0 {
      assert calls[..n][..n - 1] == calls[..n - 1];
    }
  }

  /** Every such call leaks one lock, and nothing else does. */
  lemma {:induction false} LeaksCounted(calls: seq<Call>)
    ensures Leaks(calls) == |LeakPlaces(calls)|
    decreases |calls|
  {
    if calls == [] {
    } else {
      var n := |calls| - 1;
      LeaksCounted(calls[..n]);
      LastLeak(calls, n);
      PlacesGrow(calls, n);
    }
  }

  /** Nothing leaks exactly when no configuration follows directly on an ignored "on". */
  lemma BalancedExactly(calls: seq<Call>)
    ensures Leaks(calls) == 0 <==> forall i: nat :: !LeaksAt(calls, i)
  {
    LeaksCounted(calls);
    assert LeakPlaces(calls) == {} <==> forall i: nat :: !LeaksAt(calls, i) by {
      if LeakPlaces(calls) == {} {
        forall i: nat ensures !LeaksAt(calls, i) {
          assert i !in LeakPlaces(calls);
        }
      }
    }
  }

  /** No later call configures. */
  ghost predicate IsLastConfig(calls: seq<Call>, i: nat) {
    && i < |calls| && calls[i].Config?
    && forall j :: i < j < |calls| ==> !calls[j].Config?
  }

  /** Low power is enabled unless the last configuration disabled it. */
  lemma {:induction false} LastConfigDecides(calls: seq<Call>)
    ensures Enabled(calls) <==> forall i: nat :: IsLastConfig(calls, i) ==> calls[i].enable != 0
    decreases |calls|
  {
    if calls == [] {
    } else {
      var n := |calls| - 1;
      var before := calls[..n];
      if calls[n].Config? {
        assert IsLastConfig(calls, n);
      } else {
        LastConfigDecides(before);
        assert forall i: nat :: i < n ==> calls[i] == before[i];
        assert forall i: nat :: IsLastConfig(calls, i) <==> IsLastConfig(before, i);
      }
    }
  }

  /**
   The system may sleep exactly when the last call, if any, switched low power on, the last
   configuration, if any, enabled it, and nothing leaked.
   */
  lemma MaySleep(calls: seq<Call>)
    ensures Locks(calls) == 0 <==>
            && (calls != [] ==> calls[|calls| - 1].On?)
            && (forall i: nat :: IsLastConfig(calls, i) ==> calls[i].enable != 0)
            && forall i: nat :: !LeaksAt(calls, i)
  {
    BalancedExactly(calls);
    LastConfigDecides(calls);
  }

  /** An "off", like a configuration, always leaves the lock held. */
  lemma HeldUnlessOn(calls: seq<Call>)
    requires calls != [] && !calls[|calls| - 1].On?
    ensures Locks(calls) >= 1
  {
  }

  /** The shortest history that leaks: two locks are held where one was asked for. */
  lemma ShortestLeak()
    ensures Locks([Config(0), On, Config(1)]) == 2 && Locks([Config(0), On, Config(1), On]) == 1
  {
    var two := [Config(0), On];
    var three := two + [Config(1)];
    var four := three + [On];
    assert three == [Config(0), On, Config(1)] && four == [Config(0), On, Config(1), On];
    assert two[..1] == [Config(0)] && three[..2] == two && four[..3] == three;
    assert Leaks(two) == 0 && !Enabled(two);
    assert Leaks(three) == 1 && Enabled(three);
  }

  // ---- The machine ----

  class Switch {
    var lpConfig: UInt8
    var lpOn: UInt8
    var locks: int              // gets minus puts of the external lock
    ghost var calls: seq<Call>  // the history

    /** The flags and the lock are a function of the history alone. */
    ghost predicate Accounted()
      reads this
    {
      && (lpConfig != 0 <==> Enabled(calls))
      && (lpOn != 0 <==> SwitchedOn(calls))
      && locks == Locks(calls)
    }

    constructor ()
      ensures Accounted() && calls == []
      ensures lpConfig != 0 && lpOn != 0 && locks == 0
    {
      lpConfig := 1;
      lpOn := 1;
      locks := 0;
      calls := [];
    }

    /** Takes the lock unless low power is disabled or was off already. */
    method SwitchOff()
      modifies this`lpOn, this`locks
      ensures lpOn == 0
      ensures locks == old(locks) + if old(lpConfig) != 0 && old(lpOn) != 0 then 1 else 0
    {
      if lpConfig != 0 && lpOn != 0 {
        locks := locks + 1;
      }
      lpOn := 0;
    }

    method Config(enable: UInt8)
      requires Accounted()
      modifies this
      ensures Accounted() && calls == old(calls) + [Call.Config(enable)]
      ensures lpConfig == enable && lpOn == 0
      ensures locks == old(locks) + if old(lpOn) != 0 then 1 else 0
    {
      lpConfig := 1;
      SwitchOff();
      lpConfig := enable;
      calls := calls + [Call.Config(enable)];
    }

    method Off()
      requires Accounted()
      modifies this
      ensures Accounted() && calls == old(calls) + [Call.Off]
      ensures lpConfig == old(lpConfig) && lpOn == 0
      ensures locks == old(locks) + if old(lpConfig) != 0 && old(lpOn) != 0 then 1 else 0
    {
      SwitchOff();
      calls := calls + [Call.Off];
    }

    method On()
      requires Accounted()
      modifies this
      ensures Accounted() && calls == old(calls) + [Call.On]
      ensures lpConfig == old(lpConfig) && lpOn != 0
      ensures locks == old(locks) - if old(lpConfig) != 0 && old(lpOn) == 0 then 1 else 0
    {
      if lpConfig != 0 && lpOn == 0 {
        locks := locks - 1;
      }
      lpOn := 1;
      calls := calls + [Call.On];
    }

    /** Whatever is called in whatever order, the lock is held as often as the history says. */
    method Perform(todo: seq<Call>)
      requires Accounted()
      modifies this
      ensures Accounted() && calls == old(calls) + todo
      ensures locks == Locks(old(calls) + todo)
    {
      var i := 0;
      while i < |todo|
        invariant 0 <= i <= |todo| && Accounted() && calls == old(calls) + todo[..i]
      {
        match todo[i] {
          case Config(enable) => Config(enable);
          case Off => Off();
          case On => On();
        }
        i := i + 1;
      }
      assert todo[..i] == todo;
    }
  }
}
