/**
 Singly linked lists in a pool, with a head and a tail index of one byte each, exactly as
 written: inserting at the head compares the head plus one with the null index, so the
 tail can go astray. The abstract state therefore keeps the tail beside the sequence.
 */
module PooledQueues {
  import opened Indices
  import opened Sequences
  import Q = QueueModel

  ghost function At(s: seq<Index>, k: nat): Index {
    if k < |s| then s[k] else NULL
  }

  /** The entries of s are linked in order, from head to a null link. */
  ghost predicate Chain(next: seq<Index>, head: Index, s: seq<Index>) {
    && Distinct(s)
    && head == At(s, 0)
    && (forall k :: 0 <= k < |s| ==> s[k] != NULL && s[k] < |next|)
    && (forall k {:trigger next[s[k]]} :: 0 <= k < |s| ==> next[s[k]] == At(s, k + 1))
  }

  datatype State = State(s: seq<Index>, tail: Index)

  datatype Op = InsertHead(e: Index) | InsertTail(e: Index) | RemoveHead | CutHead | CutTail | Remove(e: Index)

  ghost predicate Allowed(size: nat, s: seq<Index>, op: Op) {
    op.InsertHead? || op.InsertTail? ==> op.e != NULL && op.e < size && op.e !in s
  }

  function UpToElement(s: seq<Index>, x: Index): seq<Index> {
    if s == [] then [] else if s[0] == x then [x] else [s[0]] + UpToElement(s[1..], x)
  }

  /** The element before x, or null. */
  function Before(s: seq<Index>, x: Index): Index {
    if |s| < 2 then NULL else if s[1] == x then s[0] else Before(s[1..], x)
  }

  ghost function WithoutFirst(m: State): State {
    if m.s == [] then m else State(m.s[1..], if |m.s| == 1 then NULL else m.tail)
  }

  ghost function WithoutEntry(m: State, e: Index): State {
    if e !in m.s then m
    else State(Without(m.s, e),
               if |m.s| == 1 then NULL
               else if m.tail == e && m.s[0] != e then Before(m.s, e)
               else m.tail)
  }

  /** What the operations make of the entries and of the tail, whatever the tail was. */
  ghost function Step(m: State, op: Op): State {
    match op
    case InsertHead(e) => State([e] + m.s, if At(m.s, 0) + 1 == NULL then e else m.tail)
    case InsertTail(e) =>
      if m.tail == NULL then State([e], e)
      else if m.tail in m.s then State(UpToElement(m.s, m.tail) + [e], e)
      else State(m.s, e)
    case RemoveHead => WithoutFirst(m)
    case CutHead => WithoutFirst(m)
    case CutTail => WithoutEntry(m, m.tail)
    case Remove(e) => WithoutEntry(m, e)
  }

  /** What the operations are meant to do to the sequence of entries. */
  ghost function Intended(s: seq<Index>, op: Op): seq<Index> {
    match op
    case InsertHead(e) => [e] + s
    case InsertTail(e) => s + [e]
    case RemoveHead => if s == [] then s else s[1..]
    case CutHead => if s == [] then s else s[1..]
    case CutTail => if s == [] then s else s[..|s| - 1]
    case Remove(e) => Without(s, e)
  }

  ghost predicate Healthy(m: State) {
    && Distinct(m.s)
    && NULL !in m.s
    && m.tail == if m.s == [] then NULL else Last(m.s)
  }

  /** The insertion at the head is right for these heads alone. */
  ghost predicate GoodHead(s: seq<Index>, op: Op) {
    op.InsertHead? ==> At(s, 0) != 254 && At(s, 0) != 255
  }

  lemma {:induction false} UpToElementAt(s: seq<Index>, k: nat)
    requires k < |s| && Distinct(s)
    ensures UpToElement(s, s[k]) == s[..k + 1]
  {
    if k == 0 {
    } else {
      UpToElementAt(s[1..], k - 1);
      assert s[..k + 1] == [s[0]] + s[1..][..k];
    }
  }

  lemma {:induction false} BeforeAt(s: seq<Index>, k: nat)
    requires 0 < k < |s| && Distinct(s)
    ensures Before(s, s[k]) == s[k - 1]
  {
    if k == 1 {
    } else {
      assert s[1..][k - 1] == s[k];
      BeforeAt(s[1..], k - 1);
    }
  }

  lemma WithoutLast(s: seq<Index>)
    requires s != [] && Distinct(s)
    ensures Without(s, Last(s)) == s[..|s| - 1]
  {
    WithoutAt(s, |s| - 1);
  }

  lemma WithoutEntryHealthy(m: State, e: Index)
    requires Healthy(m)
    ensures Healthy(WithoutEntry(m, e)) && WithoutEntry(m, e).s == Without(m.s, e)
  {
    if e in m.s {
      WithoutElements(m.s, e);
      var k :| 0 <= k < |m.s| && m.s[k] == e;
      WithoutEnd(m.s, k);
      if k > 0 {
        BeforeAt(m.s, k);
      }
    } else {
      WithoutAbsent(m.s, e);
    }
  }

  /**
   On a list whose tail is in order, an operation does what it is meant to do and leaves
   the tail in order if and only if it is not an insertion before head 254 or into an empty list.
   */
  lemma StepExact(size: nat, m: State, op: Op)
    requires Healthy(m) && Allowed(size, m.s, op)
    ensures Healthy(Step(m, op)) && Step(m, op).s == Intended(m.s, op) <==> GoodHead(m.s, op)
  {
    match op
    case InsertHead(e) =>
    case InsertTail(e) => if m.s != [] { UpToElementAt(m.s, |m.s| - 1); }
    case RemoveHead =>
    case CutHead =>
    case CutTail =>
      WithoutEntryHealthy(m, m.tail);
      if m.s != [] { WithoutLast(m.s); }
    case Remove(e) => WithoutEntryHealthy(m, e);
  }

  ghost function Run(m: State, ops: seq<Op>): State
    decreases |ops|
  {
    if ops == [] then m else Run(Step(m, ops[0]), ops[1..])
  }

  ghost function IntendedRun(s: seq<Index>, ops: seq<Op>): seq<Index>
    decreases |ops|
  {
    if ops == [] then s else IntendedRun(Intended(s, ops[0]), ops[1..])
  }

  /** Along the states the operations really lead to, every insertion is allowed. */
  ghost predicate AllowedRun(size: nat, m: State, ops: seq<Op>)
    decreases |ops|
  {
    ops == [] || (Allowed(size, m.s, ops[0]) && AllowedRun(size, Step(m, ops[0]), ops[1..]))
  }

  /** What an operation hands out. */
  ghost function Out(m: State, op: Op): seq<Index> {
    match op
    case CutHead => [At(m.s, 0)]
    case CutTail => [m.tail]
    case _ => []
  }

  ghost function Outputs(m: State, ops: seq<Op>): seq<Index>
    decreases |ops|
  {
    if ops == [] then [] else Out(m, ops[0]) + Outputs(Step(m, ops[0]), ops[1..])
  }

  /** Along the intended run, every insertion is allowed and meets a good head. */
  ghost predicate GoodRun(size: nat, s: seq<Index>, ops: seq<Op>)
    decreases |ops|
  {
    ops == [] || (Allowed(size, s, ops[0]) && GoodHead(s, ops[0]) && GoodRun(size, Intended(s, ops[0]), ops[1..]))
  }

  /** Such runs are allowed throughout and are the intended ones. */
  lemma {:induction false} GoodRunIntended(size: nat, m: State, ops: seq<Op>)
    requires Healthy(m) && GoodRun(size, m.s, ops)
    ensures AllowedRun(size, m, ops)
    ensures Healthy(Run(m, ops)) && Run(m, ops).s == IntendedRun(m.s, ops)
    decreases |ops|
  {
    if ops == [] {
    } else {
      StepExact(size, m, ops[0]);
      GoodRunIntended(size, Step(m, ops[0]), ops[1..]);
    }
  }

  /** After the first i operations the list is the intended one and its tail is in order. */
  ghost predicate OnTrack(m: State, s: seq<Index>, ops: seq<Op>, i: nat)
    requires i <= |ops|
  {
    Healthy(Run(m, ops[..i])) && Run(m, ops[..i]).s == IntendedRun(s, ops[..i])
  }

  lemma TrackFirst(m: State, s: seq<Index>, ops: seq<Op>, i: nat)
    requires i < |ops|
    ensures OnTrack(m, s, ops, i + 1) <==> OnTrack(Step(m, ops[0]), Intended(s, ops[0]), ops[1..], i)
  {
    assert ops[..i + 1][0] == ops[0] && ops[..i + 1][1..] == ops[1..][..i];
  }

  lemma AllButFirst(m: State, m': State, ops: seq<Op>)
    requires ops != [] && OnTrack(m, m.s, ops, 0)
    requires forall i :: 0 <= i < |ops| ==> (OnTrack(m, m.s, ops, i + 1) <==> OnTrack(m', m'.s, ops[1..], i))
    ensures (forall i :: 0 <= i <= |ops| ==> OnTrack(m, m.s, ops, i)) <==>
            (forall i :: 0 <= i <= |ops[1..]| ==> OnTrack(m', m'.s, ops[1..], i))
  {
    if forall i :: 0 <= i <= |ops[1..]| ==> OnTrack(m', m'.s, ops[1..], i) {
      forall i | 0 < i <= |ops| ensures OnTrack(m, m.s, ops, i) {
        assert OnTrack(m', m'.s, ops[1..], i - 1);
        assert OnTrack(m, m.s, ops, i - 1 + 1);
      }
    }
  }

  /**
   An allowed run is the intended one at every point, with the tail in order, if and only if no
   insertion at the head meets head 254 or an empty list.
   */
  lemma {:induction false} RunExact(size: nat, m: State, ops: seq<Op>)
    requires Healthy(m) && AllowedRun(size, m, ops)
    ensures GoodRun(size, m.s, ops) <==> forall i :: 0 <= i <= |ops| ==> OnTrack(m, m.s, ops, i)
    decreases |ops|
  {
    if ops == [] {
      assert OnTrack(m, m.s, ops, 0);
    } else {
      var m', rest := Step(m, ops[0]), ops[1..];
      StepExact(size, m, ops[0]);
      TrackFirst(m, m.s, ops, 0);
      assert OnTrack(m', Intended(m.s, ops[0]), rest, 0) <==> GoodHead(m.s, ops[0]);
      assert OnTrack(m, m.s, ops, 0);
      if GoodHead(m.s, ops[0]) {
        RunExact(size, m', rest);
        forall i | 0 <= i < |ops| ensures OnTrack(m, m.s, ops, i + 1) <==> OnTrack(m', m'.s, rest, i) {
          TrackFirst(m, m.s, ops, i);
        }
        AllButFirst(m, m', ops);
      }
    }
  }

  /** A run of one operation is that operation. */
  lemma RunOne(size: nat, m: State, op: Op)
    ensures AllowedRun(size, m, [op]) <==> Allowed(size, m.s, op)
    ensures Run(m, [op]) == Step(m, op) && Outputs(m, [op]) == Out(m, op)
    ensures IntendedRun(m.s, [op]) == Intended(m.s, op)
  {
    assert [op][1..] == [];
  }

  /** A run can be cut anywhere. */
  lemma {:induction false} RunJoin(size: nat, m: State, s: seq<Index>, ops: seq<Op>, more: seq<Op>, whole: seq<Op>)
    requires whole == ops + more
    ensures AllowedRun(size, m, whole) <==> AllowedRun(size, m, ops) && AllowedRun(size, Run(m, ops), more)
    ensures Run(m, whole) == Run(Run(m, ops), more)
    ensures IntendedRun(s, whole) == IntendedRun(IntendedRun(s, ops), more)
    decreases |ops|
  {
    if ops == [] {
      assert whole == more;
    } else {
      HeadOfSum(ops, more);
      RunJoin(size, Step(m, ops[0]), Intended(s, ops[0]), ops[1..], more, whole[1..]);
    }
  }

  lemma {:induction false} OutputsJoin(m: State, ops: seq<Op>, more: seq<Op>, whole: seq<Op>)
    requires whole == ops + more
    ensures Outputs(m, whole) == Outputs(m, ops) + Outputs(Run(m, ops), more)
    decreases |ops|
  {
    if ops == [] {
      assert whole == more;
    } else {
      HeadOfSum(ops, more);
      var m', later := Step(m, ops[0]), Outputs(Run(m, ops), more);
      OutputsJoin(m', ops[1..], more, whole[1..]);
      JoinSlices(Out(m, ops[0]), Outputs(m', whole[1..]), Outputs(m', ops[1..]), later);
    }
  }

  /**
   What is meant by the operations: puts, gets and deletions of a plain queue, and the cut of
   the tail takes back what was inserted there.
   */
  lemma IntendedIsQueue(s: seq<Index>, e: Index)
    ensures Intended(s, InsertHead(e)) == Q.Step(s, Q.PutTail(e))
    ensures Intended(s, InsertTail(e)) == Q.Step(s, Q.Put(e))
    ensures Intended(s, RemoveHead) == Intended(s, CutHead) == Q.Step(s, Q.Get)
    ensures Intended(s, Remove(e)) == Q.Step(s, Q.Delete(e))
    ensures Intended(Intended(s, InsertTail(e)), CutTail) == s && Intended([], CutTail) == []
  {
  }

  ghost predicate OfEntries(size: nat, s: seq<Index>) {
    Distinct(s) && forall k :: 0 <= k < |s| ==> s[k] != NULL && s[k] < size
  }

  lemma OneMore(size: nat, s: seq<Index>, e: Index)
    requires OfEntries(size, s)
    ensures OfEntries(size, [e] + s) <==> e != NULL && e < size && e !in s
    ensures OfEntries(size, s + [e]) <==> e != NULL && e < size && e !in s
  {
    assert ([e] + s)[0] == e && (s + [e])[|s|] == e;
    assert forall k :: 0 <= k < |s| ==> ([e] + s)[k + 1] == s[k] && (s + [e])[k] == s[k];
  }

  /** What is asked of callers is that the intended list has no repeated and no foreign entries. */
  lemma AllowedExactly(size: nat, s: seq<Index>, op: Op)
    requires OfEntries(size, s)
    ensures Allowed(size, s, op) <==> OfEntries(size, Intended(s, op))
  {
    if op.InsertHead? || op.InsertTail? {
      OneMore(size, s, op.e);
    } else if op.Remove? {
      WithoutElements(s, op.e);
      WithoutIndex(s, op.e);
    }
  }

  /** With the tail in order, the cuts hand out the first and the last entry. */
  lemma CutsAtEnds(m: State)
    requires Healthy(m)
    ensures Outputs(m, [CutHead]) == [At(m.s, 0)]
    ensures Outputs(m, [CutTail]) == [if m.s == [] then NULL else m.s[|m.s| - 1]]
    ensures m.s != [] ==> Outputs(m, [CutHead]) == Q.Outputs(m.s, [Q.Get])
  {
    RunOne(0, m, CutHead);
    RunOne(0, m, CutTail);
    Q.RunOne(m.s, Q.Get);
  }

  /** What a prepend followed by an append leaves: all, only the appended entry, or only the two. */
  lemma PrependThenAppend(size: nat, m: State, a: Index, b: Index)
    requires Healthy(m) && Allowed(size, m.s, InsertHead(a)) && Allowed(size, [a] + m.s, InsertTail(b))
    ensures Step(Step(m, InsertHead(a)), InsertTail(b)).s ==
            if m.s == [] then [b] else if m.s[0] == 254 then [a, b] else [a] + m.s + [b]
  {
    var t := [a] + m.s;
    if m.s != [] && m.s[0] != 254 {
      UpToElementAt(t, |t| - 1);
    }
  }

  lemma CutAndAppended(before: seq<Index>, after: seq<Index>, s: seq<Index>, t: seq<Index>, j: nat, e: Index)
    requires Chain(before, At(s, 0), s) && e != NULL && e < |before| && e !in s && j < |s|
    requires after == before[e := NULL][s[j] := e]
    requires |t| == j + 2 && t[j + 1] == e
    requires forall k {:trigger t[k]} :: 0 <= k <= j ==> t[k] == s[k]
    ensures Chain(after, At(s, 0), t)
  {
    forall k {:trigger t[k]} | 0 <= k <= j
      ensures t[k] != NULL && t[k] < |after| && t[k] != e && after[t[k]] == At(t, k + 1)
    {
      assert t[k] == s[k] && before[s[k]] == At(s, k + 1);
      assert k < j ==> t[k + 1] == s[k + 1];
    }
    assert Distinct(t);
  }

  /** Linking e behind the entry `tail` cuts the chain there and ends it with e, if the chain has that entry. */
  lemma Appended(before: seq<Index>, after: seq<Index>, s: seq<Index>, tail: Index, e: Index)
    requires Chain(before, At(s, 0), s) && e != NULL && e < |before| && e !in s && tail < |before|
    requires after == before[e := NULL][tail := e]
    ensures Chain(after, At(s, 0), if tail in s then UpToElement(s, tail) + [e] else s)
  {
    if tail in s {
      var j :| 0 <= j < |s| && s[j] == tail;
      UpToElementAt(s, j);
      CutAndAppended(before, after, s, UpToElement(s, tail) + [e], j, e);
    }
  }

  lemma Bridged(before: seq<Index>, after: seq<Index>, s: seq<Index>, t: seq<Index>, k: nat)
    requires k < |s| && Chain(before, At(s, 0), s)
    requires after == if k == 0 then before else before[s[k - 1] := before[s[k]]]
    requires Distinct(t) && |t| == |s| - 1
    requires forall i {:trigger t[i]} :: 0 <= i < |t| ==> t[i] == if i < k then s[i] else s[i + 1]
    ensures Chain(after, if k == 0 then At(s, 1) else s[0], t)
  {
  }

  /** Position k is bridged and nothing else changed. */
  lemma Unlinked(before: seq<Index>, after: seq<Index>, s: seq<Index>, k: nat)
    requires k < |s| && Chain(before, At(s, 0), s)
    requires after == if k == 0 then before else before[s[k - 1] := before[s[k]]]
    ensures Chain(after, if k == 0 then At(s, 1) else s[0], Without(s, s[k]))
  {
    WithoutElements(s, s[k]);
    WithoutAt(s, k);
    Bridged(before, after, s, Without(s, s[k]), k);
  }

  class List {
    const base: array<Index>  // the next field of every entry
    var head: Index
    var tail: Index
    ghost var s: seq<Index>

    ghost predicate Valid()
      reads this, base
    {
      Chain(base[..], head, s) && (tail != NULL ==> tail < base.Length)
    }

    ghost function Abstract(): State
      reads this
    {
      State(s, tail)
    }

    constructor (base: array<Index>)
      ensures Healthy(Abstract())
      ensures Valid() && Abstract() == State([], NULL) && this.base == base
    {
      this.base := base;
      head := NULL;
      tail := NULL;
      s := [];
    }

    method InsertHead(e: Index)
      requires Valid() && Allowed(base.Length, s, Op.InsertHead(e))
      modifies this, base
      ensures Valid() && Abstract() == Step(old(Abstract()), Op.InsertHead(e))
      ensures s == [e] + old(s) && head == e && tail == if old(head) == 254 then e else old(tail)
      ensures base[..] == old(base[..])[e := old(head)]
    {
      base[e] := head;
      if head + 1 == NULL {
        tail := e;
      }
      head := e;
      s := [e] + s;
      forall k | 0 <= k < |s| ensures base[..][s[k]] == At(s, k + 1) {
        if k > 0 {
          assert old(base[..])[old(s)[k - 1]] == At(old(s), k);
        }
      }
    }

    method InsertTail(e: Index)
      requires Valid() && Allowed(base.Length, s, Op.InsertTail(e))
      modifies this, base
      ensures Valid() && Abstract() == Step(old(Abstract()), Op.InsertTail(e))
      ensures tail == e
      ensures s == if old(tail) == NULL then [e]
                   else if old(tail) in old(s) then UpToElement(old(s), old(tail)) + [e] else old(s)
      ensures base[..] == if old(tail) == NULL then old(base[..])[e := NULL]
                          else old(base[..])[e := NULL][old(tail) := e]
    {
      ghost var before := base[..];
      base[e] := NULL;
      if tail != NULL {
        base[tail] := e;
        Appended(before, base[..], s, tail, e);
        if tail in s {
          s := UpToElement(s, tail) + [e];
        }
        tail := e;
      } else {
        head := e;
        tail := e;
        s := [e];
      }
    }

    method RemoveHead()
      requires Valid()
      modifies this
      ensures Valid() && Abstract() == Step(old(Abstract()), Op.RemoveHead)
      ensures s == (if old(s) == [] then [] else old(s)[1..]) && tail == if |old(s)| == 1 then NULL else old(tail)
    {
      if head != NULL {
        assert base[..][s[0]] == At(s, 1);
        head := base[head];
        if head == NULL {
          tail := NULL;
        }
        s := s[1..];
        forall k | 0 <= k < |s| ensures base[..][s[k]] == At(s, k + 1) {
          assert base[..][old(s)[k + 1]] == At(old(s), k + 2);
        }
      }
    }

    method CutHead() returns (index: Index)
      requires Valid()
      modifies this
      ensures Valid() && Abstract() == Step(old(Abstract()), Op.CutHead)
      ensures s == (if old(s) == [] then [] else old(s)[1..]) && tail == if |old(s)| == 1 then NULL else old(tail)
      ensures index == At(old(s), 0)
    {
      if head != NULL {
        index := head;
        assert base[..][s[0]] == At(s, 1);
        head := base[head];
        if head == NULL {
          tail := NULL;
        }
        s := s[1..];
        forall k | 0 <= k < |s| ensures base[..][s[k]] == At(s, k + 1) {
          assert base[..][old(s)[k + 1]] == At(old(s), k + 2);
        }
      } else {
        index := NULL;
      }
    }

    method Remove(index: Index)
      requires Valid()
      modifies this, base
      ensures Valid() && Abstract() == Step(old(Abstract()), Op.Remove(index))
      ensures s == if index in old(s) then Without(old(s), index) else old(s)
      ensures tail == if index !in old(s) then old(tail)
                      else if |old(s)| == 1 then NULL
                      else if old(tail) == index && old(s)[0] != index then Before(old(s), index)
                      else old(tail)
      ensures forall i :: 0 <= i < base.Length ==>
                base[i] == if index in old(s) && index != old(s)[0] && i == Before(old(s), index)
                           then old(base[index]) else old(base[i])
    {
      var p, prev := head, NULL;
      ghost var k, s0 := 0, s;
      while p != NULL
        invariant 0 <= k <= |s| && p == At(s, k)
        invariant prev == if k == 0 then NULL else s[k - 1]
        invariant index !in s[..k]
        invariant Valid() && base[..] == old(base[..]) && unchanged(this)
        decreases |s| - k
      {
        assert base[..][s[k]] == At(s, k + 1);
        if p == index {
          if prev != NULL {
            base[prev] := base[p];
            if tail == index {
              tail := prev;
            }
          } else {
            head := base[p];
          }
          if head == NULL {
            tail := NULL;
          }
          Unlinked(old(base[..]), base[..], s0, k);
          if k > 0 {
            BeforeAt(s0, k);
          }
          s := Without(s0, index);
          return;
        }
        prev, p, k := p, base[p], k + 1;
      }
    }

    /** The tail index is looked up by walking the list, and is reported even if it is not found. */
    method CutTail() returns (index: Index)
      requires Valid()
      modifies this, base
      ensures Valid() && Abstract() == Step(old(Abstract()), Op.CutTail)
      ensures s == if index in old(s) then Without(old(s), index) else old(s)
      ensures forall i :: 0 <= i < base.Length ==>
                base[i] == if index in old(s) && index != old(s)[0] && i == Before(old(s), index)
                           then old(base[index]) else old(base[i])
      ensures index == old(tail)
    {
      index := tail;
      Remove(index);
    }

    method Apply(op: Op) returns (out: seq<Index>)
      requires Valid() && Allowed(base.Length, s, op)
      modifies this, base
      ensures Valid() && Abstract() == Step(old(Abstract()), op)
      ensures out == Out(old(Abstract()), op)
    {
      out := [];
      match op
      case InsertHead(e) => InsertHead(e);
      case InsertTail(e) => InsertTail(e);
      case RemoveHead => RemoveHead();
      case CutHead =>
        var index := CutHead();
        out := [index];
      case CutTail =>
        var index := CutTail();
        out := [index];
      case Remove(e) => Remove(e);
    }

    /**
     Any run is the run of the sequence and the tail; from a tail in order, and if the
     insertions at the head meet good heads, it is the run of the plain sequence.
     */
    method Perform(ops: seq<Op>) returns (out: seq<Index>)
      requires Valid() && AllowedRun(base.Length, Abstract(), ops)
      modifies this, base
      ensures Valid() && Abstract() == Run(old(Abstract()), ops)
      ensures out == Outputs(old(Abstract()), ops)
      ensures old(Healthy(Abstract())) && GoodRun(base.Length, old(s), ops) ==>
                Healthy(Abstract()) && s == IntendedRun(old(s), ops)
      decreases |ops|
    {
      if Healthy(Abstract()) && GoodRun(base.Length, s, ops) {
        GoodRunIntended(base.Length, Abstract(), ops);
      }
      out := [];
      if ops != [] {
        out := Apply(ops[0]);
        var later := Perform(ops[1..]);
        out := out + later;
      }
    }
  }
}
