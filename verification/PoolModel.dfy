/**
 The abstract state of a pool whose entries are shared by several lists: one sequence of
 entries for each list, and the set of entries marked as being in no list. Runs of list
 operations are stated and reasoned about here.
 */
module PoolModel {
  import opened Options
  import opened Sequences

  datatype View<T(==)> = View(lists: seq<seq<T>>, cleared: set<T>, pool: set<T>)

  datatype Op<T> =
    | InsertHead(list: nat, e: T)
    | InsertTail(list: nat, e: T)
    | InsertAfter(list: nat, at: Option<T>, e: T)
    | CutHead(list: nat)
    | RemoveHead(list: nat)
    | RemoveTail(list: nat)
    | Remove(list: nat, e: T)

  /** The entry is in one of the lists. */
  ghost predicate Linked<T>(v: View<T>, e: T) {
    exists l :: 0 <= l < |v.lists| && e in v.lists[l]
  }

  /** No entry is in two lists or twice in one. */
  ghost predicate Apart<T>(lists: seq<seq<T>>) {
    && (forall l :: 0 <= l < |lists| ==> Distinct(lists[l]))
    && (forall l, m, e :: 0 <= l < |lists| && 0 <= m < |lists| && l != m && e in lists[l] ==> e !in lists[m])
  }

  /** Moreover none is in a list and marked as free. */
  ghost predicate Sound<T>(v: View<T>) {
    && Apart(v.lists)
    && (forall l, e {:trigger e in v.lists[l]} :: 0 <= l < |v.lists| && e in v.lists[l] ==>
          e in v.pool && e !in v.cleared)
  }

  /** Every entry of the pool is in a list or marked as free. */
  ghost predicate Covered<T>(v: View<T>) {
    && (forall e :: e in v.pool ==> e in v.cleared || Linked(v, e))
    && (forall e :: e in v.cleared ==> e in v.pool)
  }

  /** What the operations ask of their callers. */
  ghost predicate Allowed<T>(v: View<T>, op: Op<T>) {
    && op.list < |v.lists|
    && match op
       case InsertHead(l, e) => e in v.pool && !Linked(v, e)
       case InsertTail(l, e) => e in v.pool && !Linked(v, e)
       case InsertAfter(l, at, e) => at.Some? ==> at.value in v.lists[l] && e in v.pool && !Linked(v, e)
       case Remove(l, e) => e in v.pool && (e in v.cleared || e in v.lists[l])
       case _ => true
  }

  ghost function Relist<T>(v: View<T>, l: nat, s: seq<T>, cleared: set<T>): View<T>
    requires l < |v.lists|
  {
    v.(lists := v.lists[l := s], cleared := cleared)
  }

  ghost function Step<T>(v: View<T>, op: Op<T>): View<T>
    requires op.list < |v.lists|
  {
    var s := v.lists[op.list];
    match op
    case InsertHead(l, e) => Relist(v, l, [e] + s, v.cleared - {e})
    case InsertTail(l, e) => Relist(v, l, s + [e], v.cleared - {e})
    case InsertAfter(l, at, e) => if at.None? then v else Relist(v, l, Behind(s, at.value, e), v.cleared - {e})
    case CutHead(l) => if s == [] then v else Relist(v, l, s[1..], v.cleared + {s[0]})
    case RemoveHead(l) => if s == [] then v else Relist(v, l, s[1..], v.cleared + {s[0]})
    case RemoveTail(l) => if s == [] then v else Relist(v, l, s[..|s| - 1], v.cleared + {Last(s)})
    case Remove(l, e) => if e in v.cleared then v else Relist(v, l, Without(s, e), v.cleared + {e})
  }

  /** The entry that an operation hands out, if any. */
  ghost function Cut<T>(v: View<T>, op: Op<T>): seq<T>
    requires op.list < |v.lists|
  {
    if op.CutHead? && v.lists[op.list] != [] then [v.lists[op.list][0]] else []
  }

  ghost predicate AllowedRun<T>(v: View<T>, ops: seq<Op<T>>)
    decreases |ops|
  {
    ops == [] || (Allowed(v, ops[0]) && AllowedRun(Step(v, ops[0]), ops[1..]))
  }

  ghost function Run<T>(v: View<T>, ops: seq<Op<T>>): View<T>
    requires AllowedRun(v, ops)
    decreases |ops|
  {
    if ops == [] then v else Run(Step(v, ops[0]), ops[1..])
  }

  /** The entries that the cuts of a run hand out, in order. */
  ghost function Cuts<T>(v: View<T>, ops: seq<Op<T>>): seq<T>
    requires AllowedRun(v, ops)
    decreases |ops|
  {
    if ops == [] then [] else Cut(v, ops[0]) + Cuts(Step(v, ops[0]), ops[1..])
  }

  ghost function Total<T>(lists: seq<seq<T>>): nat {
    if lists == [] then 0 else |lists[0]| + Total(lists[1..])
  }

  // ---- One step ----

  /** Replacing one list by one with an added or a removed entry keeps soundness and cover. */
  lemma RelistAdds<T>(v: View<T>, l: nat, s: seq<T>, e: T)
    requires Sound(v) && Covered(v) && l < |v.lists| && Distinct(s)
    requires e in v.pool && !Linked(v, e)
    requires forall x :: x in s <==> x in v.lists[l] || x == e
    ensures Sound(Relist(v, l, s, v.cleared - {e})) && Covered(Relist(v, l, s, v.cleared - {e}))
  {
    var w := Relist(v, l, s, v.cleared - {e});
    forall m, x | 0 <= m < |w.lists| && x in w.lists[m]
      ensures x in w.pool && x !in w.cleared && (m != l ==> x in v.lists[m])
    {
      assert m != l ==> w.lists[m] == v.lists[m];
      assert m == l && x != e ==> x in v.lists[l];
    }
    forall x | x in w.pool ensures x in w.cleared || Linked(w, x) {
      if x == e {
        assert x in w.lists[l];
      } else if x !in v.cleared {
        var m :| 0 <= m < |v.lists| && x in v.lists[m];
        assert x in w.lists[m];
      }
    }
  }

  lemma RelistRemoves<T>(v: View<T>, l: nat, s: seq<T>, e: T)
    requires Sound(v) && Covered(v) && l < |v.lists| && Distinct(s) && e in v.lists[l]
    requires forall x :: x in s <==> x in v.lists[l] && x != e
    ensures Sound(Relist(v, l, s, v.cleared + {e})) && Covered(Relist(v, l, s, v.cleared + {e}))
  {
    var w := Relist(v, l, s, v.cleared + {e});
    forall m, x | 0 <= m < |w.lists| && x in w.lists[m]
      ensures x in w.pool && x !in w.cleared && (m != l ==> x in v.lists[m])
    {
      assert m != l ==> w.lists[m] == v.lists[m];
      assert m == l && x != e ==> x in v.lists[l];
    }
    forall x | x in w.pool ensures x in w.cleared || Linked(w, x) {
      if x != e && x !in v.cleared {
        var m :| 0 <= m < |v.lists| && x in v.lists[m];
        assert x in w.lists[m];
      }
    }
  }

  lemma {:induction false} TotalRelist<T>(lists: seq<seq<T>>, l: nat, s: seq<T>)
    requires l < |lists|
    ensures Total(lists[l := s]) == Total(lists) - |lists[l]| + |s|
  {
    if l == 0 {
      assert lists[l := s][1..] == lists[1..];
    } else {
      TotalRelist(lists[1..], l - 1, s);
      assert lists[l := s][1..] == lists[1..][l - 1 := s];
    }
  }

  lemma FirstApart<T>(s: seq<T>)
    requires s != [] && Distinct(s)
    ensures Distinct(s[1..]) && forall x :: x in s[1..] <==> x in s && x != s[0]
  {
  }

  lemma LastApart<T>(s: seq<T>)
    requires s != [] && Distinct(s)
    ensures Distinct(s[..|s| - 1]) && forall x :: x in s[..|s| - 1] <==> x in s && x != Last(s)
  {
    assert s == s[..|s| - 1] + [Last(s)];
  }

  lemma StepSound<T>(v: View<T>, op: Op<T>)
    requires Sound(v) && Covered(v) && Allowed(v, op)
    ensures Sound(Step(v, op)) && Covered(Step(v, op))
  {
    var s := v.lists[op.list];
    match op
    case InsertHead(l, e) => assert e !in s; RelistAdds(v, l, [e] + s, e);
    case InsertTail(l, e) => assert e !in s; RelistAdds(v, l, s + [e], e);
    case InsertAfter(l, at, e) =>
      if at.Some? {
        assert e !in s;
        BehindElements(s, at.value, e);
        RelistAdds(v, l, Behind(s, at.value, e), e);
      }
    case CutHead(l) => if s != [] { FirstApart(s); RelistRemoves(v, l, s[1..], s[0]); }
    case RemoveHead(l) => if s != [] { FirstApart(s); RelistRemoves(v, l, s[1..], s[0]); }
    case RemoveTail(l) => if s != [] { LastApart(s); RelistRemoves(v, l, s[..|s| - 1], Last(s)); }
    case Remove(l, e) =>
      if e !in v.cleared {
        WithoutElements(s, e);
        RelistRemoves(v, l, Without(s, e), e);
      }
  }

  /** No step loses or duplicates an entry: linked entries plus free entries stay constant. */
  lemma StepConserves<T>(v: View<T>, op: Op<T>)
    requires Sound(v) && Covered(v) && Allowed(v, op)
    ensures |Step(v, op).cleared| + Total(Step(v, op).lists) == |v.cleared| + Total(v.lists)
  {
    var s := v.lists[op.list];
    var w := Step(v, op);
    TotalRelist(v.lists, op.list, w.lists[op.list]);
    match op
    case InsertHead(l, e) => assert e in v.cleared;
    case InsertTail(l, e) => assert e in v.cleared;
    case InsertAfter(l, at, e) =>
      if at.Some? {
        assert e in v.cleared;
        assert e !in s;
        BehindElements(s, at.value, e);
      }
    case CutHead(l) => assert s != [] ==> s[0] in v.lists[l];
    case RemoveHead(l) => assert s != [] ==> s[0] in v.lists[l];
    case RemoveTail(l) => assert s != [] ==> Last(s) in v.lists[l];
    case Remove(l, e) =>
      if e !in v.cleared {
        var k :| 0 <= k < |s| && s[k] == e;
        WithoutAt(s, k);
      }
  }

  // ---- Runs ----

  /** Along every run the lists stay disjoint and the entries stay partitioned and conserved. */
  lemma {:induction false} RunConserves<T>(v: View<T>, ops: seq<Op<T>>)
    requires Sound(v) && Covered(v) && AllowedRun(v, ops)
    ensures Sound(Run(v, ops)) && Covered(Run(v, ops))
    ensures Run(v, ops).pool == v.pool && |Run(v, ops).lists| == |v.lists|
    ensures |Run(v, ops).cleared| + Total(Run(v, ops).lists) == |v.cleared| + Total(v.lists)
    decreases |ops|
  {
    if ops == [] {
    } else {
      StepSound(v, ops[0]);
      StepConserves(v, ops[0]);
      RunConserves(Step(v, ops[0]), ops[1..]);
    }
  }

  lemma {:induction false} RunShape<T>(v: View<T>, ops: seq<Op<T>>)
    requires AllowedRun(v, ops)
    ensures |Run(v, ops).lists| == |v.lists| && Run(v, ops).pool == v.pool
    decreases |ops|
  {
    if ops == [] {
    } else {
      RunShape(Step(v, ops[0]), ops[1..]);
    }
  }

  /** No operation of the run is on that list. */
  ghost predicate Unnamed<T>(ops: seq<Op<T>>, m: nat) {
    forall k :: 0 <= k < |ops| ==> ops[k].list != m
  }

  /** A run leaves every list it does not name exactly as it was. */
  lemma {:induction false} RunFrames<T>(v: View<T>, ops: seq<Op<T>>, m: nat)
    requires AllowedRun(v, ops) && m < |v.lists|
    requires Unnamed(ops, m)
    ensures m < |Run(v, ops).lists| && Run(v, ops).lists[m] == v.lists[m]
    decreases |ops|
  {
    if ops == [] {
    } else {
      RunFrames(Step(v, ops[0]), ops[1..], m);
    }
  }

  /** What holds of the state that a run leads to, and of the lists it does not name. */
  lemma RunLaws<T>(v: View<T>, ops: seq<Op<T>>)
    requires Sound(v) && AllowedRun(v, ops)
    ensures Run(v, ops).pool == v.pool && |Run(v, ops).lists| == |v.lists|
    ensures forall m :: 0 <= m < |v.lists| && Unnamed(ops, m) ==> Run(v, ops).lists[m] == v.lists[m]
    ensures Covered(v) ==>
              && Covered(Run(v, ops))
              && |Run(v, ops).cleared| + Total(Run(v, ops).lists) == |v.cleared| + Total(v.lists)
  {
    RunShape(v, ops);
    forall m | 0 <= m < |v.lists| && Unnamed(ops, m) ensures Run(v, ops).lists[m] == v.lists[m] {
      RunFrames(v, ops, m);
    }
    if Covered(v) {
      RunConserves(v, ops);
    }
  }

  ghost function Empties<T>(n: nat): (r: seq<seq<T>>)
    ensures |r| == n && Total(r) == 0 && forall l :: 0 <= l < n ==> r[l] == []
  {
    if n == 0 then [] else [[]] + Empties(n - 1)
  }

  /** n empty lists over a pool of free entries. */
  ghost function Fresh<T>(n: nat, pool: set<T>): View<T> {
    View(Empties(n), pool, pool)
  }

  /** Starting with all entries free, the two counts add up to the size of the pool for ever. */
  lemma RunFillsPool<T>(n: nat, pool: set<T>, ops: seq<Op<T>>)
    requires AllowedRun(Fresh(n, pool), ops)
    ensures var w := Run(Fresh(n, pool), ops); Sound(w) && Covered(w) && |w.cleared| + Total(w.lists) == |pool|
  {
    RunConserves(Fresh(n, pool), ops);
  }

  // ---- Runs cut into pieces ----

  /** A run of one operation is that operation. */
  lemma RunOne<T>(v: View<T>, op: Op<T>)
    ensures AllowedRun(v, [op]) <==> Allowed(v, op)
    ensures Allowed(v, op) ==> Run(v, [op]) == Step(v, op) && Cuts(v, [op]) == Cut(v, op)
  {
    assert [op][1..] == [];
  }

  /** A run can be cut anywhere. */
  lemma {:induction false} RunJoin<T>(v: View<T>, ops: seq<Op<T>>, more: seq<Op<T>>, whole: seq<Op<T>>)
    requires whole == ops + more
    ensures AllowedRun(v, whole) <==> AllowedRun(v, ops) && AllowedRun(Run(v, ops), more)
    ensures AllowedRun(v, whole) ==> Run(v, whole) == Run(Run(v, ops), more)
    decreases |ops|
  {
    if ops == [] {
      assert whole == more;
    } else {
      HeadOfSum(ops, more);
      if Allowed(v, ops[0]) {
        RunJoin(Step(v, ops[0]), ops[1..], more, whole[1..]);
      }
    }
  }

  lemma {:induction false} CutsJoin<T>(v: View<T>, ops: seq<Op<T>>, more: seq<Op<T>>, whole: seq<Op<T>>)
    requires whole == ops + more
    requires AllowedRun(v, ops) && AllowedRun(Run(v, ops), more)
    ensures AllowedRun(v, whole) && Cuts(v, whole) == Cuts(v, ops) + Cuts(Run(v, ops), more)
    decreases |ops|
  {
    if ops == [] {
      assert whole == more;
    } else {
      HeadOfSum(ops, more);
      var w, later := Step(v, ops[0]), Cuts(Run(v, ops), more);
      CutsJoin(w, ops[1..], more, whole[1..]);
      JoinSlices(Cut(v, ops[0]), Cuts(w, whole[1..]), Cuts(w, ops[1..]), later);
    }
  }

  lemma RunTwo<T>(v: View<T>, first: Op<T>, second: Op<T>)
    requires Allowed(v, first) && Allowed(Step(v, first), second)
    ensures var ops := [first, second];
      && AllowedRun(v, ops)
      && Run(v, ops) == Step(Step(v, first), second)
      && Cuts(v, ops) == Cut(v, first) + Cut(Step(v, first), second)
  {
    assert [first, second][1..] == [second];
    RunOne(Step(v, first), second);
  }

  // ---- Operations that undo each other or amount to the same ----

  /** Deleting an entry that has a predecessor and putting it back behind it restores every list. */
  lemma RemoveThenInsertAfter<T>(v: View<T>, l: nat, k: nat)
    requires Sound(v) && l < |v.lists| && 0 < k < |v.lists[l]|
    ensures var s := v.lists[l];
      var ops := [Remove(l, s[k]), InsertAfter(l, Some(s[k - 1]), s[k])];
      AllowedRun(v, ops) && Run(v, ops) == v && Cuts(v, ops) == []
  {
    var s, t := v.lists[l], Without(v.lists[l], v.lists[l][k]);
    assert s[k] in s && s[k - 1] in s;
    var w := Step(v, Remove(l, s[k]));
    assert w == Relist(v, l, t, v.cleared + {s[k]});
    WithoutElements(s, s[k]);
    assert forall m :: 0 <= m < |w.lists| && m != l ==> w.lists[m] == v.lists[m];
    WithoutThenBehind(s, k);
    assert v.cleared + {s[k]} - {s[k]} == v.cleared;
    assert v.lists[l := t][l := s] == v.lists;
    RunTwo(v, Remove(l, s[k]), InsertAfter(l, Some(s[k - 1]), s[k]));
  }

  lemma {:induction false} AppendThenWithout<T>(s: seq<T>, e: T)
    requires e !in s
    ensures Without(s + [e], e) == s
  {
    if s == [] {
    } else {
      AppendThenWithout(s[1..], e);
      assert (s + [e])[1..] == s[1..] + [e];
    }
  }

  /** The state after an insertion, and what undoes it. */
  lemma Inserted<T>(v: View<T>, op: Op<T>)
    requires Sound(v) && Covered(v) && Allowed(v, op)
    requires op.InsertHead? || op.InsertTail? || (op.InsertAfter? && op.at.Some?)
    ensures var w := Step(v, op);
      && |w.lists| == |v.lists| && op.e in w.lists[op.list] && op.e in v.cleared
      && Relist(w, op.list, v.lists[op.list], w.cleared + {op.e}) == v
  {
    var w, s := Step(v, op), v.lists[op.list];
    assert op.e !in s && op.e in v.cleared;
    if op.InsertAfter? {
      BehindElements(s, op.at.value, op.e);
    }
    assert v.lists[op.list := w.lists[op.list]][op.list := s] == v.lists;
    assert v.cleared - {op.e} + {op.e} == v.cleared;
  }

  /** A fresh entry that is inserted anywhere is taken out again without a trace. */
  lemma InsertThenRemove<T>(v: View<T>, op: Op<T>)
    requires Sound(v) && Covered(v) && Allowed(v, op)
    requires op.InsertHead? || op.InsertTail? || (op.InsertAfter? && op.at.Some?)
    ensures var ops := [op, Remove(op.list, op.e)];
      AllowedRun(v, ops) && Run(v, ops) == v && Cuts(v, ops) == []
  {
    var s := v.lists[op.list];
    Inserted(v, op);
    assert op.e !in s;
    if op.InsertTail? {
      AppendThenWithout(s, op.e);
    } else if op.InsertAfter? {
      BehindThenWithout(s, op.at.value, op.e);
    } else {
      assert ([op.e] + s)[1..] == s;
    }
    RunTwo(v, op, Remove(op.list, op.e));
  }

  /** Removing or cutting the head takes back what was inserted there; the cut hands it out. */
  lemma HeadThenHead<T>(v: View<T>, l: nat, e: T)
    requires Sound(v) && Covered(v) && Allowed(v, InsertHead(l, e))
    ensures var ops := [InsertHead(l, e), RemoveHead(l)];
      AllowedRun(v, ops) && Run(v, ops) == v && Cuts(v, ops) == []
    ensures var ops := [InsertHead(l, e), CutHead(l)];
      AllowedRun(v, ops) && Run(v, ops) == v && Cuts(v, ops) == [e]
  {
    Inserted(v, InsertHead(l, e));
    var s := v.lists[l];
    assert ([e] + s)[1..] == s;
    RunTwo(v, InsertHead(l, e), RemoveHead(l));
    RunTwo(v, InsertHead(l, e), CutHead(l));
  }

  /** Removing the tail takes back what was inserted there. */
  lemma TailThenTail<T>(v: View<T>, l: nat, e: T)
    requires Sound(v) && Covered(v) && Allowed(v, InsertTail(l, e))
    ensures var ops := [InsertTail(l, e), RemoveTail(l)];
      AllowedRun(v, ops) && Run(v, ops) == v && Cuts(v, ops) == []
  {
    Inserted(v, InsertTail(l, e));
    var t := v.lists[l] + [e];
    assert t[..|t| - 1] == v.lists[l];
    RunTwo(v, InsertTail(l, e), RemoveTail(l));
  }

  /** Inserting at the tail is inserting behind the last entry or, into an empty list, at the head. */
  lemma TailIsBehindLast<T>(v: View<T>, l: nat, e: T)
    requires Sound(v) && Allowed(v, InsertTail(l, e))
    ensures var s := v.lists[l];
      if s == [] then Allowed(v, InsertHead(l, e)) && Step(v, InsertTail(l, e)) == Step(v, InsertHead(l, e))
      else
        var op := InsertAfter(l, Some(Last(s)), e);
        Allowed(v, op) && Step(v, InsertTail(l, e)) == Step(v, op)
  {
    var s := v.lists[l];
    if s != [] {
      assert Last(s) in s;
      BehindLast(s, e);
    } else {
      assert s + [e] == [e] + s;
    }
  }

  /** Inserting behind a new head is inserting at the head before it. */
  lemma BehindHead<T>(v: View<T>, l: nat, e: T, f: T)
    requires Sound(v) && Covered(v) && e != f && Allowed(v, InsertHead(l, e)) && Allowed(v, InsertHead(l, f))
    ensures var ops, ops' := [InsertHead(l, e), InsertAfter(l, Some(e), f)], [InsertHead(l, f), InsertHead(l, e)];
      AllowedRun(v, ops) && AllowedRun(v, ops') && Run(v, ops) == Run(v, ops')
  {
    var s, w, x := v.lists[l], Step(v, InsertHead(l, e)), Step(v, InsertHead(l, f));
    assert forall m :: 0 <= m < |v.lists| && m != l ==> w.lists[m] == v.lists[m] && x.lists[m] == v.lists[m];
    assert Behind([e] + s, e, f) == [e] + ([f] + s) by {
      assert ([e] + s)[1..] == s;
    }
    assert v.lists[l := [e] + s][l := [e] + ([f] + s)] == v.lists[l := [f] + s][l := [e] + ([f] + s)];
    assert v.cleared - {e} - {f} == v.cleared - {f} - {e};
    RunTwo(v, InsertHead(l, e), InsertAfter(l, Some(e), f));
    RunTwo(v, InsertHead(l, f), InsertHead(l, e));
  }

  /** Removing by name at either end is removing there. */
  lemma RemoveEnds<T>(v: View<T>, l: nat)
    requires Sound(v) && l < |v.lists| && v.lists[l] != []
    ensures var first := Remove(l, v.lists[l][0]);
      Allowed(v, first) && Step(v, first) == Step(v, RemoveHead(l)) && Step(v, first) == Step(v, CutHead(l))
    ensures var last := Remove(l, Last(v.lists[l]));
      Allowed(v, last) && Step(v, last) == Step(v, RemoveTail(l))
  {
    var s := v.lists[l];
    assert s[0] in s && Last(s) in s;
    WithoutAt(s, |s| - 1);
    assert s[..|s| - 1] + s[|s|..] == s[..|s| - 1];
  }

  lemma ForbiddenInsertion<T>(v: View<T>, l: nat, s: seq<T>, e: T)
    requires Sound(v) && l < |v.lists| && e in s && (e !in v.pool || Linked(v, e))
    requires e in v.lists[l] ==> !Distinct(s)
    ensures !Sound(Relist(v, l, s, v.cleared - {e}))
  {
    var w := Relist(v, l, s, v.cleared - {e});
    assert e in w.lists[l];
    if e in v.pool && e !in v.lists[l] {
      var m :| 0 <= m < |v.lists| && e in v.lists[m];
      assert e in w.lists[m];
    }
  }

  lemma Repeated<T>(front: seq<T>, e: T, back: seq<T>)
    requires e in front || e in back
    ensures !Distinct(front + [e] + back)
  {
    var s := front + [e] + back;
    if e in front {
      var j :| 0 <= j < |front| && front[j] == e;
      assert s[j] == s[|front|];
    } else {
      var j :| 0 <= j < |back| && back[j] == e;
      assert s[|front|] == s[|front| + 1 + j];
    }
  }

  lemma ForbiddenRemoval<T>(v: View<T>, l: nat, e: T)
    requires Sound(v) && Covered(v) && l < |v.lists| && !Allowed(v, Remove(l, e))
    ensures !(Sound(Step(v, Remove(l, e))) && Covered(Step(v, Remove(l, e))))
  {
    var w := Step(v, Remove(l, e));
    assert e in w.cleared;
    if e in v.pool {
      var m :| 0 <= m < |v.lists| && e in v.lists[m];
      assert e in w.lists[m];
    }
  }

  /** What is asked of callers is exactly what keeps the lists sound and all entries accounted for. */
  lemma AllowedExactly<T>(v: View<T>, op: Op<T>)
    requires Sound(v) && Covered(v) && op.list < |v.lists|
    requires op.InsertAfter? && op.at.Some? ==> op.at.value in v.lists[op.list]
    ensures Allowed(v, op) <==> Sound(Step(v, op)) && Covered(Step(v, op))
  {
    if Allowed(v, op) {
      StepSound(v, op);
    } else {
      var s := v.lists[op.list];
      match op
      case InsertHead(l, e) =>
        if e in s { Repeated([], e, s); assert [] + [e] + s == [e] + s; }
        ForbiddenInsertion(v, l, [e] + s, e);
      case InsertTail(l, e) =>
        if e in s { Repeated(s, e, []); assert s + [e] + [] == s + [e]; }
        ForbiddenInsertion(v, l, s + [e], e);
      case InsertAfter(l, at, e) =>
        var k :| 0 <= k < |s| && s[k] == at.value;
        BehindAt(s, k, e);
        if e in s { assert s == s[..k + 1] + s[k + 1..]; Repeated(s[..k + 1], e, s[k + 1..]); }
        ForbiddenInsertion(v, l, Behind(s, at.value, e), e);
      case Remove(l, e) => ForbiddenRemoval(v, l, e);
    }
  }

  /** Empty lists, null positions and entries in no list make the operations do nothing. */
  lemma NoEffect<T>(v: View<T>, op: Op<T>)
    requires Sound(v) && op.list < |v.lists|
    requires
      || (v.lists[op.list] == [] && (op.CutHead? || op.RemoveHead? || op.RemoveTail?))
      || (op.InsertAfter? && op.at.None?)
      || (op.Remove? && op.e in v.cleared && op.e in v.pool)
    ensures Allowed(v, op) && Step(v, op) == v && Cut(v, op) == []
  {
  }

  // ---- Soundness by counting ----

  ghost function Elements<T>(s: seq<T>): set<T> {
    set x | x in s
  }

  lemma {:induction false} ElementsCount<T>(s: seq<T>)
    ensures |Elements(s)| <= |s| && (|Elements(s)| == |s| <==> Distinct(s))
  {
    if s == [] {
    } else {
      ElementsCount(s[1..]);
      assert Elements(s) == Elements(s[1..]) + {s[0]};
      assert Distinct(s) <==> Distinct(s[1..]) && s[0] !in s[1..] by {
        if Distinct(s[1..]) && s[0] !in s[1..] {
          forall j, k | 0 <= j < k < |s| ensures s[j] != s[k] {
            assert s[k] == s[1..][k - 1];
          }
        }
      }
    }
  }

  /** The entries of some list. */
  ghost function AllElements<T>(lists: seq<seq<T>>): (r: set<T>)
    ensures forall l, e {:trigger e in lists[l]} :: 0 <= l < |lists| && e in lists[l] ==> e in r
    ensures forall e :: e in r ==> exists l :: 0 <= l < |lists| && e in lists[l]
  {
    if lists == [] then {}
    else
      var rest := lists[1..];
      assert forall l :: 0 < l < |lists| ==> lists[l] == rest[l - 1];
      Elements(lists[0]) + AllElements(rest)
  }

  lemma ApartFirst<T>(lists: seq<seq<T>>)
    requires lists != []
    ensures Apart(lists) <==>
            Distinct(lists[0]) && Apart(lists[1..]) && Elements(lists[0]) !! AllElements(lists[1..])
  {
    var rest := lists[1..];
    if Apart(lists) {
      assert Elements(lists[0]) !! AllElements(rest);
    }
    if Distinct(lists[0]) && Apart(rest) && Elements(lists[0]) !! AllElements(rest) {
      forall l, e | 0 < l < |lists| && e in lists[l] ensures e !in lists[0] {
        assert e in rest[l - 1];
      }
      forall l | 0 <= l < |lists| ensures Distinct(lists[l]) {
        assert l > 0 ==> lists[l] == rest[l - 1];
      }
      forall l, m, e | 0 <= l < |lists| && 0 <= m < |lists| && l != m && e in lists[l] ensures e !in lists[m] {
        assert l > 0 ==> lists[l] == rest[l - 1];
        assert m > 0 ==> lists[m] == rest[m - 1];
      }
    }
  }

  lemma UnionSize<T>(a: set<T>, b: set<T>)
    ensures |a + b| <= |a| + |b| && (|a + b| == |a| + |b| <==> a !! b)
  {
    assert |a + b| + |a * b| == |a| + |b|;
    if a * b == {} {
      forall x | x in a ensures x !in b {
        assert x !in a * b;
      }
    }
  }

  lemma {:induction false} AllElementsCount<T>(lists: seq<seq<T>>)
    ensures |AllElements(lists)| <= Total(lists) && (|AllElements(lists)| == Total(lists) <==> Apart(lists))
  {
    if lists == [] {
    } else {
      var a, b := Elements(lists[0]), AllElements(lists[1..]);
      ElementsCount(lists[0]);
      AllElementsCount(lists[1..]);
      ApartFirst(lists);
      UnionSize(a, b);
    }
  }

  /** The lists hold entries of the pool alone. */
  ghost predicate FromPool<T>(v: View<T>) {
    forall l, e {:trigger e in v.lists[l]} :: 0 <= l < |v.lists| && e in v.lists[l] ==> e in v.pool
  }

  lemma PoolSplits<T>(v: View<T>)
    requires Covered(v) && FromPool(v)
    ensures v.pool == v.cleared + AllElements(v.lists)
    ensures Sound(v) <==> Apart(v.lists) && v.cleared !! AllElements(v.lists)
  {
    var linked := AllElements(v.lists);
    assert forall e :: e in linked ==> Linked(v, e);
    assert forall e :: e in v.pool && Linked(v, e) ==> e in linked;
  }

  /** When every entry is linked or free, the lists are sound exactly if the two counts add up to the pool. */
  lemma SoundExactly<T>(v: View<T>)
    requires Covered(v) && FromPool(v)
    ensures Sound(v) <==> |v.cleared| + Total(v.lists) == |v.pool|
  {
    PoolSplits(v);
    AllElementsCount(v.lists);
    UnionSize(v.cleared, AllElements(v.lists));
  }
}
