/**
 A pool of entries with several list variables over it. The concrete operations on the
 links take the pool from one abstract state to the next, so whole runs of them do, too.
 */
module PoolRuns {
  import opened Indices
  import opened Options
  import opened Sequences
  import opened PooledLists
  import opened PoolModel

  ghost function Cleared(base: seq<Link>): (r: set<Index>)
    ensures forall e: Index :: e in r <==> e < |base| && base[e].prev == NULL
  {
    set e: Index | 0 <= e <= 255 && e < |base| && base[e].prev == NULL
  }

  /** All indices below a size. */
  ghost function UpTo(size: nat): (r: set<Index>)
    requires size <= NULL
    ensures forall i: Index :: i in r <==> i < size
  {
    if size == 0 then {} else UpTo(size - 1) + {size - 1}
  }

  lemma {:induction false} UpToSize(size: nat)
    requires size <= NULL
    ensures |UpTo(size)| == size
  {
    if size == 0 {
    } else {
      UpToSize(size - 1);
    }
  }

  /** A position as it is written in the links. */
  function Given(at: Index): Option<Index> {
    if at == NULL then None else Some(at)
  }

  /** Linking one new entry takes exactly that entry out of the cleared ones. */
  lemma ClearedAfterInsert(before: seq<Link>, after: seq<Link>, list: Index, s: seq<Index>,
                           list': Index, t: seq<Index>, e: Index)
    requires Threads(before, list, s) && Threads(after, list', t)
    requires SameOutside(before, after, t)
    requires forall x :: x in t <==> x in s || x == e
    ensures Cleared(after) == Cleared(before) - {e}
  {
    LinkedIsMarked(before, list, s);
    LinkedIsMarked(after, list', t);
  }

  lemma ClearedAfterRemove(before: seq<Link>, after: seq<Link>, list: Index, s: seq<Index>,
                           list': Index, t: seq<Index>, e: Index)
    requires Threads(before, list, s) && Threads(after, list', t)
    requires SameOutside(before, after, s)
    requires e in s && after[e].prev == NULL
    requires forall x :: x in t <==> x in s && x != e
    ensures Cleared(after) == Cleared(before) + {e}
  {
  }

  class Pool {
    const base: array<Link>
    const lists: array<Index>
    ghost var seqs: seq<seq<Index>>

    ghost predicate Valid()
      reads this, base, lists
    {
      && base.Length <= NULL
      && lists.Length == |seqs|
      && (forall l :: 0 <= l < |seqs| ==> Threads(base[..], lists[l], seqs[l]))
      && (forall l, m, e :: 0 <= l < |seqs| && 0 <= m < |seqs| && l != m && e in seqs[l] ==> e !in seqs[m])
    }

    ghost function Abstract(): View<Index>
      reads this, base, lists
      requires Valid()
    {
      View(seqs, Cleared(base[..]), UpTo(base.Length))
    }

    /** All lists empty, all entries marked as being in none of them. */
    constructor (n: nat, size: nat)
      requires size <= NULL
      ensures Valid() && fresh(base) && fresh(lists)
      ensures Abstract() == Fresh(n, UpTo(size))
      ensures |seqs| == n && forall l :: 0 <= l < n ==> seqs[l] == []
    {
      base := new Link[size](_ => Link(NULL, NULL));
      lists := new Index[n](_ => NULL);
      seqs := Empties(n);
      new;
      assert Cleared(base[..]) == UpTo(size);
    }

    /** When an operation on list l wrote only to `touched`, all the other lists still stand. */
    lemma OthersKept(before: seq<Link>, l: nat, touched: seq<Index>)
      requires l < |seqs| == lists.Length && |before| == base.Length <= NULL
      requires SameOutside(before, base[..], touched)
      requires forall m :: 0 <= m < |seqs| && m != l ==> Threads(before, lists[m], seqs[m])
      requires forall m, e :: 0 <= m < |seqs| && m != l && e in seqs[m] ==> e !in touched
      ensures forall m :: 0 <= m < |seqs| && m != l ==> Threads(base[..], lists[m], seqs[m])
    {
      forall m | 0 <= m < |seqs| && m != l ensures Threads(base[..], lists[m], seqs[m]) {
        ThreadsFrame(before, base[..], touched, lists[m], seqs[m]);
      }
    }

    method InsertHead(l: nat, e: Index)
      requires Valid() && Allowed(Abstract(), Op.InsertHead(l, e))
      modifies this, base, lists
      ensures Valid() && Abstract() == Step(old(Abstract()), Op.InsertHead(l, e))
      ensures seqs == old(seqs)[l := [e] + old(seqs)[l]]
    {
      ghost var before, list, s := base[..], lists[l], seqs[l];
      assert e !in s;
      var h := PooledLists.InsertHead(base, lists[l], e, s);
      lists[l] := h;
      seqs := seqs[l := [e] + s];
      OthersKept(before, l, [e] + s);
      ClearedAfterInsert(before, base[..], list, s, h, [e] + s, e);
    }

    method InsertTail(l: nat, e: Index)
      requires Valid() && Allowed(Abstract(), Op.InsertTail(l, e))
      modifies this, base, lists
      ensures Valid() && Abstract() == Step(old(Abstract()), Op.InsertTail(l, e))
      ensures seqs == old(seqs)[l := old(seqs)[l] + [e]]
    {
      ghost var before, list, s := base[..], lists[l], seqs[l];
      assert e !in s;
      var h := PooledLists.InsertTail(base, lists[l], e, s);
      lists[l] := h;
      seqs := seqs[l := s + [e]];
      OthersKept(before, l, s + [e]);
      ClearedAfterInsert(before, base[..], list, s, h, s + [e], e);
    }

    method InsertAfter(l: nat, at: Index, e: Index)
      requires Valid() && e != NULL && Allowed(Abstract(), Op.InsertAfter(l, Given(at), e))
      modifies this, base, lists
      ensures Valid() && Abstract() == Step(old(Abstract()), Op.InsertAfter(l, Given(at), e))
      ensures seqs == if at == NULL then old(seqs) else old(seqs)[l := Behind(old(seqs)[l], at, e)]
    {
      ghost var before, list, s := base[..], lists[l], seqs[l];
      assert at != NULL ==> e !in s;
      var h := PooledLists.InsertAfter(base, lists[l], at, e, s);
      lists[l] := h;
      if at != NULL {
        seqs := seqs[l := Behind(s, at, e)];
        BehindElements(s, at, e);
        ClearedAfterInsert(before, base[..], list, s, h, Behind(s, at, e), e);
        OthersKept(before, l, s + [e]);
      }
    }

    method CutHead(l: nat) returns (out: Index)
      requires Valid() && Allowed(Abstract(), Op.CutHead(l))
      modifies this, base, lists
      ensures Valid() && Abstract() == Step(old(Abstract()), Op.CutHead(l))
      ensures seqs == if old(seqs)[l] == [] then old(seqs) else old(seqs)[l := old(seqs)[l][1..]]
      ensures out == HeadOf(old(seqs)[l])
    {
      ghost var before, list, s := base[..], lists[l], seqs[l];
      var h;
      h, out := PooledLists.CutHead(base, lists[l], s);
      lists[l] := h;
      if s != [] {
        seqs := seqs[l := s[1..]];
        FirstApart(s);
        ClearedAfterRemove(before, base[..], list, s, h, s[1..], s[0]);
      }
      OthersKept(before, l, s);
    }

    method RemoveHead(l: nat)
      requires Valid() && Allowed(Abstract(), Op.RemoveHead(l))
      modifies this, base, lists
      ensures Valid() && Abstract() == Step(old(Abstract()), Op.RemoveHead(l))
      ensures seqs == if old(seqs)[l] == [] then old(seqs) else old(seqs)[l := old(seqs)[l][1..]]
    {
      ghost var before, list, s := base[..], lists[l], seqs[l];
      var h := PooledLists.RemoveHead(base, lists[l], s);
      lists[l] := h;
      if s != [] {
        seqs := seqs[l := s[1..]];
        FirstApart(s);
        ClearedAfterRemove(before, base[..], list, s, h, s[1..], s[0]);
      }
      OthersKept(before, l, s);
    }

    method RemoveTail(l: nat)
      requires Valid() && Allowed(Abstract(), Op.RemoveTail(l))
      modifies this, base, lists
      ensures Valid() && Abstract() == Step(old(Abstract()), Op.RemoveTail(l))
      ensures seqs == if old(seqs)[l] == [] then old(seqs) else old(seqs)[l := old(seqs)[l][..|old(seqs)[l]| - 1]]
    {
      ghost var before, list, s := base[..], lists[l], seqs[l];
      var h := PooledLists.RemoveTail(base, lists[l], s);
      lists[l] := h;
      if s != [] {
        seqs := seqs[l := s[..|s| - 1]];
        LastApart(s);
        ClearedAfterRemove(before, base[..], list, s, h, s[..|s| - 1], Last(s));
      }
      OthersKept(before, l, s);
    }

    method Remove(l: nat, e: Index)
      requires Valid() && Allowed(Abstract(), Op.Remove(l, e))
      modifies this, base, lists
      ensures Valid() && Abstract() == Step(old(Abstract()), Op.Remove(l, e))
      ensures seqs == if e in old(seqs)[l] then old(seqs)[l := Without(old(seqs)[l], e)] else old(seqs)
    {
      ghost var before, list, s := base[..], lists[l], seqs[l];
      LinkedIsMarked(before, list, s);
      var h := PooledLists.Remove(base, lists[l], e, s);
      lists[l] := h;
      if e in s {
        seqs := seqs[l := Without(s, e)];
        WithoutElements(s, e);
        ClearedAfterRemove(before, base[..], list, s, h, Without(s, e), e);
      } else {
        WithoutAbsent(s, e);
      }
      OthersKept(before, l, s);
    }

    /** One operation: the pool moves by exactly one abstract step. */
    method Apply(op: Op<Index>) returns (out: seq<Index>)
      requires Valid() && Allowed(Abstract(), op) && (op.InsertAfter? ==> op.e != NULL)
      modifies this, base, lists
      ensures Valid() && Abstract() == Step(old(Abstract()), op)
      ensures out == Cut(old(Abstract()), op)
    {
      out := [];
      match op
      case InsertHead(l, e) => InsertHead(l, e);
      case InsertTail(l, e) => InsertTail(l, e);
      case InsertAfter(l, at, e) => InsertAfter(l, if at.Some? then at.value else NULL, e);
      case CutHead(l) =>
        var e := CutHead(l);
        out := if e != NULL then [e] else [];
      case RemoveHead(l) => RemoveHead(l);
      case RemoveTail(l) => RemoveTail(l);
      case Remove(l, e) => Remove(l, e);
    }

    /** In memory as in the abstract state, no entry is shared, repeated, or linked and free at once. */
    lemma ValidIsSound()
      requires Valid()
      ensures Sound(Abstract())
    {
      forall l | 0 <= l < |seqs| ensures forall e :: e in seqs[l] ==> base[e].prev != NULL {
        LinkedIsMarked(base[..], lists[l], seqs[l]);
      }
    }

    /**
     Any run of operations moves the pool exactly as the abstract run does. It leaves every
     list it does not name alone, and a pool whose entries are all accounted for stays so,
     with as many entries linked and free together as before.
     */
    method Perform(ops: seq<Op<Index>>) returns (cuts: seq<Index>)
      requires Valid() && AllowedRun(Abstract(), ops)
      requires forall k :: 0 <= k < |ops| && ops[k].InsertAfter? ==> ops[k].e != NULL
      modifies this, base, lists
      ensures Valid() && Abstract() == Run(old(Abstract()), ops) && Sound(Abstract())
      ensures cuts == Cuts(old(Abstract()), ops)
      ensures |seqs| == old(|seqs|)
      ensures forall m :: 0 <= m < |seqs| && (forall k :: 0 <= k < |ops| ==> ops[k].list != m) ==>
                seqs[m] == old(seqs)[m]
      ensures old(Covered(Abstract())) ==>
                && Covered(Abstract())
                && |Abstract().cleared| + Total(seqs) == old(|Abstract().cleared| + Total(seqs))
      decreases |ops|
    {
      ValidIsSound();
      RunLaws(Abstract(), ops);
      cuts := [];
      if ops != [] {
        cuts := Apply(ops[0]);
        var later := Perform(ops[1..]);
        cuts := cuts + later;
      }
    }
  }

  /** Whatever is done to a fresh pool, its entries stay partitioned into lists and free ones. */
  method RunFresh(n: nat, size: nat, ops: seq<Op<Index>>) returns (pool: Pool)
    requires size <= NULL && AllowedRun(Fresh(n, UpTo(size)), ops)
    requires forall k :: 0 <= k < |ops| && ops[k].InsertAfter? ==> ops[k].e != NULL
    ensures pool.Valid() && Sound(pool.Abstract()) && Covered(pool.Abstract())
    ensures |pool.Abstract().cleared| + Total(pool.seqs) == size
  {
    pool := new Pool(n, size);
    UpToSize(size);
    RunFillsPool(n, UpTo(size), ops);
    var _ := pool.Perform(ops);
  }
}
