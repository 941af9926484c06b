/**
 Doubly linked lists whose links are one-byte indices into a shared array of entries.
 The head's prev holds the tail, 255 is the null index, and an entry whose prev is 255
 counts as not being in a list.
 */
module PooledLists {
  import opened Indices
  import opened Sequences

  datatype Link = Link(next: Index, prev: Index)

  /** The links that the k-th entry of the list s carries. */
  ghost function LinkAt(s: seq<Index>, k: nat): Link
    requires k < |s|
  {
    Link(if k + 1 < |s| then s[k + 1] else NULL, if k == 0 then s[|s| - 1] else s[k - 1])
  }

  ghost function HeadOf(s: seq<Index>): Index {
    if s == [] then NULL else s[0]
  }

  /** The list variable `list` and the links in `base` represent the sequence of entries s. */
  ghost predicate Threads(base: seq<Link>, list: Index, s: seq<Index>) {
    && Distinct(s)
    && (forall k :: 0 <= k < |s| ==> s[k] != NULL && s[k] < |base|)
    && list == HeadOf(s)
    && (forall k {:trigger base[s[k]]} :: 0 <= k < |s| ==> base[s[k]] == LinkAt(s, k))
  }

  /** Every entry that is not among the touched ones keeps its links. */
  ghost predicate SameOutside(before: seq<Link>, after: seq<Link>, touched: seq<Index>) {
    && |before| == |after|
    && forall i: nat {:trigger after[i]} :: i < |before| && i !in touched ==> after[i] == before[i]
  }

  /** The memory determines the list: no two sequences are represented by the same links. */
  lemma {:induction false} ThreadsPrefix(base: seq<Link>, list: Index, s: seq<Index>, t: seq<Index>, k: nat)
    requires Threads(base, list, s) && Threads(base, list, t) && k < |s|
    ensures k < |t| && s[k] == t[k]
  {
    if k == 0 {
    } else {
      ThreadsPrefix(base, list, s, t, k - 1);
      assert base[s[k - 1]] == LinkAt(s, k - 1);
      assert base[t[k - 1]] == LinkAt(t, k - 1);
    }
  }

  lemma ThreadsUnique(base: seq<Link>, list: Index, s: seq<Index>, t: seq<Index>)
    requires Threads(base, list, s) && Threads(base, list, t)
    ensures s == t
  {
    forall k | 0 <= k < |s| ensures k < |t| && s[k] == t[k] { ThreadsPrefix(base, list, s, t, k); }
    if |s| < |t| {
      ThreadsPrefix(base, list, t, s, |s|);
    } else if |t| < |s| {
      ThreadsPrefix(base, list, s, t, |t|);
    }
  }

  /** The list determines the memory: it fixes the list variable and both links of every entry. */
  lemma LinksDetermined(before: seq<Link>, after: seq<Link>, list: Index, list': Index, s: seq<Index>)
    requires Threads(before, list, s) && Threads(after, list', s)
    ensures list == list' && forall e :: e in s ==> before[e] == after[e]
  {
  }

  /** A null prev is what marks an entry as being in no list: linked entries never carry it. */
  lemma LinkedIsMarked(base: seq<Link>, list: Index, s: seq<Index>)
    requires Threads(base, list, s)
    ensures forall e :: e in s ==> base[e].prev != NULL
  {
  }

  /** Writes outside a list do not disturb it. */
  lemma ThreadsFrame(before: seq<Link>, after: seq<Link>, touched: seq<Index>, list: Index, s: seq<Index>)
    requires Threads(before, list, s) && SameOutside(before, after, touched)
    requires forall x :: x in s ==> x !in touched
    ensures Threads(after, list, s)
  {
  }

  // ---- The list operations, on one list s among the entries of base ----

  method InsertHead(base: array<Link>, list: Index, e: Index, ghost s: seq<Index>) returns (list': Index)
    requires Threads(base[..], list, s)
    requires e != NULL && e < base.Length && e !in s
    modifies base
    ensures Threads(base[..], list', [e] + s)
    ensures SameOutside(old(base[..]), base[..], [e] + s)
  {
    base[e] := base[e].(next := list);
    if list != NULL {
      assert old(base[..])[s[0]] == LinkAt(s, 0);
      base[e] := base[e].(prev := base[list].prev);
      base[list] := base[list].(prev := e);
    } else {
      base[e] := base[e].(prev := e);
    }
    list' := e;
    ghost var t := [e] + s;
    forall k | 0 <= k < |t| ensures base[..][t[k]] == LinkAt(t, k) {
      if k > 0 {
        assert old(base[..])[s[k - 1]] == LinkAt(s, k - 1);
      }
    }
  }

  lemma InsertedLast(before: seq<Link>, after: seq<Link>, list: Index, s: seq<Index>, e: Index)
    requires Threads(before, list, s) && s != []
    requires e != NULL && e < |before| && e !in s && |after| == |before|
    requires var last := Last(s);
      after == before[e := Link(NULL, last)][last := before[last].(next := e)]
                     [s[0] := (if |s| == 1 then before[last].(next := e) else before[s[0]]).(prev := e)]
    ensures Threads(after, list, s + [e])
  {
  }

  method InsertTail(base: array<Link>, list: Index, e: Index, ghost s: seq<Index>) returns (list': Index)
    requires Threads(base[..], list, s)
    requires e != NULL && e < base.Length && e !in s
    modifies base
    ensures Threads(base[..], list', s + [e])
    ensures SameOutside(old(base[..]), base[..], s + [e])
  {
    list' := list;
    base[e] := base[e].(next := NULL);
    if list != NULL {
      assert old(base[..])[s[0]] == LinkAt(s, 0);
      base[e] := base[e].(prev := base[list].prev);
      base[base[list].prev] := base[base[list].prev].(next := e);
      base[list] := base[list].(prev := e);
    } else {
      base[e] := base[e].(prev := e);
      list' := e;
    }
    if s != [] {
      InsertedLast(old(base[..]), base[..], list, s, e);
    }
  }

  method GetTail(base: array<Link>, list: Index, ghost s: seq<Index>) returns (tail: Index)
    requires Threads(base[..], list, s)
    ensures tail == if s == [] then NULL else Last(s)
  {
    assert s != [] ==> base[..][s[0]] == LinkAt(s, 0);
    tail := if NULL != list then base[list].prev else NULL;
  }

  lemma Spliced(before: seq<Link>, after: seq<Link>, list: Index, s: seq<Index>, t: seq<Index>,
                j: nat, e: Index)
    requires Threads(before, list, s) && j + 1 < |s|
    requires e != NULL && e < |before| && e !in s
    requires |after| == |before| && after[e] == Link(s[j + 1], s[j])
    requires after[s[j]] == before[s[j]].(next := e) && after[s[j + 1]] == before[s[j + 1]].(prev := e)
    requires forall i: Index {:trigger after[i]} ::
      i < |before| && i != e && i != s[j] && i != s[j + 1] ==> after[i] == before[i]
    requires |t| == |s| + 1 && Distinct(t)
    requires forall k {:trigger t[k]} :: 0 <= k < |t| ==>
      t[k] == if k <= j then s[k] else if k == j + 1 then e else s[k - 1]
    ensures Threads(after, list, t)
  {
    forall k | 0 <= k < |t| ensures t[k] < |after| && after[t[k]] == LinkAt(t, k) {
      if k < j {
        assert before[s[k]] == LinkAt(s, k) && t[k] == s[k] && t[k + 1] == s[k + 1];
        assert s[k] != s[j] && s[k] != s[j + 1];
      } else if k == j {
        assert before[s[j]] == LinkAt(s, j) && t[k + 1] == e;
      } else if k == j + 2 {
        assert before[s[k - 1]] == LinkAt(s, k - 1);
      } else if k > j + 2 {
        assert before[s[k - 1]] == LinkAt(s, k - 1);
        assert s[k - 1] != s[j] && s[k - 1] != s[j + 1];
      }
    }
  }

  lemma InsertedBetween(before: seq<Link>, after: seq<Link>, list: Index, s: seq<Index>, j: nat, e: Index)
    requires Threads(before, list, s) && j + 1 < |s|
    requires e != NULL && e < |before| && e !in s
    requires |after| == |before| && after[e] == Link(s[j + 1], s[j])
    requires after[s[j]] == before[s[j]].(next := e) && after[s[j + 1]] == before[s[j + 1]].(prev := e)
    requires forall i: Index {:trigger after[i]} ::
      i < |before| && i != e && i != s[j] && i != s[j + 1] ==> after[i] == before[i]
    ensures Threads(after, list, Behind(s, s[j], e))
  {
    BehindElements(s, s[j], e);
    BehindAt(s, j, e);
    Spliced(before, after, list, s, Behind(s, s[j], e), j, e);
  }

  method InsertAfter(base: array<Link>, list: Index, at: Index, e: Index, ghost s: seq<Index>)
    returns (list': Index)
    requires Threads(base[..], list, s)
    requires e != NULL
    requires at != NULL ==> at in s && e < base.Length && e !in s
    modifies base
    ensures Threads(base[..], list', if at == NULL then s else Behind(s, at, e))
    ensures at == NULL ==> base[..] == old(base[..])
    ensures SameOutside(old(base[..]), base[..], s + [e])
  {
    list' := list;
    if at != NULL {
      ghost var j :| 0 <= j < |s| && s[j] == at;
      var tail := GetTail(base, list, s);
      if at == tail {
        BehindLast(s, e);
        list' := InsertTail(base, list, e, s);
      } else {
        assert old(base[..])[s[j]] == LinkAt(s, j);
        assert j + 1 < |s|;
        assert old(base[..])[s[j + 1]] == LinkAt(s, j + 1);
        base[e] := base[e].(next := base[at].next);
        base[e] := base[e].(prev := at);
        base[base[at].next] := base[base[at].next].(prev := e);
        base[at] := base[at].(next := e);
        InsertedBetween(old(base[..]), base[..], list, s, j, e);
      }
    }
  }

  lemma DroppedFirst(before: seq<Link>, after: seq<Link>, list: Index, s: seq<Index>)
    requires Threads(before, list, s) && s != [] && |after| == |before|
    requires forall i: Index {:trigger after[i]} ::
      i < |before| && i != s[0] && (|s| > 1 ==> i != s[1]) ==> after[i] == before[i]
    requires |s| > 1 ==> after[s[1]] == before[s[1]].(prev := Last(s))
    ensures Threads(after, LinkAt(s, 0).next, s[1..])
  {
  }

  method CutHead(base: array<Link>, list: Index, ghost s: seq<Index>)
    returns (list': Index, removed: Index)
    requires Threads(base[..], list, s)
    modifies base
    ensures removed == HeadOf(s)
    ensures s == [] ==> list' == NULL && base[..] == old(base[..])
    ensures s != [] ==> Threads(base[..], list', s[1..]) && base[s[0]] == old(base[s[0]]).(prev := NULL)
    ensures SameOutside(old(base[..]), base[..], s)
  {
    removed := list;
    list' := list;
    if list != NULL {
      assert old(base[..])[s[0]] == LinkAt(s, 0);
      if base[list].next != NULL {
        assert old(base[..])[s[1]] == LinkAt(s, 1);
        base[base[list].next] := base[base[list].next].(prev := base[list].prev);
      }
      base[list] := base[list].(prev := NULL);
      list' := base[list].next;
      DroppedFirst(old(base[..]), base[..], list, s);
    }
  }

  method RemoveHead(base: array<Link>, list: Index, ghost s: seq<Index>) returns (list': Index)
    requires Threads(base[..], list, s)
    modifies base
    ensures s == [] ==> list' == NULL && base[..] == old(base[..])
    ensures s != [] ==> Threads(base[..], list', s[1..]) && base[s[0]] == old(base[s[0]]).(prev := NULL)
    ensures SameOutside(old(base[..]), base[..], s)
  {
    list' := list;
    if list != NULL {
      assert old(base[..])[s[0]] == LinkAt(s, 0);
      if base[list].next != NULL {
        assert old(base[..])[s[1]] == LinkAt(s, 1);
        base[base[list].next] := base[base[list].next].(prev := base[list].prev);
      }
      base[list] := base[list].(prev := NULL);
      list' := base[list].next;
      DroppedFirst(old(base[..]), base[..], list, s);
    }
  }

  lemma DroppedLast(before: seq<Link>, after: seq<Link>, list: Index, s: seq<Index>)
    requires Threads(before, list, s) && |s| >= 2 && |after| == |before|
    requires forall i: Index {:trigger after[i]} ::
      i < |before| && i != s[0] && i != s[|s| - 2] && i != s[|s| - 1] ==> after[i] == before[i]
    requires after[s[0]] == Link(if |s| == 2 then NULL else before[s[0]].next, s[|s| - 2])
    requires |s| > 2 ==> after[s[|s| - 2]] == before[s[|s| - 2]].(next := NULL)
    ensures Threads(after, list, s[..|s| - 1])
  {
  }

  /** The tail's own next field serves as the temporary; it ends up holding the new tail. */
  method RemoveTail(base: array<Link>, list: Index, ghost s: seq<Index>) returns (list': Index)
    requires Threads(base[..], list, s)
    modifies base
    ensures s == [] ==> list' == NULL && base[..] == old(base[..])
    ensures s != [] ==> Threads(base[..], list', s[..|s| - 1])
    ensures |s| == 1 ==> base[s[0]] == Link(NULL, NULL)
    ensures |s| >= 2 ==> base[Last(s)] == Link(s[|s| - 2], NULL)
    ensures SameOutside(old(base[..]), base[..], s)
  {
    list' := list;
    if list != NULL {
      assert old(base[..])[s[0]] == LinkAt(s, 0);
      if base[list].prev == list {
        base[list] := base[list].(prev := NULL);
        list' := NULL;
      } else {
        ghost var n := |s|;
        assert old(base[..])[s[n - 1]] == LinkAt(s, n - 1);
        assert old(base[..])[s[n - 2]] == LinkAt(s, n - 2);
        base[base[base[list].prev].prev] := base[base[base[list].prev].prev].(next := NULL);
        base[base[list].prev] := base[base[list].prev].(next := base[base[list].prev].prev);
        base[base[list].prev] := base[base[list].prev].(prev := NULL);
        base[list] := base[list].(prev := base[base[list].prev].next);
        DroppedLast(old(base[..]), base[..], list, s);
      }
    }
  }

  lemma Rejoined(before: seq<Link>, after: seq<Link>, list: Index, s: seq<Index>, t: seq<Index>, j: nat)
    requires Threads(before, list, s) && j < |s| && |after| == |before|
    requires forall k {:trigger after[s[k]]} :: 0 <= k < |s| && k != j ==>
      after[s[k]] == Link(if k + 1 == j then LinkAt(s, j).next else before[s[k]].next,
                          if k == (if j + 1 < |s| then j + 1 else 0) then LinkAt(s, j).prev else before[s[k]].prev)
    requires |t| == |s| - 1 && Distinct(t)
    requires forall k {:trigger t[k]} :: 0 <= k < |t| ==> t[k] == if k < j then s[k] else s[k + 1]
    ensures Threads(after, if j == 0 then LinkAt(s, 0).next else list, t)
  {
  }

  lemma Unlinked(before: seq<Link>, after: seq<Link>, list: Index, s: seq<Index>, j: nat)
    requires Threads(before, list, s) && j < |s| && |after| == |before|
    requires forall k {:trigger after[s[k]]} :: 0 <= k < |s| && k != j ==>
      after[s[k]] == Link(if k + 1 == j then LinkAt(s, j).next else before[s[k]].next,
                          if k == (if j + 1 < |s| then j + 1 else 0) then LinkAt(s, j).prev else before[s[k]].prev)
    ensures Threads(after, if j == 0 then LinkAt(s, 0).next else list, Without(s, s[j]))
  {
    WithoutElements(s, s[j]);
    WithoutAt(s, j);
    Rejoined(before, after, list, s, Without(s, s[j]), j);
  }

  method Remove(base: array<Link>, list: Index, e: Index, ghost s: seq<Index>) returns (list': Index)
    requires Threads(base[..], list, s)
    requires e != NULL && e < base.Length
    requires e in s || base[e].prev == NULL
    modifies base
    ensures Threads(base[..], list', Without(s, e))
    ensures e !in s ==> base[..] == old(base[..])
    ensures e in s ==> base[e] == old(base[e]).(prev := NULL)
    ensures SameOutside(old(base[..]), base[..], s)
  {
    list' := list;
    if base[e].prev != NULL {
      ghost var j :| 0 <= j < |s| && s[j] == e;
      assert old(base[..])[s[j]] == LinkAt(s, j);
      assert old(base[..])[s[0]] == LinkAt(s, 0);
      assert j + 1 < |s| ==> old(base[..])[s[j + 1]] == LinkAt(s, j + 1);
      assert j > 0 ==> old(base[..])[s[j - 1]] == LinkAt(s, j - 1);
      if base[e].next != NULL {
        base[base[e].next] := base[base[e].next].(prev := base[e].prev);
      } else {
        base[list] := base[list].(prev := base[e].prev);
      }
      if e == list {
        list' := base[e].next;
      } else {
        base[base[e].prev] := base[base[e].prev].(next := base[e].next);
      }
      base[e] := base[e].(prev := NULL);
      Unlinked(old(base[..]), base[..], list, s, j);
    } else {
      LinkedIsMarked(base[..], list, s);
      WithoutAbsent(s, e);
    }
  }

  /** Taking an entry out and putting it back behind its predecessor restores the whole memory. */
  method RemoveThenInsertAfter(base: array<Link>, list: Index, ghost k: nat, e: Index, at: Index,
                               ghost s: seq<Index>) returns (list': Index)
    requires Threads(base[..], list, s) && 0 < k < |s| && e == s[k] && at == s[k - 1]
    modifies base
    ensures list' == list && base[..] == old(base[..])
  {
    WithoutThenBehind(s, k);
    WithoutElements(s, e);
    assert at in s;
    list' := Remove(base, list, e, s);
    list' := InsertAfter(base, list', at, e, Without(s, e));
    LinksDetermined(old(base[..]), base[..], list, list', s);
    forall i: nat | i < base.Length ensures base[i] == old(base[i]) {
      if i in s {
        assert old(base[..])[i] == base[..][i];
      } else {
        assert base[..][i] == old(base[..])[i];
      }
    }
  }

  // ---- Iteration ----

  method Iterate(base: array<Link>, list: Index, ghost s: seq<Index>) returns (visited: seq<Index>)
    requires Threads(base[..], list, s)
    ensures visited == s
  {
    visited := [];
    var e := list;
    while e != NULL
      invariant |visited| <= |s| && visited == s[..|visited|]
      invariant e == HeadOf(s[|visited|..])
      decreases |s| - |visited|
    {
      assert base[..][s[|visited|]] == LinkAt(s, |visited|);
      visited := visited + [e];
      e := base[e].next;
    }
  }

  /** What the backward loop does: it visits entries, or it reads behind the end of the pool. */
  datatype Walk = Visited(entries: seq<Index>) | OutOfPool

  /**
   The backward loop asks whether the list index is nonzero instead of whether it is null,
   so it is right exactly on the nonempty lists that do not begin with entry 0.
   */
  method IterateBack(base: array<Link>, list: Index, ghost s: seq<Index>) returns (r: Walk)
    requires Threads(base[..], list, s)
    requires base.Length <= NULL
    ensures r == Visited(Reversed(s)) <==> s != [] && s[0] != 0
    ensures s == [] ==> r == OutOfPool
    ensures s != [] && s[0] == 0 ==> r == Visited([])
  {
    var e: Index;
    if list != 0 {
      if list >= base.Length {
        return OutOfPool;
      }
      assert base[..][s[0]] == LinkAt(s, 0);
      e := base[list].prev;
    } else {
      e := NULL;
    }
    var visited := [];
    ghost var k := if e == NULL then 0 else |s|;
    while e != NULL
      invariant 0 <= k <= |s|
      invariant s[0] != 0 ==> visited == Reversed(s[k..])
      invariant s[0] == 0 ==> visited == [] && k == 0
      invariant e == if k == 0 then NULL else s[k - 1]
      decreases k
    {
      k := k - 1;
      assert s[k..][1..] == s[k + 1..];
      visited := visited + [e];
      assert base[..][s[k]] == LinkAt(s, k);
      assert k > 0 ==> base[..][s[k - 1]] == LinkAt(s, k - 1);
      assert k == 0 ==> base[..][s[|s| - 1]] == LinkAt(s, |s| - 1);
      e := if base[base[e].prev].next != NULL then base[e].prev else NULL;
    }
    assert s[0..] == s;
    assert Reversed(s) == Reversed(s[1..]) + [s[0]];
    r := Visited(visited);
  }
}
