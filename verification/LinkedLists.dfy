/**
 Doubly linked lists of nodes that carry their own links. The head's prev points at the
 tail, and a node whose prev is null counts as not being in a list.
 */
module LinkedLists {
  import opened Sequences

  class Node {
    var next: Node?
    var prev: Node?
  }

  ghost function NextIn(s: seq<Node>, k: nat): Node?
    requires k < |s|
  {
    if k + 1 < |s| then s[k + 1] else null
  }

  ghost function PrevIn(s: seq<Node>, k: nat): Node
    requires k < |s|
  {
    if k == 0 then s[|s| - 1] else s[k - 1]
  }

  /** The list variable and the links of its nodes represent the sequence s. */
  ghost predicate Threads(list: Node?, s: seq<Node>)
    reads s
  {
    && Distinct(s)
    && list == (if s == [] then null else s[0])
    && (forall k {:trigger s[k].next} :: 0 <= k < |s| ==> s[k].next == NextIn(s, k))
    && (forall k {:trigger s[k].prev} :: 0 <= k < |s| ==> s[k].prev == PrevIn(s, k))
  }

  /** A node's prev tells whether it is in the list, as long as the nodes outside keep it null. */
  lemma LinkedIsMarked(list: Node?, s: seq<Node>, n: Node)
    requires Threads(list, s) && n in s
    ensures n.prev != null
  {
  }

  method InsertHead(list: Node?, e: Node, ghost s: seq<Node>) returns (list': Node?)
    requires Threads(list, s) && e !in s
    modifies s, e
    ensures Threads(list', [e] + s)
  {
    e.next := list;
    if list != null {
      e.prev := list.prev;
      list.prev := e;
    } else {
      e.prev := e;
    }
    list' := e;
    ghost var t := [e] + s;
    forall k | 0 <= k < |t| ensures t[k].next == NextIn(t, k) && t[k].prev == PrevIn(t, k) {
      assert k > 0 ==> old(s[k - 1].next) == NextIn(s, k - 1) && old(s[k - 1].prev) == PrevIn(s, k - 1);
    }
  }

  method InsertTail(list: Node?, e: Node, ghost s: seq<Node>) returns (list': Node?)
    requires Threads(list, s) && e !in s
    modifies s, e
    ensures Threads(list', s + [e])
  {
    list' := list;
    e.next := null;
    if list != null {
      assert list.prev == Last(s);
      e.prev := list.prev;
      list.prev.next := e;
      list.prev := e;
    } else {
      e.prev := e;
      list' := e;
    }
    ghost var t := s + [e];
    forall k | 0 <= k < |t| ensures t[k].next == NextIn(t, k) && t[k].prev == PrevIn(t, k) {
      assert k < |s| ==> old(s[k].next) == NextIn(s, k) && old(s[k].prev) == PrevIn(s, k);
    }
  }

  method GetTail(list: Node?, ghost s: seq<Node>) returns (tail: Node?)
    requires Threads(list, s)
    ensures tail == if s == [] then null else Last(s)
  {
    tail := if list != null then list.prev else null;
  }

  lemma Spliced(s: seq<Node>, t: seq<Node>, j: nat, e: Node)
    requires j + 1 < |s| && |t| == |s| + 1 && Distinct(t)
    requires forall k {:trigger t[k]} :: 0 <= k < |t| ==>
      t[k] == if k <= j then s[k] else if k == j + 1 then e else s[k - 1]
    requires e.next == s[j + 1] && e.prev == s[j]
    requires forall k {:trigger s[k].next} :: 0 <= k < |s| ==> s[k].next == if k == j then e else NextIn(s, k)
    requires forall k {:trigger s[k].prev} :: 0 <= k < |s| ==> s[k].prev == if k == j + 1 then e else PrevIn(s, k)
    ensures Threads(s[0], t)
  {
  }

  /** The new node e is linked between positions j and j + 1, and nothing else changed. */
  lemma LinkedBetween(s: seq<Node>, j: nat, e: Node)
    requires j + 1 < |s| && Distinct(s) && e !in s
    requires e.next == s[j + 1] && e.prev == s[j]
    requires forall k {:trigger s[k].next} :: 0 <= k < |s| ==> s[k].next == if k == j then e else NextIn(s, k)
    requires forall k {:trigger s[k].prev} :: 0 <= k < |s| ==> s[k].prev == if k == j + 1 then e else PrevIn(s, k)
    ensures Threads(s[0], Behind(s, s[j], e))
  {
    BehindElements(s, s[j], e);
    BehindAt(s, j, e);
    Spliced(s, Behind(s, s[j], e), j, e);
  }

  method InsertAfter(list: Node?, at: Node?, e: Node, ghost s: seq<Node>) returns (list': Node?)
    requires Threads(list, s)
    requires at != null ==> at in s && e !in s
    modifies if at == null then [] else s, if at == null then {} else {e}
    ensures Threads(list', if at == null then s else Behind<Node>(s, at, e))
  {
    list' := list;
    if at != null {
      ghost var j :| 0 <= j < |s| && s[j] == at;
      var tail := GetTail(list, s);
      if at == tail {
        BehindLast(s, e);
        list' := InsertTail(list, e, s);
      } else {
        assert old(s[j].next) == s[j + 1];
        e.next := at.next;
        e.prev := at;
        at.next.prev := e;
        at.next := e;
        LinkedBetween(s, j, e);
      }
    }
  }

  method CutHead(list: Node?, ghost s: seq<Node>) returns (list': Node?, removed: Node?)
    requires Threads(list, s)
    modifies s
    ensures removed == if s == [] then null else s[0]
    ensures s == [] ==> list' == null
    ensures s != [] ==> Threads(list', s[1..]) && s[0].prev == null && s[0].next == old(s[0].next)
  {
    removed := list;
    list' := list;
    if list != null {
      if list.next != null {
        list.next.prev := list.prev;
      }
      list.prev := null;
      list' := list.next;
      ghost var t := s[1..];
      forall k | 0 <= k < |t| ensures t[k].next == NextIn(t, k) && t[k].prev == PrevIn(t, k) {
        assert old(s[k + 1].next) == NextIn(s, k + 1) && old(s[k + 1].prev) == PrevIn(s, k + 1);
      }
    }
  }

  method RemoveHead(list: Node?, ghost s: seq<Node>) returns (list': Node?)
    requires Threads(list, s)
    modifies s
    ensures s == [] ==> list' == null
    ensures s != [] ==> Threads(list', s[1..]) && s[0].prev == null && s[0].next == old(s[0].next)
  {
    list' := list;
    if list != null {
      if list.next != null {
        list.next.prev := list.prev;
      }
      list.prev := null;
      list' := list.next;
      ghost var t := s[1..];
      forall k | 0 <= k < |t| ensures t[k].next == NextIn(t, k) && t[k].prev == PrevIn(t, k) {
        assert old(s[k + 1].next) == NextIn(s, k + 1) && old(s[k + 1].prev) == PrevIn(s, k + 1);
      }
    }
  }

  /** The tail's own next field serves as the temporary; it ends up pointing at the new tail. */
  method RemoveTail(list: Node?, ghost s: seq<Node>) returns (list': Node?)
    requires Threads(list, s)
    modifies s
    ensures s == [] ==> list' == null
    ensures s != [] ==> Threads(list', s[..|s| - 1]) && Last(s).prev == null
    ensures |s| == 1 ==> s[0].next == null
    ensures |s| >= 2 ==> Last(s).next == s[|s| - 2]
  {
    list' := list;
    if list != null {
      if list.prev == list {
        list.prev := null;
        list' := null;
      } else {
        ghost var n := |s|;
        assert list.prev == s[n - 1] && s[n - 1].prev == s[n - 2];
        list.prev.prev.next := null;
        list.prev.next := list.prev.prev;
        list.prev.prev := null;
        list.prev := list.prev.next;
        ghost var t := s[..n - 1];
        forall k | 0 <= k < |t| ensures t[k].next == NextIn(t, k) && t[k].prev == PrevIn(t, k) {
          assert old(s[k].next) == NextIn(s, k) && old(s[k].prev) == PrevIn(s, k);
        }
      }
    }
  }

  lemma Rejoined(s: seq<Node>, t: seq<Node>, j: nat)
    requires j < |s| && Distinct(t) && |t| == |s| - 1
    requires forall k {:trigger t[k]} :: 0 <= k < |t| ==> t[k] == if k < j then s[k] else s[k + 1]
    requires forall k {:trigger s[k].next} :: 0 <= k < |s| && k != j ==>
      s[k].next == if k + 1 == j then NextIn(s, j) else NextIn(s, k)
    requires forall k {:trigger s[k].prev} :: 0 <= k < |s| && k != j ==>
      s[k].prev == if k == (if j + 1 < |s| then j + 1 else 0) then PrevIn(s, j) else PrevIn(s, k)
    ensures Threads(if j == 0 then NextIn(s, 0) else s[0], t)
  {
  }

  /** The links around position j are closed, and only those changed. */
  lemma Unlinked(s: seq<Node>, j: nat)
    requires j < |s| && Distinct(s)
    requires forall k {:trigger s[k].next} :: 0 <= k < |s| && k != j ==>
      s[k].next == if k + 1 == j then NextIn(s, j) else NextIn(s, k)
    requires forall k {:trigger s[k].prev} :: 0 <= k < |s| && k != j ==>
      s[k].prev == if k == (if j + 1 < |s| then j + 1 else 0) then PrevIn(s, j) else PrevIn(s, k)
    ensures Threads(if j == 0 then NextIn(s, 0) else s[0], Without(s, s[j]))
  {
    WithoutElements(s, s[j]);
    WithoutAt(s, j);
    Rejoined(s, Without(s, s[j]), j);
  }

  method Remove(list: Node?, e: Node, ghost s: seq<Node>) returns (list': Node?)
    requires Threads(list, s)
    requires e in s || e.prev == null
    modifies if e.prev == null then [] else s
    ensures Threads(list', Without(s, e))
    ensures e !in s ==> list' == list
    ensures e in s ==> e.prev == null && e.next == old(e.next)
  {
    list' := list;
    if e.prev != null {
      ghost var j :| 0 <= j < |s| && s[j] == e;
      assert old(s[j].next) == NextIn(s, j) && old(s[j].prev) == PrevIn(s, j);
      if e.next != null {
        e.next.prev := e.prev;
      } else {
        list.prev := e.prev;
      }
      if e == list {
        list' := e.next;
      } else {
        e.prev.next := e.next;
      }
      e.prev := null;
      Unlinked(s, j);
    } else {
      if e in s {
        LinkedIsMarked(list, s, e);
      }
      WithoutAbsent(s, e);
    }
  }

  /** Taking a node out and putting it back behind its predecessor restores every link. */
  method RemoveThenInsertAfter(list: Node?, ghost k: nat, e: Node, at: Node, ghost s: seq<Node>) returns (list': Node?)
    requires Threads(list, s) && 0 < k < |s| && e == s[k] && at == s[k - 1]
    modifies s
    ensures list' == list
    ensures forall n :: n in s ==> n.next == old(n.next) && n.prev == old(n.prev)
  {
    WithoutThenBehind(s, k);
    WithoutElements(s, e);
    list' := Remove(list, e, s);
    ghost var t := Without(s, e);
    WithoutIndex(s, e);
    assert at in s;
    list' := InsertAfter(list', at, e, t);
    forall n | n in s ensures n.next == old(n.next) && n.prev == old(n.prev) {
      ghost var i :| 0 <= i < |s| && s[i] == n;
      assert s[i].next == NextIn(s, i) && s[i].prev == PrevIn(s, i);
    }
  }

  method Iterate(list: Node?, ghost s: seq<Node>) returns (visited: seq<Node>)
    requires Threads(list, s)
    ensures visited == s
  {
    visited := [];
    var e := list;
    while e != null
      invariant |visited| <= |s| && visited == s[..|visited|]
      invariant e == if |visited| < |s| then s[|visited|] else null
      decreases |s| - |visited|
    {
      visited := visited + [e];
      e := e.next;
    }
  }

  /** The backward loop stops at the head because only the tail has a null next. */
  method IterateBack(list: Node?, ghost s: seq<Node>) returns (visited: seq<Node>)
    requires Threads(list, s)
    ensures visited == Reversed(s)
  {
    visited := [];
    var e := if list != null then list.prev else null;
    ghost var k := |s|;
    while e != null
      invariant 0 <= k <= |s|
      invariant visited == Reversed(s[k..])
      invariant e == if k == 0 then null else s[k - 1]
      decreases k
    {
      k := k - 1;
      assert s[k..][1..] == s[k + 1..];
      visited := visited + [e];
      assert e.prev == PrevIn(s, k);
      e := if e.prev.next != null then e.prev else null;
    }
    assert s[0..] == s;
  }
}
