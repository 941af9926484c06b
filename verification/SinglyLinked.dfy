/**
 Singly linked lists with a head and a tail pointer, used as queues, and stacks, which
 keep a head pointer alone. Both work on nodes that carry their own link.
 */
module SinglyLinked {
  import opened Sequences
  import Q = QueueModel

  class Node {
    var next: Node?
  }

  ghost function At(s: seq<Node>, k: nat): Node? {
    if k < |s| then s[k] else null
  }

  /** The nodes of s are linked in order, from head to a null link. */
  ghost predicate Chain(head: Node?, s: seq<Node>)
    reads s
  {
    && Distinct(s)
    && head == At(s, 0)
    && forall k {:trigger s[k].next} :: 0 <= k < |s| ==> s[k].next == At(s, k + 1)
  }

  lemma Bridged(s: seq<Node>, t: seq<Node>, k: nat)
    requires k < |s| && Distinct(t) && |t| == |s| - 1
    requires forall i {:trigger t[i]} :: 0 <= i < |t| ==> t[i] == if i < k then s[i] else s[i + 1]
    requires forall i {:trigger s[i].next} :: 0 <= i < |s| ==> s[i].next == At(s, if i + 1 == k then k + 1 else i + 1)
    ensures Chain(if k == 0 then At(s, 1) else s[0], t)
  {
  }

  /** Position k is bridged and nothing else changed. */
  lemma Unlinked(s: seq<Node>, k: nat)
    requires k < |s| && Distinct(s)
    requires forall i {:trigger s[i].next} :: 0 <= i < |s| ==> s[i].next == At(s, if i + 1 == k then k + 1 else i + 1)
    ensures Chain(if k == 0 then At(s, 1) else s[0], Without(s, s[k]))
    ensures |Without(s, s[k])| == |s| - 1
    ensures |s| > 1 ==> Last(Without(s, s[k])) == s[if k == |s| - 1 then k - 1 else |s| - 1]
  {
    WithoutElements(s, s[k]);
    WithoutAt(s, k);
    WithoutEnd(s, k);
    Bridged(s, Without(s, s[k]), k);
  }

  predicate PutsNode(op: Q.Op<Node>) {
    op.Put? || op.PutTail?
  }

  /** The operations that lists of nodes offer. */
  predicate IsNodeOp(op: Q.Op<Node>) {
    PutsNode(op) || op.Delete? || op.Get?
  }

  /** No node is put in while it is still there; all nodes put in come from the pool. */
  ghost predicate AllowedRun(q: seq<Node>, ops: seq<Q.Op<Node>>, pool: set<Node>)
    decreases |ops|
  {
    ops == []
    || (IsNodeOp(ops[0]) && (PutsNode(ops[0]) ==> ops[0].x !in q && ops[0].x in pool)
        && AllowedRun(Q.Step(q, ops[0]), ops[1..], pool))
  }

  ghost predicate InPool(q: seq<Node>, pool: set<Node>) {
    forall k :: 0 <= k < |q| ==> q[k] in pool
  }

  lemma StepInPool(q: seq<Node>, op: Q.Op<Node>, pool: set<Node>)
    requires InPool(q, pool) && IsNodeOp(op) && (PutsNode(op) ==> op.x in pool)
    ensures InPool(Q.Step(q, op), pool)
  {
    if op.Delete? {
      WithoutIndex(q, op.x);
    }
  }

  /** A node may be put in exactly if the queue then still holds no node twice. */
  lemma AllowedExactly(q: seq<Node>, op: Q.Op<Node>, pool: set<Node>)
    requires Distinct(q) && (op.Put? || op.PutTail? || op.Delete? || op.Get?) && (PutsNode(op) ==> op.x in pool)
    ensures AllowedRun(q, [op], pool) <==> Distinct(Q.Step(q, op))
  {
    var t := Q.Step(q, op);
    match op
    case Put(x) => assert t[|q|] == x && forall k :: 0 <= k < |q| ==> t[k] == q[k];
    case PutTail(x) => assert t[0] == x && forall k :: 0 <= k < |q| ==> t[k + 1] == q[k];
    case Delete(x) => WithoutElements(q, x);
    case Get =>
  }

  /** Whether a run is allowed can be decided piece by piece. */
  lemma {:induction false} AllowedJoin(q: seq<Node>, ops: seq<Q.Op<Node>>, more: seq<Q.Op<Node>>,
                                       whole: seq<Q.Op<Node>>, pool: set<Node>)
    requires whole == ops + more
    ensures AllowedRun(q, whole, pool) <==> AllowedRun(q, ops, pool) && AllowedRun(Q.Remaining(q, ops), more, pool)
    decreases |ops|
  {
    if ops == [] {
      assert whole == more;
    } else {
      HeadOfSum(ops, more);
      AllowedJoin(Q.Step(q, ops[0]), ops[1..], more, whole[1..], pool);
    }
  }

  class List {
    var head: Node?
    var tail: Node?
    ghost var nodes: seq<Node>

    ghost predicate Valid()
      reads this, nodes
    {
      Chain(head, nodes) && tail == (if nodes == [] then null else Last(nodes))
    }

    constructor ()
      ensures Valid() && nodes == []
    {
      head := null;
      tail := null;
      nodes := [];
    }

    method InsertHead(e: Node)
      requires Valid() && e !in nodes
      modifies this, e
      ensures Valid() && nodes == [e] + old(nodes)
    {
      e.next := head;
      if head == null {
        tail := e;
      }
      head := e;
      nodes := [e] + nodes;
      assert forall k {:trigger nodes[k]} :: 0 < k < |nodes| ==> nodes[k] == old(nodes)[k - 1];
    }

    method InsertTail(e: Node)
      requires Valid() && e !in nodes
      modifies this, nodes, e
      ensures Valid() && nodes == old(nodes) + [e]
    {
      e.next := null;
      if tail != null {
        tail.next := e;
        tail := e;
      } else {
        head := e;
        tail := e;
      }
      nodes := nodes + [e];
    }

    method RemoveHead()
      requires Valid()
      modifies this
      ensures Valid() && nodes == if old(nodes) == [] then [] else old(nodes)[1..]
    {
      if head != null {
        head := head.next;
        if head == null {
          tail := null;
        }
        nodes := nodes[1..];
        assert forall k {:trigger nodes[k]} :: 0 <= k < |nodes| ==> nodes[k] == old(nodes)[k + 1];
      }
    }

    method CutHead() returns (e: Node?)
      requires Valid()
      modifies this
      ensures Valid() && nodes == if old(nodes) == [] then [] else old(nodes)[1..]
      ensures e == if old(nodes) == [] then null else old(nodes)[0]
    {
      if head != null {
        e := head;
        head := head.next;
        if head == null {
          tail := null;
        }
        nodes := nodes[1..];
        assert forall k {:trigger nodes[k]} :: 0 <= k < |nodes| ==> nodes[k] == old(nodes)[k + 1];
      } else {
        e := null;
      }
    }

    /** Walks the list with a trailing cursor and unlinks e if it comes across it. */
    method Remove(e: Node)
      requires Valid()
      modifies this, nodes
      ensures Valid() && nodes == Without(old(nodes), e)
      ensures e.next == old(e.next)
    {
      var p, prev := head, null;
      ghost var k, s := 0, nodes;
      while p != null
        invariant 0 <= k <= |s| && p == At(s, k)
        invariant prev == if k == 0 then null else s[k - 1]
        invariant e !in s[..k]
        invariant Valid() && nodes == s == old(nodes) && unchanged(this) && unchanged(s)
        decreases |s| - k
      {
        if p == e {
          if prev != null {
            prev.next := p.next;
            if tail == e {
              tail := prev;
            }
          } else {
            head := p.next;
          }
          if head == null {
            tail := null;
          }
          nodes := Without(s, e);
          Unlinked(s, k);
          return;
        }
        prev, p, k := p, p.next, k + 1;
      }
      WithoutAbsent(s, e);
    }

    method Iterate() returns (visited: seq<Node>)
      requires Valid()
      ensures visited == nodes
    {
      visited := [];
      var e := head;
      while e != null
        invariant |visited| <= |nodes| && visited == nodes[..|visited|]
        invariant e == At(nodes, |visited|)
        decreases |nodes| - |visited|
      {
        visited := visited + [e];
        e := e.next;
      }
    }

    method Apply(op: Q.Op<Node>) returns (got: seq<Node>)
      requires Valid() && IsNodeOp(op) && (PutsNode(op) ==> op.x !in nodes)
      modifies this, nodes, if PutsNode(op) then {op.x} else {}
      ensures Valid() && nodes == Q.Step(old(nodes), op)
      ensures got == Q.Out(old(nodes), op)
    {
      got := [];
      match op
      case Put(x) => InsertTail(x);
      case PutTail(x) => InsertHead(x);
      case Delete(x) => Remove(x);
      case Get =>
        var e := CutHead();
        if e != null {
          got := [e];
        }
    }

    /**
     Any interleaving of insertions at both ends, cuts and removals is the run of the plain
     sequence. It loses no node but the removed ones and, as a queue, keeps the order.
     */
    method Perform(ops: seq<Q.Op<Node>>, ghost pool: set<Node>) returns (got: seq<Node>)
      requires Valid() && AllowedRun(nodes, ops, pool)
      requires InPool(nodes, pool)
      modifies this, pool
      ensures Valid() && nodes == Q.Remaining(old(nodes), ops)
      ensures got == Q.Outputs(old(nodes), ops)
      ensures Q.IsFifo(ops) ==> got + nodes == old(nodes) + Q.Inputs(ops)
      ensures multiset(got) + multiset(Q.Losses(old(nodes), ops)) + multiset(nodes) ==
              multiset(old(nodes)) + multiset(Q.Inputs(ops))
      decreases |ops|
    {
      Q.RunLaws(nodes, ops);
      if ops != [] {
        StepInPool(nodes, ops[0], pool);
      }
      got := [];
      if ops != [] {
        got := Apply(ops[0]);
        var later := Perform(ops[1..], pool);
        got := got + later;
      }
    }
  }

  /** A stack keeps only the head. */
  class Stack {
    var head: Node?
    ghost var nodes: seq<Node>

    ghost predicate Valid()
      reads this, nodes
    {
      Chain(head, nodes)
    }

    constructor ()
      ensures Valid() && nodes == []
    {
      head := null;
      nodes := [];
    }

    method Push(e: Node)
      requires Valid() && e !in nodes
      modifies this, e
      ensures Valid() && nodes == [e] + old(nodes)
    {
      e.next := head;
      head := e;
      nodes := [e] + nodes;
      assert forall k {:trigger nodes[k]} :: 0 < k < |nodes| ==> nodes[k] == old(nodes)[k - 1];
    }

    method Pop() returns (e: Node?)
      requires Valid()
      modifies this
      ensures Valid() && nodes == if old(nodes) == [] then [] else old(nodes)[1..]
      ensures e == At(old(nodes), 0)
    {
      if head != null {
        e := head;
        head := head.next;
        nodes := nodes[1..];
        assert forall k {:trigger nodes[k]} :: 0 <= k < |nodes| ==> nodes[k] == old(nodes)[k + 1];
      } else {
        e := null;
      }
    }

    method Apply(op: Q.Op<Node>) returns (got: seq<Node>)
      requires Valid() && (op.Get? || (op.PutTail? && op.x !in nodes))
      modifies this, if op.Get? then {} else {op.x}
      ensures Valid() && nodes == Q.Step(old(nodes), op)
      ensures got == Q.Out(old(nodes), op)
    {
      got := [];
      match op
      case PutTail(x) => Push(x);
      case Get =>
        var e := Pop();
        if e != null {
          got := [e];
        }
    }

    /** Any interleaving of pushes and pops is the run of the plain sequence. */
    method Perform(ops: seq<Q.Op<Node>>, ghost pool: set<Node>) returns (got: seq<Node>)
      requires Valid() && AllowedRun(nodes, ops, pool)
      requires forall k :: 0 <= k < |ops| ==> ops[k].PutTail? || ops[k].Get?
      requires InPool(nodes, pool)
      modifies this, pool
      ensures Valid() && nodes == Q.Remaining(old(nodes), ops)
      ensures got == Q.Outputs(old(nodes), ops)
      decreases |ops|
    {
      got := [];
      if ops != [] {
        got := Apply(ops[0]);
        var later := Perform(ops[1..], pool);
        got := got + later;
      }
    }

    /** A node pushed before any complete run of pushes and pops is what the pop after it hands out. */
    method PushRunPop(e: Node, ops: seq<Q.Op<Node>>, ghost pool: set<Node>) returns (got: seq<Node>)
      requires Valid() && AllowedRun(nodes, [Q.PutTail(e)] + ops + [Q.Get], pool)
      requires Q.StackRun(0, ops) && Q.FinalDepth(0, ops) == 0
      requires InPool(nodes, pool)
      modifies this, pool
      ensures Valid() && nodes == old(nodes)
      ensures got == Q.Outputs([], ops) + [e]
    {
      Q.LastInFirstOut(nodes, e, ops);
      Q.StackRunExactly([], ops);
      got := Perform([Q.PutTail(e)] + ops + [Q.Get], pool);
    }
  }
}
