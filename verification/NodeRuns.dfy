/**
 Several lists over nodes that carry their own links. The pointer operations take the nodes
 from one abstract state to the next, so whole runs of them do, too.
 */
module NodeRuns {
  import opened LinkedLists
  import opened Options
  import opened PoolModel
  import opened Sequences

  lemma AllMarked(list: Node?, s: seq<Node>)
    requires Threads(list, s)
    ensures forall e :: e in s ==> e.prev != null
  {
    forall e | e in s ensures e.prev != null {
      LinkedIsMarked(list, s, e);
    }
  }

  function Given(at: Node?): Option<Node> {
    if at == null then None else Some(at)
  }

  /** Insertion behind a node; all nodes of the list are marked afterwards. */
  method InsertBehind(list: Node?, at: Node, e: Node, ghost s: seq<Node>, ghost t: seq<Node>) returns (list': Node?)
    requires Threads(list, s) && at in s && e !in s && t == Behind(s, at, e)
    modifies s, e
    ensures Threads(list', t)
    ensures e.prev != null && forall i :: 0 <= i < |s| ==> s[i].prev != null
  {
    list' := LinkedLists.InsertAfter(list, at, e, s);
    BehindElements(s, at, e);
    AllMarked(list', t);
  }

  /** Removal of a node of the list; only that node is left unmarked. */
  method Unlink(list: Node?, e: Node, ghost s: seq<Node>, ghost t: seq<Node>) returns (list': Node?)
    requires Threads(list, s) && e in s && t == Without(s, e)
    modifies s
    ensures Threads(list', t)
    ensures forall i :: 0 <= i < |s| ==> (s[i].prev == null <==> s[i] == e)
  {
    list' := LinkedLists.Remove(list, e, s);
    WithoutElements(s, e);
    AllMarked(list', t);
  }

  /** The linked nodes are among the given ones, and each is in the list that owns it. */
  ghost predicate Placed(seqs: seq<seq<Node>>, nodes: set<Node>, owner: map<Node, nat>) {
    forall l, k :: 0 <= l < |seqs| && 0 <= k < |seqs[l]| ==>
      seqs[l][k] in nodes && seqs[l][k] in owner && owner[seqs[l][k]] == l
  }

  /** One list may take in a node that is in none. */
  lemma InsertPlaced(seqs: seq<seq<Node>>, nodes: set<Node>, owner: map<Node, nat>, l: nat, t: seq<Node>, e: Node)
    requires Placed(seqs, nodes, owner) && l < |seqs| && e in nodes
    requires forall m :: 0 <= m < |seqs| ==> e !in seqs[m]
    requires forall k :: 0 <= k < |t| ==> t[k] == e || t[k] in seqs[l]
    ensures Placed(seqs[l := t], nodes, owner[e := l])
  {
  }

  lemma BehindPlaced(seqs: seq<seq<Node>>, nodes: set<Node>, owner: map<Node, nat>, l: nat, at: Node, e: Node)
    requires Placed(seqs, nodes, owner) && l < |seqs| && e in nodes
    requires forall m :: 0 <= m < |seqs| ==> e !in seqs[m]
    ensures Placed(seqs[l := Behind(seqs[l], at, e)], nodes, owner[e := l])
  {
    BehindIndex(seqs[l], at, e);
    InsertPlaced(seqs, nodes, owner, l, Behind(seqs[l], at, e), e);
  }

  lemma RemovePlaced(seqs: seq<seq<Node>>, nodes: set<Node>, owner: map<Node, nat>, l: nat, e: Node)
    requires Placed(seqs, nodes, owner) && l < |seqs|
    ensures Placed(seqs[l := Without(seqs[l], e)], nodes, owner)
  {
    WithoutIndex(seqs[l], e);
  }

  class Lists {
    const heads: array<Node?>
    ghost const nodes: set<Node>      // all that can be in the lists
    ghost var seqs: seq<seq<Node>>
    ghost var cleared: set<Node>      // those whose prev is null
    ghost var owner: map<Node, nat>   // the list of each linked node

    ghost predicate Valid()
      reads this, heads, nodes
    {
      && heads.Length == |seqs|
      && cleared <= nodes
      && (forall n :: n in nodes ==> (n in cleared <==> n.prev == null))
      && Placed(seqs, nodes, owner)
      && (forall l :: 0 <= l < |seqs| ==> Threads(heads[l], seqs[l]))
    }

    ghost function Abstract(): View<Node>
      reads this
    {
      View(seqs, cleared, nodes)
    }

    /** All lists empty, over nodes that are in none of them. */
    constructor (n: nat, ghost nodes: set<Node>)
      requires forall e :: e in nodes ==> e.prev == null
      ensures Valid() && fresh(heads)
      ensures Abstract() == Fresh(n, nodes)
      ensures |seqs| == n && forall l :: 0 <= l < n ==> seqs[l] == []
    {
      heads := new Node?[n](_ => null);
      this.nodes := nodes;
      seqs := Empties(n);
      cleared, owner := nodes, map[];
      new;
    }

    /** Stores the new head of one list; the others still stand. */
    method SetList(l: nat, h: Node?, ghost t: seq<Node>, ghost c: set<Node>)
      requires heads.Length == |seqs| && l < |seqs| && Threads(h, t)
      requires Placed(seqs[l := t], nodes, owner)
      requires forall m :: 0 <= m < |seqs| && m != l ==> Threads(heads[m], seqs[m])
      requires c <= nodes && forall n :: n in nodes ==> (n in c <==> n.prev == null)
      modifies this`seqs, this`cleared, heads
      ensures Valid() && seqs == old(seqs)[l := t] && cleared == c
    {
      heads[l] := h;
      seqs, cleared := seqs[l := t], c;
    }

    method InsertHead(l: nat, e: Node)
      requires Valid() && Allowed(Abstract(), Op.InsertHead(l, e))
      modifies this, heads, nodes
      ensures Valid() && Abstract() == Step(old(Abstract()), Op.InsertHead(l, e))
      ensures seqs == old(seqs)[l := [e] + old(seqs)[l]]
    {
      ghost var s := seqs[l];
      assert e !in s;
      AllMarked(heads[l], s);
      InsertPlaced(seqs, nodes, owner, l, [e] + s, e);
      owner := owner[e := l];
      var h := LinkedLists.InsertHead(heads[l], e, s);
      AllMarked(h, [e] + s);
      SetList(l, h, [e] + s, cleared - {e});
    }

    method InsertTail(l: nat, e: Node)
      requires Valid() && Allowed(Abstract(), Op.InsertTail(l, e))
      modifies this, heads, nodes
      ensures Valid() && Abstract() == Step(old(Abstract()), Op.InsertTail(l, e))
      ensures seqs == old(seqs)[l := old(seqs)[l] + [e]]
    {
      ghost var s := seqs[l];
      assert e !in s;
      AllMarked(heads[l], s);
      InsertPlaced(seqs, nodes, owner, l, s + [e], e);
      owner := owner[e := l];
      var h := LinkedLists.InsertTail(heads[l], e, s);
      AllMarked(h, s + [e]);
      SetList(l, h, s + [e], cleared - {e});
    }

    method InsertAfter(l: nat, at: Node?, e: Node)
      requires Valid() && Allowed(Abstract(), Op.InsertAfter(l, Given(at), e))
      modifies this, heads, nodes
      ensures Valid() && Abstract() == Step(old(Abstract()), Op.InsertAfter(l, Given(at), e))
      ensures at == null ==> seqs == old(seqs)
      ensures at != null ==> seqs == old(seqs)[l := Behind<Node>(old(seqs)[l], at, e)]
    {
      ghost var s := seqs[l];
      if at != null {
        ghost var t := Behind<Node>(s, at, e);
        BehindPlaced(seqs, nodes, owner, l, at, e);
        owner := owner[e := l];
        var h := InsertBehind(heads[l], at, e, s, t);
        SetList(l, h, t, cleared - {e});
      } else {
        heads[l] := LinkedLists.InsertAfter(heads[l], at, e, s);
      }
    }

    method CutHead(l: nat) returns (out: Node?)
      requires Valid() && Allowed(Abstract(), Op.CutHead(l))
      modifies this, heads, nodes
      ensures Valid() && Abstract() == Step(old(Abstract()), Op.CutHead(l))
      ensures seqs == if old(seqs)[l] == [] then old(seqs) else old(seqs)[l := old(seqs)[l][1..]]
      ensures out == if old(seqs)[l] == [] then null else old(seqs)[l][0]
    {
      ghost var s := seqs[l];
      ghost var t, c := if s == [] then s else s[1..], if s == [] then cleared else cleared + {s[0]};
      var h;
      h, out := LinkedLists.CutHead(heads[l], s);
      AllMarked(h, t);
      SetList(l, h, t, c);
    }

    method RemoveHead(l: nat)
      requires Valid() && Allowed(Abstract(), Op.RemoveHead(l))
      modifies this, heads, nodes
      ensures Valid() && Abstract() == Step(old(Abstract()), Op.RemoveHead(l))
      ensures seqs == if old(seqs)[l] == [] then old(seqs) else old(seqs)[l := old(seqs)[l][1..]]
    {
      ghost var s := seqs[l];
      ghost var t, c := if s == [] then s else s[1..], if s == [] then cleared else cleared + {s[0]};
      var h := LinkedLists.RemoveHead(heads[l], s);
      AllMarked(h, t);
      SetList(l, h, t, c);
    }

    method RemoveTail(l: nat)
      requires Valid() && Allowed(Abstract(), Op.RemoveTail(l))
      modifies this, heads, nodes
      ensures Valid() && Abstract() == Step(old(Abstract()), Op.RemoveTail(l))
      ensures seqs == if old(seqs)[l] == [] then old(seqs) else old(seqs)[l := old(seqs)[l][..|old(seqs)[l]| - 1]]
    {
      ghost var s := seqs[l];
      ghost var t, c := if s == [] then s else s[..|s| - 1], if s == [] then cleared else cleared + {Last(s)};
      var h := LinkedLists.RemoveTail(heads[l], s);
      AllMarked(h, t);
      assert forall i :: 0 <= i < |t| ==> t[i] == s[i];
      SetList(l, h, t, c);
    }

    method Remove(l: nat, e: Node)
      requires Valid() && Allowed(Abstract(), Op.Remove(l, e))
      modifies this, heads, nodes
      ensures Valid() && Abstract() == Step(old(Abstract()), Op.Remove(l, e))
      ensures seqs == if e in old(seqs)[l] then old(seqs)[l := Without(old(seqs)[l], e)] else old(seqs)
    {
      ghost var s := seqs[l];
      if e.prev != null {
        ghost var t := Without(s, e);
        var h := Unlink(heads[l], e, s, t);
        RemovePlaced(seqs, nodes, owner, l, e);
        SetList(l, h, t, cleared + {e});
      } else {
        heads[l] := LinkedLists.Remove(heads[l], e, s);
      }
    }

    /** One operation: the lists move by exactly one abstract step. */
    method Apply(op: Op<Node>) returns (out: seq<Node>)
      requires Valid() && Allowed(Abstract(), op)
      modifies this, heads, nodes
      ensures Valid() && Abstract() == Step(old(Abstract()), op)
      ensures out == Cut(old(Abstract()), op)
    {
      out := [];
      match op
      case InsertHead(l, e) => InsertHead(l, e);
      case InsertTail(l, e) => InsertTail(l, e);
      case InsertAfter(l, at, e) => InsertAfter(l, if at.Some? then at.value else null, e);
      case CutHead(l) =>
        var e := CutHead(l);
        out := if e != null then [e] else [];
      case RemoveHead(l) => RemoveHead(l);
      case RemoveTail(l) => RemoveTail(l);
      case Remove(l, e) => Remove(l, e);
    }

    /** In memory as in the abstract state, no node is shared, repeated, or linked and free at once. */
    lemma ValidIsSound()
      requires Valid()
      ensures Sound(Abstract())
    {
      forall l | 0 <= l < |seqs| ensures forall e :: e in seqs[l] ==> e.prev != null {
        AllMarked(heads[l], seqs[l]);
      }
    }

    /**
     Any run of operations, on whichever lists, moves the nodes exactly as the abstract run
     does, hands out what it hands out, and leaves every list it does not name alone.
     */
    method Perform(ops: seq<Op<Node>>) returns (cuts: seq<Node>)
      requires Valid() && AllowedRun(Abstract(), ops)
      modifies this, heads, nodes
      ensures Valid() && Abstract() == Run(old(Abstract()), ops) && Sound(Abstract())
      ensures cuts == Cuts(old(Abstract()), ops)
      ensures |seqs| == old(|seqs|)
      ensures forall m :: 0 <= m < |seqs| && (forall k :: 0 <= k < |ops| ==> ops[k].list != m) ==>
                seqs[m] == old(seqs)[m]
      ensures old(Covered(Abstract())) ==>
                && Covered(Abstract())
                && |Abstract().cleared| + Total(seqs) == old(|Abstract().cleared| + Total(seqs))
      decreases |ops|
    {
      ValidIsSound();
      RunLaws(Abstract(), ops);
      cuts := [];
      if ops != [] {
        cuts := Apply(ops[0]);
        var later := Perform(ops[1..]);
        cuts := cuts + later;
      }
    }
  }
}
