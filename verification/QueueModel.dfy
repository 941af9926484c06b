/**
 Runs of queue, stack and ring-buffer operations on plain sequences, and what holds of all
 such runs.
 */
module QueueModel {
  import opened Sequences

  datatype Op<T> =
    | Put(x: T)          // at the end that is read last
    | PutTail(x: T)      // at the end that is read first
    | PutAll(xs: seq<T>) // a block, at the end that is read last
    | ReuseLast(x: T)    // in place of the element that is read last
    | Delete(x: T)       // wherever it is
    | Get
    | Take(n: nat)       // a block, from the end that is read first

  function Step<T(==)>(q: seq<T>, op: Op<T>): seq<T> {
    match op
    case Put(x) => q + [x]
    case PutTail(x) => [x] + q
    case PutAll(xs) => q + xs
    case ReuseLast(x) => if q == [] then q else q[..|q| - 1] + [x]
    case Delete(x) => Without(q, x)
    case Get => if q == [] then q else q[1..]
    case Take(n) => if n <= |q| then q[n..] else []
  }

  /** What one operation hands out; a Get on an empty queue hands out nothing. */
  function Out<T>(q: seq<T>, op: Op<T>): seq<T> {
    match op
    case Get => if q == [] then [] else [q[0]]
    case Take(n) => if n <= |q| then q[..n] else q
    case _ => []
  }

  /** What one operation puts in. */
  function In<T>(op: Op<T>): seq<T> {
    match op
    case Put(x) => [x]
    case PutTail(x) => [x]
    case PutAll(xs) => xs
    case ReuseLast(x) => [x]
    case _ => []
  }

  /** What one operation does away with, by overwriting or by deleting, or does not store at all. */
  function Loss<T(==)>(q: seq<T>, op: Op<T>): seq<T> {
    match op
    case ReuseLast(x) => if q == [] then [x] else [Last(q)]
    case Delete(x) => if x in q then [x] else []
    case _ => []
  }

  /** The elements handed out along a run. */
  function Outputs<T(==)>(q: seq<T>, ops: seq<Op<T>>): seq<T>
    decreases |ops|
  {
    if ops == [] then [] else Out(q, ops[0]) + Outputs(Step(q, ops[0]), ops[1..])
  }

  function Remaining<T(==)>(q: seq<T>, ops: seq<Op<T>>): seq<T>
    decreases |ops|
  {
    if ops == [] then q else Remaining(Step(q, ops[0]), ops[1..])
  }

  /** The elements put in along a run, in order. */
  function Inputs<T>(ops: seq<Op<T>>): seq<T> {
    if ops == [] then [] else In(ops[0]) + Inputs(ops[1..])
  }

  /** The elements done away with along a run. */
  function Losses<T(==)>(q: seq<T>, ops: seq<Op<T>>): seq<T>
    decreases |ops|
  {
    if ops == [] then [] else Loss(q, ops[0]) + Losses(Step(q, ops[0]), ops[1..])
  }

  /** Nothing is overwritten or deleted. */
  predicate KeepsAll<T>(op: Op<T>) {
    !op.ReuseLast? && !op.Delete?
  }

  /** Elements enter at one end and leave at the other. */
  ghost predicate IsFifo<T>(ops: seq<Op<T>>) {
    forall k :: 0 <= k < |ops| ==> !ops[k].PutTail? && KeepsAll(ops[k])
  }

  lemma FifoStep<T>(q: seq<T>, op: Op<T>)
    requires !op.PutTail? && KeepsAll(op)
    ensures Out(q, op) + Step(q, op) == q + In(op)
  {
  }

  lemma Reassociate<T>(o: seq<T>, o': seq<T>, r: seq<T>, q: seq<T>, q': seq<T>, i: seq<T>, i': seq<T>)
    requires o + q' == q + i && o' + r == q' + i'
    ensures o + o' + r == q + (i + i')
  {
    assert o + o' + r == o + (o' + r);
    assert o + (q' + i') == (o + q') + i';
  }

  /** Nothing is lost, duplicated or reordered by any interleaving of puts and gets, single or in blocks. */
  lemma {:induction false} FifoOrder<T>(q: seq<T>, ops: seq<Op<T>>)
    requires IsFifo(ops)
    ensures Outputs(q, ops) + Remaining(q, ops) == q + Inputs(ops)
    decreases |ops|
  {
    if ops == [] {
    } else {
      var op, rest, q' := ops[0], ops[1..], Step(q, ops[0]);
      FifoOrder(q', rest);
      FifoStep(q, op);
      Reassociate(Out(q, op), Outputs(q', rest), Remaining(q', rest), q, q', In(op), Inputs(rest));
    }
  }

  lemma {:induction false} WithoutBalance<T>(q: seq<T>, x: T)
    ensures multiset(q) == multiset(Without(q, x)) + if x in q then multiset{x} else multiset{}
  {
    if q == [] {
    } else {
      assert q == [q[0]] + q[1..];
      WithoutBalance(q[1..], x);
    }
  }

  lemma ReuseBalance<T>(q: seq<T>, x: T)
    requires q != []
    ensures multiset([Last(q)]) + multiset(q[..|q| - 1] + [x]) == multiset(q) + multiset([x])
  {
    assert q == q[..|q| - 1] + [Last(q)];
  }

  lemma EqualSums<T>(a: seq<T>, b: seq<T>, c: seq<T>, d: seq<T>)
    requires a + b == c + d
    ensures multiset(a) + multiset(b) == multiset(c) + multiset(d)
  {
    assert multiset(a + b) == multiset(c + d);
  }

  lemma FifoBalance<T>(q: seq<T>, op: Op<T>)
    requires !op.PutTail? && KeepsAll(op)
    ensures multiset(Out(q, op)) + multiset(Step(q, op)) == multiset(q) + multiset(In(op))
  {
    FifoStep(q, op);
    EqualSums(Out(q, op), Step(q, op), q, In(op));
  }

  lemma StepBalance<T>(q: seq<T>, op: Op<T>)
    ensures multiset(Out(q, op)) + multiset(Loss(q, op)) + multiset(Step(q, op)) == multiset(q) + multiset(In(op))
  {
    if op.ReuseLast? {
      if q != [] {
        ReuseBalance(q, op.x);
      }
    } else if op.Delete? {
      WithoutBalance(q, op.x);
    } else if op.PutTail? {
    } else {
      FifoBalance(q, op);
    }
  }

  lemma Rebalance<T>(o: multiset<T>, o': multiset<T>, l: multiset<T>, l': multiset<T>, r: multiset<T>,
                     q: multiset<T>, q': multiset<T>, i: multiset<T>, i': multiset<T>)
    requires o + l + q' == q + i && o' + l' + r == q' + i'
    ensures o + o' + (l + l') + r == q + (i + i')
  {
    assert o + o' + (l + l') + r == o + l + (o' + l' + r);
    assert o + l + (q' + i') == o + l + q' + i';
  }

  /**
   Whatever is put in, at either end or over others, each element is handed out, kept or done
   away with as often as it came in.
   */
  lemma {:induction false} NothingLost<T>(q: seq<T>, ops: seq<Op<T>>)
    ensures multiset(Outputs(q, ops)) + multiset(Losses(q, ops)) + multiset(Remaining(q, ops)) ==
            multiset(q) + multiset(Inputs(ops))
    decreases |ops|
  {
    if ops == [] {
    } else {
      var op, rest, q' := ops[0], ops[1..], Step(q, ops[0]);
      NothingLost(q', rest);
      StepBalance(q, op);
      Rebalance(multiset(Out(q, op)), multiset(Outputs(q', rest)), multiset(Loss(q, op)), multiset(Losses(q', rest)),
                multiset(Remaining(q', rest)), multiset(q), multiset(q'), multiset(In(op)), multiset(Inputs(rest)));
    }
  }

  /** Without overwriting and deleting, nothing is done away with. */
  lemma {:induction false} NoLosses<T>(q: seq<T>, ops: seq<Op<T>>)
    requires forall k :: 0 <= k < |ops| ==> KeepsAll(ops[k])
    ensures Losses(q, ops) == []
    decreases |ops|
  {
    if ops == [] {
    } else {
      NoLosses(Step(q, ops[0]), ops[1..]);
    }
  }

  /** Both laws of a run. */
  lemma RunLaws<T>(q: seq<T>, ops: seq<Op<T>>)
    ensures IsFifo(ops) ==> Outputs(q, ops) + Remaining(q, ops) == q + Inputs(ops)
    ensures multiset(Outputs(q, ops)) + multiset(Losses(q, ops)) + multiset(Remaining(q, ops)) ==
            multiset(q) + multiset(Inputs(ops))
  {
    if IsFifo(ops) {
      FifoOrder(q, ops);
    }
    NothingLost(q, ops);
  }

  /** A run can be cut anywhere, as to what remains. */
  lemma {:induction false} RemainingJoin<T>(q: seq<T>, ops: seq<Op<T>>, more: seq<Op<T>>, whole: seq<Op<T>>)
    requires whole == ops + more
    ensures Remaining(q, whole) == Remaining(Remaining(q, ops), more)
    decreases |ops|
  {
    if ops == [] {
      assert whole == more;
    } else {
      HeadOfSum(ops, more);
      RemainingJoin(Step(q, ops[0]), ops[1..], more, whole[1..]);
    }
  }

  /** A run can be cut anywhere, as to what it hands out. */
  lemma {:induction false} OutputsJoin<T>(q: seq<T>, ops: seq<Op<T>>, more: seq<Op<T>>, whole: seq<Op<T>>)
    requires whole == ops + more
    ensures Outputs(q, whole) == Outputs(q, ops) + Outputs(Remaining(q, ops), more)
    decreases |ops|
  {
    if ops == [] {
      assert whole == more;
    } else {
      HeadOfSum(ops, more);
      var q', later := Step(q, ops[0]), Outputs(Remaining(q, ops), more);
      OutputsJoin(q', ops[1..], more, whole[1..]);
      JoinSlices(Out(q, ops[0]), Outputs(q', whole[1..]), Outputs(q', ops[1..]), later);
    }
  }

  lemma FirstThenRest<T>(q: seq<T>, op: Op<T>, rest: seq<Op<T>>)
    ensures Remaining(q, [op] + rest) == Remaining(Step(q, op), rest)
    ensures Outputs(q, [op] + rest) == Out(q, op) + Outputs(Step(q, op), rest)
  {
    assert ([op] + rest)[1..] == rest;
  }

  /** A run of one operation is that operation. */
  lemma RunOne<T>(q: seq<T>, op: Op<T>)
    ensures Remaining(q, [op]) == Step(q, op) && Outputs(q, [op]) == Out(q, op)
    ensures Inputs([op]) == In(op) && Losses(q, [op]) == Loss(q, op)
  {
    assert [op][1..] == [];
  }

  // ---- Stacks ----

  /** Pushes and pops that, from that many elements on, never pop an empty stack. */
  predicate StackRun<T>(depth: nat, ops: seq<Op<T>>)
    decreases |ops|
  {
    ops == [] || (ops[0].PutTail? && StackRun(depth + 1, ops[1..]))
    || (ops[0].Get? && depth > 0 && StackRun(depth - 1, ops[1..]))
  }

  function FinalDepth<T>(depth: nat, ops: seq<Op<T>>): nat
    requires StackRun(depth, ops)
    decreases |ops|
  {
    if ops == [] then depth
    else FinalDepth(if ops[0].PutTail? then depth + 1 else depth - 1, ops[1..])
  }

  /** What lies below the elements a stack run reaches is neither seen nor moved. */
  lemma {:induction false} BelowUndisturbed<T>(top: seq<T>, q: seq<T>, ops: seq<Op<T>>)
    requires StackRun(|top|, ops)
    ensures Outputs(top + q, ops) == Outputs(top, ops)
    ensures Remaining(top + q, ops) == Remaining(top, ops) + q
    ensures |Remaining(top, ops)| == FinalDepth(|top|, ops)
    decreases |ops|
  {
    if ops == [] {
    } else {
      var top' := Step(top, ops[0]);
      assert Step(top + q, ops[0]) == top' + q;
      BelowUndisturbed(top', q, ops[1..]);
    }
  }

  /**
   Every pop hands out the element of the push it closes: whatever complete pushes and pops
   come between the two, and whatever lies below.
   */
  lemma LastInFirstOut<T>(q: seq<T>, x: T, ops: seq<Op<T>>)
    requires StackRun(0, ops) && FinalDepth(0, ops) == 0
    ensures Outputs(q, [PutTail(x)] + ops + [Get]) == Outputs([], ops) + [x]
    ensures Remaining(q, [PutTail(x)] + ops + [Get]) == q
  {
    var q' := [x] + q;
    BelowUndisturbed([], q', ops);
    assert [] + q' == q' && Remaining([], ops) == [];
    assert [PutTail(x)] + ops + [Get] == [PutTail(x)] + (ops + [Get]);
    FirstThenRest(q, PutTail(x), ops + [Get]);
    RemainingJoin(q', ops, [Get], ops + [Get]);
    OutputsJoin(q', ops, [Get], ops + [Get]);
    RunOne(q', Get);
  }

  function Gets<T>(ops: seq<Op<T>>): nat {
    if ops == [] then 0 else Gets(ops[1..]) + if ops[0].Get? then 1 else 0
  }

  ghost predicate PushesAndPops<T>(ops: seq<Op<T>>) {
    forall k :: 0 <= k < |ops| ==> ops[k].PutTail? || ops[k].Get?
  }

  lemma PushesAndPopsRest<T>(ops: seq<Op<T>>)
    requires ops != []
    ensures PushesAndPops(ops) <==> (ops[0].PutTail? || ops[0].Get?) && PushesAndPops(ops[1..])
  {
    assert forall k :: 0 < k < |ops| ==> ops[k] == ops[1..][k - 1];
  }

  /** A stack run is a run of pushes and pops that hands out as many elements as it pops. */
  lemma {:induction false} StackRunExactly<T>(q: seq<T>, ops: seq<Op<T>>)
    ensures PushesAndPops(ops) ==> |Outputs(q, ops)| <= Gets(ops)
    ensures StackRun(|q|, ops) <==> PushesAndPops(ops) && |Outputs(q, ops)| == Gets(ops)
    decreases |ops|
  {
    if ops == [] {
    } else {
      StackRunExactly(Step(q, ops[0]), ops[1..]);
      PushesAndPopsRest(ops);
    }
  }

  function Pushes<T>(xs: seq<T>): seq<Op<T>> {
    seq(|xs|, i requires 0 <= i < |xs| => PutTail(xs[i]))
  }

  function Pops<T>(n: nat): seq<Op<T>> {
    seq(n, _ => Get)
  }

  lemma {:induction false} Popped<T>(q: seq<T>, n: nat)
    requires n <= |q|
    ensures Outputs(q, Pops(n)) == q[..n] && Remaining(q, Pops(n)) == q[n..]
  {
    if n == 0 {
    } else {
      assert Pops<T>(n)[1..] == Pops<T>(n - 1);
      Popped(q[1..], n - 1);
      assert q[..n] == [q[0]] + q[1..][..n - 1];
    }
  }

  lemma {:induction false} Pushed<T>(q: seq<T>, xs: seq<T>)
    ensures Outputs(q, Pushes(xs)) == [] && Remaining(q, Pushes(xs)) == Reversed(xs) + q
    decreases |xs|
  {
    if xs == [] {
      assert Reversed(xs) + q == q;
    } else {
      var ops := Pushes(xs);
      assert ops[1..] == Pushes(xs[1..]) && ops[0] == PutTail(xs[0]);
      Pushed([xs[0]] + q, xs[1..]);
      assert Outputs(q, ops) == [] + Outputs([xs[0]] + q, Pushes(xs[1..]));
      assert Reversed(xs) + q == Reversed(xs[1..]) + ([xs[0]] + q);
    }
  }

  lemma {:induction false} ReversedSize<T>(xs: seq<T>)
    ensures |Reversed(xs)| == |xs|
  {
    if xs == [] {
    } else {
      ReversedSize(xs[1..]);
    }
  }

  /** Pushing a block and popping as often hands it out reversed and uncovers the old contents. */
  lemma PushesThenPops<T>(q: seq<T>, xs: seq<T>)
    ensures Outputs(q, Pushes(xs) + Pops(|xs|)) == Reversed(xs)
    ensures Remaining(q, Pushes(xs) + Pops(|xs|)) == q
  {
    Pushed(q, xs);
    RemainingJoin(q, Pushes(xs), Pops(|xs|), Pushes(xs) + Pops(|xs|));
    OutputsJoin(q, Pushes(xs), Pops(|xs|), Pushes(xs) + Pops(|xs|));
    ReversedSize(xs);
    var r := Reversed(xs) + q;
    Popped(r, |xs|);
    assert r[..|xs|] == Reversed(xs) && r[|xs|..] == q;
  }

  // ---- Each operation by what it does to others ----

  lemma RunTwo<T>(q: seq<T>, op: Op<T>, next: Op<T>)
    ensures Remaining(q, [op, next]) == Step(Step(q, op), next)
    ensures Outputs(q, [op, next]) == Out(q, op) + Out(Step(q, op), next)
    ensures Losses(q, [op, next]) == Loss(q, op) + Loss(Step(q, op), next)
  {
    assert [op, next][1..] == [next];
    RunOne(Step(q, op), next);
  }

  function Puts<T>(xs: seq<T>): seq<Op<T>> {
    seq(|xs|, i requires 0 <= i < |xs| => Put(xs[i]))
  }

  /** Puts add to the end, in order, and nothing else. */
  lemma {:induction false} PutsAppend<T>(q: seq<T>, xs: seq<T>)
    ensures Remaining(q, Puts(xs)) == q + xs && Inputs(Puts(xs)) == xs
    ensures Outputs(q, Puts(xs)) == [] && Losses(q, Puts(xs)) == []
    decreases |xs|
  {
    if xs == [] {
      assert q + xs == q;
    } else {
      var ops := Puts(xs);
      assert ops[1..] == Puts(xs[1..]) && ops[0] == Put(xs[0]);
      PutsAppend(q + [xs[0]], xs[1..]);
      assert q + [xs[0]] + xs[1..] == q + xs;
    }
  }

  lemma PutsPopsFifo<T>(xs: seq<T>, n: nat)
    ensures IsFifo(Puts(xs) + Pops(n))
  {
    forall k | 0 <= k < |xs| + n ensures var op := (Puts(xs) + Pops(n))[k]; !op.PutTail? && KeepsAll(op) {
      assert k < |xs| ==> (Puts(xs) + Pops(n))[k] == Put(xs[k]);
    }
  }

  /** A block put one by one and got one by one comes out in order, first what was there before. */
  lemma PutsThenGets<T>(q: seq<T>, xs: seq<T>)
    ensures Outputs(q, Puts(xs) + Pops(|q| + |xs|)) == q + xs
    ensures Remaining(q, Puts(xs) + Pops(|q| + |xs|)) == []
  {
    PutsAppend(q, xs);
    RemainingJoin(q, Puts(xs), Pops(|q| + |xs|), Puts(xs) + Pops(|q| + |xs|));
    OutputsJoin(q, Puts(xs), Pops(|q| + |xs|), Puts(xs) + Pops(|q| + |xs|));
    var all := q + xs;
    Popped(all, |all|);
    assert all[..|all|] == all && all[|all|..] == [];
  }

  /** Putting a block is putting its elements one by one. */
  lemma PutAllIsPuts<T>(q: seq<T>, xs: seq<T>)
    ensures Remaining(q, [PutAll(xs)]) == Remaining(q, Puts(xs)) && Inputs([PutAll(xs)]) == Inputs(Puts(xs))
    ensures Outputs(q, [PutAll(xs)]) == [] && Losses(q, [PutAll(xs)]) == [] && IsFifo([PutAll(xs)])
  {
    RunOne(q, PutAll(xs));
    PutsAppend(q, xs);
  }

  lemma TakeFirst<T>(q: seq<T>, n: nat)
    requires n > 0
    ensures Step(q, Take(n)) == Step(Step(q, Get), Take(n - 1))
    ensures Out(q, Take(n)) == Out(q, Get) + Out(Step(q, Get), Take(n - 1))
  {
  }

  lemma {:induction false} GetsTake<T>(q: seq<T>, n: nat)
    ensures Remaining(q, Pops(n)) == Step(q, Take(n)) && Outputs(q, Pops(n)) == Out(q, Take(n))
    decreases n
  {
    if n == 0 {
    } else {
      assert Pops<T>(n)[1..] == Pops<T>(n - 1);
      GetsTake(Step(q, Get), n - 1);
      TakeFirst(q, n);
    }
  }

  /** Taking n elements is getting n times, however many there are. */
  lemma TakeIsGets<T>(q: seq<T>, n: nat)
    ensures Remaining(q, [Take(n)]) == Remaining(q, Pops(n)) && Outputs(q, [Take(n)]) == Outputs(q, Pops(n))
    ensures IsFifo<T>([Take(n)])
  {
    RunOne(q, Take(n));
    GetsTake(q, n);
  }

  /** Replacing the last element undoes the put before it; on an empty queue nothing is stored. */
  lemma ReuseReplaces<T>(q: seq<T>, x: T, y: T)
    ensures Remaining(q, [Put(x), ReuseLast(y)]) == Remaining(q, [Put(y)])
    ensures Outputs(q, [Put(x), ReuseLast(y)]) == [] && Losses(q, [Put(x), ReuseLast(y)]) == [x]
    ensures Remaining([], [ReuseLast(y)]) == [] && Losses([], [ReuseLast(y)]) == [y]
  {
    RunTwo(q, Put(x), ReuseLast(y));
    RunOne(q, Put(y));
    RunOne([], ReuseLast(y));
    assert (q + [x])[..|q|] == q;
  }

  /** Deleting takes out the first occurrence alone, or nothing. */
  lemma {:induction false} DeleteCuts<T>(front: seq<T>, x: T, back: seq<T>)
    requires x !in front
    ensures Remaining(front + [x] + back, [Delete(x)]) == front + back && Losses(front + [x] + back, [Delete(x)]) == [x]
    ensures Remaining(front, [Delete(x)]) == front && Losses(front, [Delete(x)]) == []
    ensures Outputs(front + [x] + back, [Delete(x)]) == [] && Outputs(front, [Delete(x)]) == []
  {
    RunOne(front, Delete(x));
    RunOne(front + [x] + back, Delete(x));
    WithoutAbsent(front, x);
    WithoutFirst(front, x, back);
  }
}
