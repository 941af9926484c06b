/**
 Sequence operations that the lists refine: deleting one element, inserting behind
 an element, reversing. All the list modules share them.
 */
module Sequences {
  ghost predicate Distinct<T>(s: seq<T>) {
    forall j, k :: 0 <= j < k < |s| ==> s[j] != s[k]
  }

  /** The sequence without the first occurrence of x. */
  function Without<T(==)>(s: seq<T>, x: T): seq<T> {
    if s == [] then []
    else if s[0] == x then s[1..]
    else [s[0]] + Without(s[1..], x)
  }

  /** The sequence with x put behind the first occurrence of at. */
  function Behind<T(==)>(s: seq<T>, at: T, x: T): seq<T> {
    if s == [] then []
    else if s[0] == at then [at, x] + s[1..]
    else [s[0]] + Behind(s[1..], at, x)
  }

  function Reversed<T>(s: seq<T>): seq<T> {
    if s == [] then [] else Reversed(s[1..]) + [s[0]]
  }

  lemma {:induction false} ReversedAt<T>(s: seq<T>, k: nat)
    requires k < |s|
    ensures |Reversed(s)| == |s| && Reversed(s)[k] == s[|s| - 1 - k]
  {
    if |s| > 1 {
      ReversedAt(s[1..], if k < |s| - 1 then k else 0);
    }
  }

  function Last<T>(s: seq<T>): T
    requires s != []
  {
    s[|s| - 1]
  }

  /** In a sequence without repetitions, Without cuts out exactly one position. */
  lemma {:induction false} WithoutAt<T>(s: seq<T>, k: nat)
    requires k < |s| && Distinct(s)
    ensures Without(s, s[k]) == s[..k] + s[k + 1..]
  {
    if k == 0 {
    } else {
      assert s[1..][k - 1] == s[k];
      WithoutAt(s[1..], k - 1);
      assert [s[0]] + (s[1..][..k - 1] + s[1..][k..]) == s[..k] + s[k + 1..];
    }
  }

  lemma {:induction false} WithoutAbsent<T>(s: seq<T>, x: T)
    requires x !in s
    ensures Without(s, x) == s
  {
    if s == [] {
    } else {
      WithoutAbsent(s[1..], x);
      assert [s[0]] + s[1..] == s;
    }
  }

  /** Without takes out the first occurrence. */
  lemma {:induction false} WithoutFirst<T>(front: seq<T>, x: T, back: seq<T>)
    requires x !in front
    ensures Without(front + [x] + back, x) == front + back
  {
    var s := front + [x] + back;
    if front == [] {
      assert s[1..] == back;
    } else {
      WithoutFirst(front[1..], x, back);
      assert s[1..] == front[1..] + [x] + back;
    }
  }

  /** Without keeps the sequence free of repetitions and drops x alone. */
  lemma WithoutElements<T>(s: seq<T>, x: T)
    requires Distinct(s)
    ensures Distinct(Without(s, x))
    ensures forall y :: y in Without(s, x) <==> y in s && y != x
  {
    if x in s {
      var k :| 0 <= k < |s| && s[k] == x;
      WithoutAt(s, k);
      forall y | y in s && y != x ensures y in Without(s, x) {
        var j :| 0 <= j < |s| && s[j] == y;
        assert (s[..k] + s[k + 1..])[if j < k then j else j - 1] == y;
      }
    } else {
      WithoutAbsent(s, x);
    }
  }

  /** Deleting position k leaves the last element in place, or its predecessor if k was the last. */
  lemma WithoutEnd<T>(s: seq<T>, k: nat)
    requires k < |s| && Distinct(s)
    ensures |Without(s, s[k])| == |s| - 1
    ensures |s| > 1 ==> Last(Without(s, s[k])) == s[if k == |s| - 1 then k - 1 else |s| - 1]
  {
    WithoutAt(s, k);
  }

  lemma {:induction false} WithoutIndex<T>(s: seq<T>, x: T)
    ensures forall k :: 0 <= k < |Without(s, x)| ==> Without(s, x)[k] in s
  {
    if s == [] {
    } else {
      WithoutIndex(s[1..], x);
    }
  }

  lemma {:induction false} BehindAt<T>(s: seq<T>, k: nat, x: T)
    requires k < |s| && Distinct(s)
    ensures Behind(s, s[k], x) == s[..k + 1] + [x] + s[k + 1..]
  {
    if k == 0 {
    } else {
      assert s[1..][k - 1] == s[k];
      BehindAt(s[1..], k - 1, x);
      assert [s[0]] + (s[1..][..k] + [x] + s[1..][k..]) == s[..k + 1] + [x] + s[k + 1..];
    }
  }

  lemma {:induction false} BehindIndex<T>(s: seq<T>, at: T, x: T)
    ensures forall k :: 0 <= k < |Behind(s, at, x)| ==> Behind(s, at, x)[k] in s || Behind(s, at, x)[k] == x
  {
    if s == [] {
    } else if s[0] == at {
    } else {
      BehindIndex(s[1..], at, x);
    }
  }

  lemma BehindElements<T>(s: seq<T>, at: T, x: T)
    requires Distinct(s) && at in s && x !in s
    ensures Distinct(Behind(s, at, x)) && |Behind(s, at, x)| == |s| + 1
    ensures forall y :: y in Behind(s, at, x) <==> y in s || y == x
  {
    var k :| 0 <= k < |s| && s[k] == at;
    BehindAt(s, k, x);
    var t := s[..k + 1] + [x] + s[k + 1..];
    assert forall y :: y in s ==> y in s[..k + 1] || y in s[k + 1..];
  }

  lemma BehindLast<T>(s: seq<T>, x: T)
    requires s != [] && Distinct(s)
    ensures Behind(s, Last(s), x) == s + [x]
  {
    BehindAt(s, |s| - 1, x);
    assert s[..|s|] + [x] + s[|s|..] == s + [x];
  }

  /** Deleting an element and putting it back behind its old predecessor changes nothing. */
  lemma WithoutThenBehind<T>(s: seq<T>, k: nat)
    requires 0 < k < |s| && Distinct(s)
    ensures Behind(Without(s, s[k]), s[k - 1], s[k]) == s
  {
    WithoutAt(s, k);
    WithoutElements(s, s[k]);
    var t := s[..k] + s[k + 1..];
    assert t[k - 1] == s[k - 1];
    BehindAt(t, k - 1, s[k]);
    calc {
      Behind(t, s[k - 1], s[k]);
      t[..k] + [s[k]] + t[k..];
      { assert t[..k] == s[..k] && t[k..] == s[k + 1..]; }
      s[..k] + [s[k]] + s[k + 1..];
      s;
    }
  }

  /** Inserting a new element and deleting it again changes nothing. */
  lemma {:induction false} BehindThenWithout<T>(s: seq<T>, at: T, x: T)
    requires x !in s && at != x
    ensures Without(Behind(s, at, x), x) == s
  {
    if s == [] {
    } else if s[0] == at {
      assert Behind(s, at, x)[1..] == [x] + s[1..];
      assert Without(Behind(s, at, x), x) == [at] + Without([x] + s[1..], x);
      assert ([x] + s[1..])[1..] == s[1..];
    } else {
      BehindThenWithout(s[1..], at, x);
      assert Behind(s, at, x)[1..] == Behind(s[1..], at, x);
    }
  }

  lemma HeadOfSum<T>(a: seq<T>, b: seq<T>)
    requires a != []
    ensures (a + b)[0] == a[0] && (a + b)[1..] == a[1..] + b
  {
  }

  lemma JoinSlices<T>(first: seq<T>, tail: seq<T>, partTail: seq<T>, later: seq<T>)
    requires tail == partTail + later
    ensures first + tail == first + partTail + later
  {
  }
}
