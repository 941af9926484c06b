/**
 A ring buffer held in a fixed array by a read index, a write index and a count. Entries are
 named by their position in the array, the way the original hands out pointers to them.
 */
module RingBuffers {
  import opened Options
  import opened Words
  import Q = QueueModel

  // ---- Positions ----

  /** The position of the k-th entry after start, without a division. */
  function Slot(cap: nat, start: nat, k: nat): nat
    requires start < cap && k <= cap
  {
    if start + k < cap then start + k else start + k - cap
  }

  /** The remainder of a division, by repeated subtraction. */
  function Rem(x: nat, d: nat): (r: nat)
    requires d > 0
    ensures r < d && (d <= x < 2 * d ==> r == x - d)
    decreases x
  {
    if x < d then x else Rem(x - d, d)
  }

  lemma AtLeastOnce(d: nat, k: int)
    requires k >= 1
    ensures d * k >= d
  {
  }

  lemma QuotientUnique(x: int, d: nat, q: int, r: nat)
    requires r < d && x == d * q + r
    ensures x % d == r
  {
    var p := x / d;
    assert d * (q - p) == x % d - r;
    if q > p {
      AtLeastOnce(d, q - p);
    } else if q < p {
      AtLeastOnce(d, p - q);
    }
  }

  lemma {:induction false} RemIsRemainder(x: nat, d: nat)
    requires d > 0
    ensures Rem(x, d) == x % d
  {
    if x < d {
      QuotientUnique(x, d, 0, x);
    } else {
      RemIsRemainder(x - d, d);
      QuotientUnique(x, d, (x - d) / d + 1, (x - d) % d);
    }
  }

  /** The n entries that start at position start of buf. */
  ghost function Window<T>(buf: seq<T>, start: nat, n: nat): (r: seq<T>)
    requires start < |buf| && n <= |buf|
    ensures |r| == n
  {
    seq(n, k requires 0 <= k < n => buf[Slot(|buf|, start, k)])
  }

  /** Writing a position outside the window leaves the window alone. */
  lemma WindowFrame<T>(before: seq<T>, after: seq<T>, start: nat, n: nat)
    requires |before| == |after| && start < |before| && n <= |before|
    requires forall k :: 0 <= k < n ==> after[Slot(|before|, start, k)] == before[Slot(|before|, start, k)]
    ensures Window(after, start, n) == Window(before, start, n)
  {
  }

  lemma WindowAppend<T>(buf: seq<T>, start: nat, n: nat)
    requires start < |buf| && n < |buf|
    ensures Window(buf, start, n + 1) == Window(buf, start, n) + [buf[Slot(|buf|, start, n)]]
  {
  }

  lemma WindowFirst<T>(buf: seq<T>, start: nat, n: nat)
    requires start < |buf| && 0 < n <= |buf|
    ensures Window(buf, start, n) == [buf[start]] + Window(buf, Slot(|buf|, start, 1), n - 1)
  {
  }

  lemma WindowDrop<T>(buf: seq<T>, start: nat, n: nat, m: nat)
    requires start < |buf| && m <= n <= |buf|
    ensures Window(buf, Slot(|buf|, start, m), n - m) == Window(buf, start, n)[m..]
  {
  }

  // ---- Runs of entries that lie next to each other ----

  /** The m entries from the offset-th on are stored and lie at consecutive positions. */
  ghost predicate IsRun(cap: nat, start: nat, n: nat, offset: nat, m: nat)
    requires start < cap && n <= cap
  {
    && offset + m <= n
    && forall k :: offset <= k < offset + m ==> Slot(cap, start, k) == Slot(cap, start, offset) + (k - offset)
  }

  ghost predicate LongestRun(cap: nat, start: nat, n: nat, offset: nat, m: nat)
    requires start < cap && n <= cap
  {
    IsRun(cap, start, n, offset, m) && forall m': nat :: IsRun(cap, start, n, offset, m') ==> m' <= m
  }

  /** The entries of a run are exactly that slice of the contents. */
  lemma RunIsSlice<T>(buf: seq<T>, start: nat, n: nat, offset: nat, m: nat)
    requires start < |buf| && n <= |buf| && IsRun(|buf|, start, n, offset, m)
    ensures var pos := Slot(|buf|, start, offset);
      pos + m <= |buf| && buf[pos..pos + m] == Window(buf, start, n)[offset..offset + m]
  {
    var pos := Slot(|buf|, start, offset);
    assert m > 0 ==> Slot(|buf|, start, offset + m - 1) == pos + (m - 1);
    forall k | pos <= k < pos + m ensures buf[k] == Window(buf, start, n)[offset + (k - pos)] {
      assert Slot(|buf|, start, offset + (k - pos)) == k;
    }
  }

  datatype Batch = Batch(size: int, pos: nat)

  /** The generic batch lookup, with its comparison of the position and the write index. */
  function SearchBatchAt(cap: nat, readI: nat, writeI: nat, written: nat, offset: nat): Batch
    requires cap > 0
  {
    if offset >= written then Batch(0, writeI)
    else
      var pos := Rem(readI + offset, cap);
      Batch(if pos <= writeI then written - offset else cap - readI - offset, pos)
  }

  /** The byte-array batch lookup, which has no offset. */
  function FrontBatchAt(cap: nat, readI: nat, written: nat): Batch {
    Batch(if written <= cap - readI then written else cap - readI, readI)
  }

  ghost predicate Consistent(cap: nat, readI: nat, writeI: nat, written: nat) {
    readI < cap && written <= cap && writeI == Rem(readI + written, cap)
  }

  /** Writing m entries behind the last one keeps the cursors consistent as long as they fit. */
  lemma CursorsAfterPut(cap: nat, readI: nat, writeI: nat, written: nat, m: nat)
    requires Consistent(cap, readI, writeI, written) && m <= cap - writeI
    ensures Consistent(cap, readI, Rem(writeI + m, cap), written + m) <==> written + m <= cap
  {
  }

  lemma CursorsAfterGet(cap: nat, readI: nat, writeI: nat, written: nat, m: nat)
    requires Consistent(cap, readI, writeI, written) && m <= written
    ensures Consistent(cap, Rem(readI + m, cap), writeI, written - m)
    ensures Rem(readI + m, cap) == Slot(cap, readI, m)
  {
  }

  /** Flushing so many entries amounts to putting WORD - size entries back at the front. */
  predicate PutsBack(cap: nat, readI: nat, written: nat, size: Word)
    requires cap > 0
  {
    WORD - size <= cap - written && (WORD - size <= readI || Rem(WORD, cap) == 0)
  }

  lemma {:induction false} RemAdd(x: nat, e: nat, d: nat)
    requires 0 < d && e <= d
    ensures Rem(x + e, d) == Rem(Rem(x, d) + e, d)
  {
    if x < d {
    } else {
      RemAdd(x - d, e, d);
    }
  }

  /** Back entries before the read index, with a carry past position 0 through 2^32. */
  lemma FlushRotates(cap: nat, readI: nat, writeI: nat, written: nat, back: nat)
    requires Consistent(cap, readI, writeI, written) && cap < WORD / 2 && readI < back <= cap - written
    ensures Consistent(cap, Rem(WORD + readI - back, cap), writeI, written + back) <==> Rem(WORD, cap) == 0
  {
    var r := Rem(WORD + readI - back, cap);
    RemAdd(WORD + readI - back, back - readI, cap);
    assert Rem(WORD, cap) == 0 <==> r + (back - readI) == cap;
    assert Rem(r + (written + back), cap) == Rem(readI + written, cap) <==> r + (back - readI) == cap;
  }

  /** Flushing any number of entries leaves consistent cursors in exactly two cases. */
  lemma FlushExact(cap: nat, readI: nat, writeI: nat, written: nat, size: Word)
    requires Consistent(cap, readI, writeI, written) && cap < WORD / 2
    ensures Consistent(cap, Rem(Wrap(readI + size), cap), writeI, Wrap(written - size)) <==>
            size <= written || PutsBack(cap, readI, written, size)
  {
    if size <= written {
      CursorsAfterGet(cap, readI, writeI, written, size);
    } else {
      var back := WORD - size;
      assert Wrap(written - size) == written + back;
      if readI < back <= cap - written {
        assert Wrap(readI + size) == WORD + readI - back;
        FlushRotates(cap, readI, writeI, written, back);
      } else if back <= cap - written {
        assert Wrap(readI + size) == readI - back;
      }
    }
  }

  /** The old first entry then follows the WORD - size entries put back. */
  lemma PutsBackSlot(cap: nat, readI: nat, written: nat, size: Word)
    requires readI < cap < WORD / 2 && written <= cap && PutsBack(cap, readI, written, size) && size > written
    ensures Slot(cap, Rem(Wrap(readI + size), cap), WORD - size) == readI
  {
    if readI < WORD - size {
      RemAdd(readI + size, WORD - size - readI, cap);
    }
  }

  lemma FlushDrops<T>(buf: seq<T>, readI: nat, writeI: nat, written: nat, size: nat)
    requires Consistent(|buf|, readI, writeI, written) && |buf| < WORD / 2 && size <= written
    ensures Window(buf, Rem(Wrap(readI + size), |buf|), Wrap(written - size)) == Window(buf, readI, written)[size..]
  {
    CursorsAfterGet(|buf|, readI, writeI, written, size);
    WindowDrop(buf, readI, written, size);
  }

  lemma FlushUncovers<T>(buf: seq<T>, readI: nat, written: nat, size: Word)
    requires readI < |buf| < WORD / 2 && written < size && PutsBack(|buf|, readI, written, size)
    ensures Wrap(written - size) <= |buf| && WORD - size <= Wrap(written - size)
    ensures Window(buf, Rem(Wrap(readI + size), |buf|), Wrap(written - size))[WORD - size..] ==
            Window(buf, readI, written)
  {
    PutsBackSlot(|buf|, readI, written, size);
    WindowDrop(buf, Rem(Wrap(readI + size), |buf|), Wrap(written - size), WORD - size);
  }

  /** What flushing any number of entries leaves. */
  lemma Flushed<T>(buf: seq<T>, readI: nat, writeI: nat, written: nat, size: Word)
    requires Consistent(|buf|, readI, writeI, written) && |buf| < WORD / 2
    ensures var r, n := Rem(Wrap(readI + size), |buf|), Wrap(written - size);
      && (Consistent(|buf|, r, writeI, n) <==> size <= written || PutsBack(|buf|, readI, written, size))
      && (size <= written ==> Window(buf, r, n) == Window(buf, readI, written)[size..])
      && (PutsBack(|buf|, readI, written, size) ==>
            WORD - size <= n <= |buf| && Window(buf, r, n)[WORD - size..] == Window(buf, readI, written))
  {
    FlushExact(|buf|, readI, writeI, written, size);
    if size <= written {
      FlushDrops(buf, readI, writeI, written, size);
    } else if PutsBack(|buf|, readI, written, size) {
      FlushUncovers(buf, readI, written, size);
    }
  }

  /** Four slots, two entries from position 1: flushing 2^32 - 1 entries leaves three from position 0. */
  lemma FlushPutsBack()
    ensures Consistent(4, 1, 3, 2) && Consistent(4, Rem(Wrap(1 + 0xFFFF_FFFF), 4), 3, Wrap(2 - 0xFFFF_FFFF))
    ensures Wrap(2 - 0xFFFF_FFFF) == 3
  {
  }

  /** A block written from the write index on follows the window, and the window is kept. */
  lemma WindowBlock<T>(before: seq<T>, after: seq<T>, start: nat, n: nat, w: nat, data: seq<T>, m: nat)
    requires |before| == |after| && start < |before| && m <= |data| && n + m <= |before|
    requires w == Rem(start + n, |before|) && w + m <= |before|
    requires forall i :: 0 <= i < |before| ==> after[i] == if w <= i < w + m then data[i - w] else before[i]
    ensures Window(after, start, n + m) == Window(before, start, n) + data[..m]
  {
  }

  lemma RunLength(cap: nat, start: nat, n: nat, offset: nat, run: nat)
    requires start < cap && n <= cap && offset < n
    requires var pos := Slot(cap, start, offset); run == if pos + (n - offset) <= cap then n - offset else cap - pos
    ensures forall m: nat :: LongestRun(cap, start, n, offset, m) <==> m == run
  {
    assert IsRun(cap, start, n, offset, run);
    var beyond := if offset + run <= cap then Slot(cap, start, offset + run) else 0;
    forall m: nat | IsRun(cap, start, n, offset, m) ensures m <= run {
    }
  }

  /**
   The generic lookup returns the longest run unless it is asked for the front of a full
   buffer that does not start at position 0; then what it returns leaves the array.
   */
  lemma SearchBatchExact(cap: nat, readI: nat, writeI: nat, written: nat, offset: nat)
    requires Consistent(cap, readI, writeI, written) && offset < written
    ensures var b := SearchBatchAt(cap, readI, writeI, written, offset);
      && b.pos == Slot(cap, readI, offset)
      && (b.size >= 0 && LongestRun(cap, readI, written, offset, b.size) <==>
          !(offset == 0 && written == cap && readI != 0))
      && (offset == 0 && written == cap && readI != 0 ==> b.pos + b.size > cap)
  {
    var b := SearchBatchAt(cap, readI, writeI, written, offset);
    var run := if Slot(cap, readI, offset) + (written - offset) <= cap then written - offset
               else cap - Slot(cap, readI, offset);
    RunLength(cap, readI, written, offset, run);
  }

  /** The byte-array lookup returns the longest run from the front in every state. */
  lemma FrontBatchLongest(cap: nat, readI: nat, writeI: nat, written: nat)
    requires Consistent(cap, readI, writeI, written)
    ensures var b := FrontBatchAt(cap, readI, written);
      b.size >= 0 && LongestRun(cap, readI, written, 0, b.size) && (written > 0 ==> b.size > 0)
  {
    if written > 0 {
      RunLength(cap, readI, written, 0, FrontBatchAt(cap, readI, written).size);
    }
  }

  /** Outside that one case, the entries the generic lookup points at are that part of the contents. */
  lemma SearchBatchSlice<T>(buf: seq<T>, readI: nat, writeI: nat, written: nat, offset: nat)
    requires Consistent(|buf|, readI, writeI, written)
    ensures var b := SearchBatchAt(|buf|, readI, writeI, written, offset);
      && (offset >= written ==> b == Batch(0, writeI))
      && (offset < written && !(offset == 0 && written == |buf| && readI != 0) ==>
            && 0 < b.size <= written - offset && b.pos + b.size <= |buf|
            && (offset + b.size == written || b.pos + b.size == |buf|)
            && buf[b.pos..b.pos + b.size] == Window(buf, readI, written)[offset..offset + b.size])
      && (offset == 0 && written == |buf| && readI != 0 ==> b == Batch(written, readI))
  {
    if offset < written {
      SearchBatchExact(|buf|, readI, writeI, written, offset);
      if !(offset == 0 && written == |buf| && readI != 0) {
        var b, pos := SearchBatchAt(|buf|, readI, writeI, written, offset), Slot(|buf|, readI, offset);
        RunLength(|buf|, readI, written, offset,
                  if pos + (written - offset) <= |buf| then written - offset else |buf| - pos);
        RunIsSlice(buf, readI, written, offset, b.size);
      }
    }
  }

  lemma FrontBatchSlice<T>(buf: seq<T>, readI: nat, writeI: nat, written: nat)
    requires Consistent(|buf|, readI, writeI, written)
    ensures var b := FrontBatchAt(|buf|, readI, written);
      && 0 <= b.size <= written && b.pos + b.size <= |buf| && (b.size == 0 <==> written == 0)
      && buf[b.pos..b.pos + b.size] == Window(buf, readI, written)[..b.size]
  {
  }

  /** At offset 0 the two lookups agree except in that same case. */
  lemma LookupsAgree(cap: nat, readI: nat, writeI: nat, written: nat)
    requires Consistent(cap, readI, writeI, written)
    ensures SearchBatchAt(cap, readI, writeI, written, 0) == FrontBatchAt(cap, readI, written) <==>
            !(written == cap && readI != 0)
  {
  }

  /** A full two-entry buffer that starts at position 1: the generic lookup promises two entries there. */
  lemma SearchBatchOverrun()
    ensures Consistent(2, 1, 1, 2)
    ensures SearchBatchAt(2, 1, 1, 2, 0) == Batch(2, 1) && FrontBatchAt(2, 1, 2) == Batch(1, 1)
    ensures LongestRun(2, 1, 2, 0, 1)
  {
    RunLength(2, 1, 2, 0, 1);
  }

  // ---- Sequences of batches ----

  function Joined<T>(parts: seq<seq<T>>): seq<T> {
    if parts == [] then [] else parts[0] + Joined(parts[1..])
  }

  lemma {:induction false} JoinedAppend<T>(parts: seq<seq<T>>, last: seq<T>)
    ensures Joined(parts + [last]) == Joined(parts) + last
  {
    if parts == [] {
      assert parts + [last] == [last];
    } else {
      JoinedAppend(parts[1..], last);
      assert (parts + [last])[1..] == parts[1..] + [last];
    }
  }

  /** The next slice of a sequence extends a joined prefix of it. */
  lemma JoinedExtends<T>(parts: seq<seq<T>>, all: seq<T>, k: nat, next: seq<T>)
    requires k + |next| <= |all| && Joined(parts) == all[..k] && next == all[k..k + |next|]
    ensures Joined(parts + [next]) == all[..k + |next|]
  {
    JoinedAppend(parts, next);
  }

  // ---- The buffer ----

  /** The operations of ring buffers: puts into a buffer that has room, and blocks that are stored. */
  ghost predicate HasRoom<T>(cap: nat, q: seq<T>, op: Q.Op<T>) {
    match op
    case Put(_) => |q| < cap
    case PutTail(_) => |q| < cap
    case PutAll(xs) => |q| + |xs| <= cap
    case Take(n) => n <= |q|
    case Delete(_) => false
    case _ => true
  }

  /** There is room exactly if what the operation leaves fits; a block is stored exactly if all of it is taken. */
  lemma RoomExactly<T>(cap: nat, q: seq<T>, op: Q.Op<T>)
    requires |q| <= cap && !op.Delete?
    ensures HasRoom(cap, q, op) <==> |Q.Step(q, op)| <= cap && (op.Take? ==> |Q.Out(q, op)| == op.n)
  {
  }

  ghost predicate RoomFor<T>(cap: nat, q: seq<T>, ops: seq<Q.Op<T>>)
    decreases |ops|
  {
    ops == [] || (HasRoom(cap, q, ops[0]) && RoomFor(cap, Q.Step(q, ops[0]), ops[1..]))
  }

  /** Whether there is room for a run can be decided piece by piece. */
  lemma {:induction false} RoomJoin<T>(cap: nat, q: seq<T>, ops: seq<Q.Op<T>>, more: seq<Q.Op<T>>, whole: seq<Q.Op<T>>)
    requires whole == ops + more
    ensures RoomFor(cap, q, whole) <==> RoomFor(cap, q, ops) && RoomFor(cap, Q.Remaining(q, ops), more)
    decreases |ops|
  {
    if ops == [] {
      assert whole == more;
    } else {
      assert whole[0] == ops[0] && whole[1..] == ops[1..] + more;
      RoomJoin(cap, Q.Step(q, ops[0]), ops[1..], more, whole[1..]);
    }
  }

  lemma RoomOne<T>(cap: nat, q: seq<T>, op: Q.Op<T>)
    ensures RoomFor(cap, q, [op]) <==> HasRoom(cap, q, op)
  {
  }

  lemma SlicePrefix<T>(buf: seq<T>, pos: nat, size: nat, contents: seq<T>, k: nat)
    requires k <= size <= |contents| && pos + size <= |buf| && buf[pos..pos + size] == contents[..size]
    ensures buf[pos..pos + k] == contents[..k]
  {
    assert buf[pos..pos + k] == buf[pos..pos + size][..k];
  }

  lemma Resplit<T>(a: seq<T>, b: seq<T>, k: nat)
    requires k <= |b|
    ensures a + b[..k] + b[k..] == a + b
  {
  }

  class RingBuffer<T> {
    var readI: Word
    var writeI: Word
    var written: Word
    const ringBuf: array<T>

    ghost const cap := ringBuf.Length

    ghost predicate Valid()
      reads this
    {
      0 < cap < WORD / 2 && Consistent(cap, readI, writeI, written)
    }

    ghost function Contents(): (r: seq<T>)
      reads this, ringBuf
      requires Valid()
    {
      Window(ringBuf[..], readI, written)
    }

    constructor (ringBuf: array<T>)
      requires 0 < ringBuf.Length < WORD / 2
      ensures Valid() && Contents() == [] && this.ringBuf == ringBuf
    {
      this.ringBuf := ringBuf;
      readI := 0;
      writeI := 0;
      written := 0;
    }

    function IsFull(): bool
      reads this
    {
      written >= ringBuf.Length
    }

    function FreeSpace(): (r: int)
      reads this, ringBuf
      ensures Valid() ==> r == cap - |Contents()|
    {
      ringBuf.Length - written
    }

    /** The position behind the last entry, if there is room. */
    function PutReserve(): (r: Option<Word>)
      reads this, ringBuf
      requires Valid()
      ensures r.Some? <==> |Contents()| < cap
      ensures r.Some? ==> r.value == Slot(cap, readI, |Contents()|)
    {
      if IsFull() then None else Some(writeI)
    }

    /** The position that the first entry follows. */
    function HeadReserveIndex(): (r: Word)
      requires 0 < ringBuf.Length < WORD
      reads this
      ensures readI < cap ==> r < cap && readI == Slot(cap, r, 1)
    {
      if readI > 0 then readI - 1 else ringBuf.Length - 1
    }

    function PutHeadReserve(): (r: Option<Word>)
      reads this, ringBuf
      requires Valid()
      ensures r.Some? <==> |Contents()| < cap
      ensures r.Some? ==> r.value < cap && readI == Slot(cap, r.value, 1)
    {
      if IsFull() then None else Some(HeadReserveIndex())
    }

    /** Puts at the write index without looking whether there is room. */
    method Put(value: T)
      requires Valid()
      modifies this, ringBuf
      ensures ringBuf[..] == old(ringBuf[..])[old(writeI) := value] && readI == old(readI)
      ensures written == old(written) + 1 && writeI == Rem(old(writeI) + 1, cap)
      ensures Valid() <==> old(written) < cap
      ensures old(written) < cap ==> Contents() == old(Contents()) + [value]
    {
      ghost var before := ringBuf[..];
      ringBuf[writeI] := value;
      written := Wrap(written + 1);
      writeI := Rem(Wrap(writeI + 1), ringBuf.Length);
      if old(written) < cap {
        WindowFrame(before, ringBuf[..], readI, old(written));
        WindowAppend(ringBuf[..], readI, old(written));
      }
    }

    /** Makes the entry that was written to the reserved position part of the contents. */
    method FlushPut()
      requires Valid()
      modifies this
      ensures written == old(written) + 1 && writeI == Rem(old(writeI) + 1, cap) && readI == old(readI)
      ensures Valid() <==> old(written) < cap
      ensures old(written) < cap ==> Contents() == old(Contents()) + [ringBuf[old(writeI)]]
    {
      written := Wrap(written + 1);
      writeI := Rem(Wrap(writeI + 1), ringBuf.Length);
      if old(written) < cap {
        WindowAppend(ringBuf[..], readI, old(written));
      }
    }

    method FlushPutHead()
      requires Valid()
      modifies this
      ensures written == old(written) + 1 && writeI == old(writeI) && readI == old(HeadReserveIndex())
      ensures Valid() <==> old(written) < cap
      ensures old(written) < cap ==> Contents() == [ringBuf[old(HeadReserveIndex())]] + old(Contents())
    {
      written := Wrap(written + 1);
      if readI > 0 {
        readI := readI - 1;
      } else {
        readI := ringBuf.Length - 1;
      }
      if old(written) < cap {
        WindowFirst(ringBuf[..], readI, written);
      }
    }

    /** Reserves the position before the first entry, fills it, and flushes it. */
    method PutHead(value: T) returns (ok: bool)
      requires Valid()
      modifies this, ringBuf
      ensures Valid() && ok == (old(written) < cap)
      ensures Contents() == if ok then [value] + old(Contents()) else old(Contents())
      ensures ringBuf[..] == if ok then old(ringBuf[..])[old(HeadReserveIndex()) := value] else old(ringBuf[..])
    {
      var slot := PutHeadReserve();
      ok := slot.Some?;
      if ok {
        ghost var before := ringBuf[..];
        ringBuf[slot.value] := value;
        WindowFrame(before, ringBuf[..], readI, written);
        FlushPutHead();
      }
    }

    /** Overwrites the entry before the write index. */
    method PutReuseLast(value: T)
      requires Valid()
      modifies ringBuf
      ensures Valid()
      ensures Contents() == if written == 0 then [] else old(Contents())[..written - 1] + [value]
      ensures ringBuf[..] == old(ringBuf[..])[Rem(writeI + cap - 1, cap) := value]
    {
      ghost var before := ringBuf[..];
      ringBuf[if writeI != 0 then writeI - 1 else writeI + ringBuf.Length - 1] := value;
      if written > 0 {
        WindowFrame(before, ringBuf[..], readI, written - 1);
        WindowAppend(before, readI, written - 1);
        WindowAppend(ringBuf[..], readI, written - 1);
      }
    }

    /** The position of the first entry, if there is one. */
    function Peek(): (r: Option<Word>)
      reads this, ringBuf
      requires Valid()
      ensures r.None? <==> Contents() == []
      ensures r.Some? ==> r.value < ringBuf.Length && ringBuf[r.value] == Contents()[0]
    {
      if written == 0 then None else Some(readI)
    }

    method FlushGet()
      requires Valid()
      modifies this
      ensures written == Wrap(old(written) - 1) && readI == Rem(old(readI) + 1, cap) && writeI == old(writeI)
      ensures Valid() <==> old(written) > 0
      ensures old(written) > 0 ==> Contents() == old(Contents())[1..]
    {
      written := Wrap(written - 1);
      readI := Rem(Wrap(readI + 1), ringBuf.Length);
      if old(written) > 0 {
        WindowDrop(ringBuf[..], old(readI), old(written), 1);
      }
    }

    /** The position of the i-th entry. */
    function SearchGet(i: Word): (r: Option<Word>)
      reads this, ringBuf
      requires Valid()
      ensures r.None? <==> Contents() == []
      ensures r.Some? ==> r.value < ringBuf.Length
      ensures r.Some? && i < |Contents()| ==> ringBuf[r.value] == Contents()[i]
      ensures r.Some? && i <= cap ==> r.value == Slot(cap, readI, if i < cap then i else 0)
    {
      if written == 0 then None else Some(Rem(Wrap(readI + i), ringBuf.Length))
    }

    /** How many of so many entries fit between the write index and the end of the array. */
    function LinearPortion(size: nat): (r: nat)
      requires Valid()
      reads this
      ensures r <= size && writeI + r <= ringBuf.Length && (r == size || writeI + r == ringBuf.Length)
    {
      if ringBuf.Length - writeI < size then ringBuf.Length - writeI else size
    }

    /** The entries from the offset-th on that can be read at once. */
    function SearchBatch(offset: nat): (b: Batch)
      requires Valid()
      reads this, ringBuf
      ensures offset >= |Contents()| ==> b == Batch(0, writeI)
      ensures offset < |Contents()| && !(offset == 0 && IsFull() && readI != 0) ==>
                && 0 < b.size <= |Contents()| - offset && b.pos + b.size <= ringBuf.Length
                && (offset + b.size == |Contents()| || b.pos + b.size == ringBuf.Length)
                && ringBuf[b.pos..b.pos + b.size] == Contents()[offset..offset + b.size]
      ensures offset == 0 && IsFull() && readI != 0 ==> b == Batch(|Contents()|, readI)
    {
      SearchBatchSlice(ringBuf[..], readI, writeI, written, offset);
      var b := SearchBatchAt(ringBuf.Length, readI, writeI, written, offset);
      assert b.size > 0 && b.pos + b.size <= ringBuf.Length ==>
        ringBuf[b.pos..b.pos + b.size] == ringBuf[..][b.pos..b.pos + b.size];
      b
    }

    /** The front of the contents that can be read at once. */
    function FrontBatch(): (b: Batch)
      requires Valid()
      reads this, ringBuf
      ensures 0 <= b.size <= |Contents()| && b.pos + b.size <= ringBuf.Length
      ensures ringBuf[b.pos..b.pos + b.size] == Contents()[..b.size]
      ensures b.size == 0 <==> Contents() == []
    {
      FrontBatchSlice(ringBuf[..], readI, writeI, written);
      var b := FrontBatchAt(ringBuf.Length, readI, written);
      assert ringBuf[b.pos..b.pos + b.size] == ringBuf[..][b.pos..b.pos + b.size];
      b
    }

    /**
     Flushes without looking whether that many entries are stored. A count that wraps round
     to few entries too many can leave consistent cursors, too, as if entries were put back.
     */
    method FlushGetBatch(size: Word)
      requires Valid()
      modifies this
      ensures written == Wrap(old(written) - size) && readI == Rem(Wrap(old(readI) + size), cap)
      ensures writeI == old(writeI)
      ensures Valid() <==> size <= old(written) || PutsBack(cap, old(readI), old(written), size)
      ensures size <= old(written) ==> Contents() == old(Contents())[size..]
      ensures PutsBack(cap, old(readI), old(written), size) ==> Contents()[WORD - size..] == old(Contents())
    {
      Flushed(ringBuf[..], readI, writeI, written, size);
      written := Wrap(written - size);
      readI := Rem(Wrap(readI + size), ringBuf.Length);
    }

    /** Reads the front batch and flushes it; what then remains lies in one piece. */
    method GetBatch() returns (batch: seq<T>)
      requires Valid()
      modifies this
      ensures Valid() && old(Contents()) == batch + Contents()
      ensures batch == [] <==> old(Contents()) == []
      ensures written == 0 || (readI == 0 && old(readI + written) > cap)
    {
      var b := FrontBatch();
      batch := ringBuf[b.pos..b.pos + b.size];
      ghost var contents := Contents();
      FlushGetBatch(b.size);
      assert contents == contents[..b.size] + contents[b.size..];
    }

    /** Reading batch by batch empties the buffer in at most two rounds and misses nothing. */
    method Drain() returns (batches: seq<seq<T>>)
      requires Valid()
      modifies this
      ensures Valid() && Contents() == []
      ensures |batches| <= 2 && Joined(batches) == old(Contents())
    {
      batches := [];
      while written != 0
        invariant Valid()
        invariant Joined(batches) + Contents() == old(Contents())
        invariant |batches| == 0 || written == 0 || (|batches| == 1 && readI == 0)
        invariant |batches| <= 2
        decreases written
      {
        ghost var contents := Contents();
        var batch := GetBatch();
        JoinedAppend(batches, batch);
        batches := batches + [batch];
        assert |contents| == |batch| + |Contents()|;
      }
    }

    /**
     Reads batches from growing offsets without flushing, and gives up when one would leave
     the array. That happens exactly on a full, rotated buffer; else all the contents are seen
     in at most two batches.
     */
    method Scan() returns (r: Option<seq<seq<T>>>)
      requires Valid()
      ensures r.None? <==> IsFull() && readI != 0
      ensures r.Some? ==> |r.value| <= 2 && Joined(r.value) == Contents()
    {
      var batches: seq<seq<T>> := [];
      var offset: nat := 0;
      ghost var all := Contents();
      while offset < written
        invariant offset <= written && all == Contents() && Joined(batches) == all[..offset]
        invariant IsFull() && readI != 0 ==> offset == 0
        invariant |batches| == 0 ==> offset == 0
        invariant |batches| == 1 ==> offset == written || readI + offset == cap
        invariant |batches| == 2 ==> offset == written
        invariant |batches| <= 2
        decreases written - offset
      {
        var b := SearchBatch(offset);
        assert b.pos + b.size > ringBuf.Length <==> offset == 0 && IsFull() && readI != 0;
        if b.pos + b.size > ringBuf.Length {
          return None;
        }
        assert b.pos == Slot(cap, readI, offset);
        var batch := ringBuf[b.pos..b.pos + b.size];
        JoinedExtends(batches, all, offset, batch);
        batches := batches + [batch];
        offset := offset + b.size;
      }
      r := Some(batches);
    }

    /**
     A get and a put rotate a full buffer by one position, so that the states in which the
     generic lookup overruns the array do occur.
     */
    method RotateFull(value: T)
      requires Valid() && IsFull()
      modifies this, ringBuf
      ensures Valid() && IsFull() && Contents() == old(Contents())[1..] + [value]
      ensures readI == Rem(old(readI) + 1, cap)
      ensures old(readI) == 0 && cap >= 2 ==> SearchBatch(0).pos + SearchBatch(0).size > ringBuf.Length
    {
      FlushGet();
      Put(value);
    }

    /** Reads and flushes n entries, batch by batch. */
    method Take(n: nat) returns (got: seq<T>)
      requires Valid() && n <= written
      modifies this
      ensures Valid() && got == old(Contents())[..n] && Contents() == old(Contents())[n..]
    {
      got := [];
      ghost var all := Contents();
      while |got| < n
        invariant Valid() && |got| <= n && got + Contents() == all
      {
        ghost var before, sofar := Contents(), got;
        var b := FrontBatch();
        var k := if b.size < n - |got| then b.size else n - |got|;
        SlicePrefix(ringBuf[..], b.pos, b.size, before, k);
        var part := ringBuf[b.pos..b.pos + k];
        assert part == ringBuf[..][b.pos..b.pos + k] == before[..k];
        FlushGetBatch(k);
        got := got + part;
        assert got == sofar + before[..k] && Contents() == before[k..];
        Resplit(sofar, before, k);
      }
    }

    /** One operation, guarded the way the reserve and peek operations guard it. */
    method Apply(op: Q.Op<T>) returns (got: seq<T>)
      requires Valid() && HasRoom(cap, Contents(), op) && !op.PutAll?
      modifies this, ringBuf
      ensures Valid() && Contents() == Q.Step(old(Contents()), op)
      ensures got == Q.Out(old(Contents()), op)
      ensures forall i :: 0 <= i < cap ==> ringBuf[i] == old(ringBuf[i]) || [ringBuf[i]] == Q.In(op)
    {
      got := [];
      match op
      case Put(x) => Put(x);
      case PutTail(x) => var _ := PutHead(x);
      case ReuseLast(x) => PutReuseLast(x);
      case Get =>
        var slot := Peek();
        if slot.Some? {
          got := [ringBuf[slot.value]];
          FlushGet();
        }
      case Take(n) => got := Take(n);
    }

    /**
     Any run that respects the capacity is the run of the plain sequence. It loses nothing but
     what it overwrites and, with puts at one end and gets at the other, keeps the order.
     */
    method Perform(ops: seq<Q.Op<T>>) returns (got: seq<T>)
      requires Valid() && RoomFor(cap, Contents(), ops) && (forall k :: 0 <= k < |ops| ==> !ops[k].PutAll?)
      modifies this, ringBuf
      ensures Valid() && Contents() == Q.Remaining(old(Contents()), ops)
      ensures got == Q.Outputs(old(Contents()), ops)
      ensures Q.IsFifo(ops) ==> got + Contents() == old(Contents()) + Q.Inputs(ops)
      ensures multiset(got) + multiset(Q.Losses(old(Contents()), ops)) + multiset(Contents()) ==
              multiset(old(Contents())) + multiset(Q.Inputs(ops))
      decreases |ops|
    {
      Q.RunLaws(Contents(), ops);
      got := [];
      if ops != [] {
        got := Apply(ops[0]);
        var later := Perform(ops[1..]);
        got := got + later;
      }
    }
  }
}
