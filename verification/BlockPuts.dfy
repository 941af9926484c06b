/**
 Batch puts into a ring buffer whose entries are so many bytes wide. The copy counts bytes
 where the cursors count entries, so it stores whole blocks in byte rings alone.
 */
module BlockPuts {
  import opened RingBuffers
  import opened Words
  import opened Sequences
  import Q = QueueModel

  type Byte = x: int | 0 <= x < 256

  type Entry = seq<Byte>

  // ---- Entries and their bytes ----

  ghost predicate Uniform(slots: seq<Entry>, width: nat) {
    forall k :: 0 <= k < |slots| ==> |slots[k]| == width
  }

  /** The n entries of the given width that a block of bytes holds. */
  function Entries(image: seq<Byte>, width: nat, n: nat): (r: seq<Entry>)
    requires |image| == n * width
    ensures |r| == n && Uniform(r, width)
  {
    if n == 0 then []
    else
      assert n * width == width + (n - 1) * width;
      [image[..width]] + Entries(image[width..], width, n - 1)
  }

  lemma {:induction false} JoinedSize(slots: seq<Entry>, width: nat)
    requires Uniform(slots, width)
    ensures |Joined(slots)| == |slots| * width
  {
    if slots == [] {
    } else {
      JoinedSize(slots[1..], width);
      assert |slots| * width == width + |slots[1..]| * width;
    }
  }

  /** Cutting the bytes of entries into entries gives them back. */
  lemma {:induction false} EntriesJoined(slots: seq<Entry>, width: nat)
    requires Uniform(slots, width)
    ensures |Joined(slots)| == |slots| * width && Entries(Joined(slots), width, |slots|) == slots
  {
    JoinedSize(slots, width);
    if slots == [] {
    } else {
      EntriesJoined(slots[1..], width);
      assert Joined(slots)[..width] == slots[0] && Joined(slots)[width..] == Joined(slots[1..]);
    }
  }

  /** Joining the entries cut from a block of bytes gives the bytes back. */
  lemma {:induction false} JoinedEntries(image: seq<Byte>, width: nat, n: nat)
    requires |image| == n * width
    ensures Joined(Entries(image, width, n)) == image
  {
    if n == 0 {
    } else {
      assert n * width == width + (n - 1) * width;
      JoinedEntries(image[width..], width, n - 1);
      assert image[..width] + image[width..] == image;
    }
  }

  /** Entries of one width are told apart by their bytes. */
  lemma SameBytes(a: seq<Entry>, b: seq<Entry>, width: nat)
    requires Uniform(a, width) && Uniform(b, width) && |a| == |b|
    ensures a == b <==> Joined(a) == Joined(b)
  {
    EntriesJoined(a, width);
    EntriesJoined(b, width);
  }

  lemma {:induction false} JoinedSum(a: seq<Entry>, b: seq<Entry>)
    ensures Joined(a + b) == Joined(a) + Joined(b)
  {
    if a == [] {
      assert a + b == b;
    } else {
      JoinedSum(a[1..], b);
      HeadOfSum(a, b);
      JoinSlices(a[0], Joined(a[1..] + b), Joined(a[1..]), Joined(b));
    }
  }

  /** The bytes of some slots are a slice of the bytes of all. */
  lemma JoinedSlice(slots: seq<Entry>, width: nat, pos: nat, n: nat)
    requires Uniform(slots, width) && pos + n <= |slots|
    ensures |Joined(slots[..pos])| == pos * width && |Joined(slots[pos..pos + n])| == n * width
    ensures Joined(slots) == Joined(slots[..pos]) + Joined(slots[pos..pos + n]) + Joined(slots[pos + n..])
  {
    JoinedSize(slots[..pos], width);
    JoinedSize(slots[pos..pos + n], width);
    JoinedSum(slots[..pos], slots[pos..pos + n]);
    JoinedSum(slots[..pos + n], slots[pos + n..]);
    assert slots[..pos] + slots[pos..pos + n] == slots[..pos + n];
    assert slots[..pos + n] + slots[pos + n..] == slots;
  }

  function Filled(width: nat, b: Byte): Entry {
    seq(width, _ => b)
  }

  /** Every byte of entries that are filled alike. */
  lemma {:induction false} JoinedAlike(slots: seq<Entry>, width: nat, b: Byte)
    requires forall k :: 0 <= k < |slots| ==> slots[k] == Filled(width, b)
    ensures forall i :: 0 <= i < |Joined(slots)| ==> Joined(slots)[i] == b
  {
    if slots == [] {
    } else {
      JoinedAlike(slots[1..], width, b);
    }
  }

  // ---- The copy ----

  /** A memory after count bytes of data were copied to position at. */
  function Overlay(image: seq<Byte>, at: nat, data: seq<Byte>, count: nat): (r: seq<Byte>)
    requires at + count <= |image| && count <= |data|
    ensures |r| == |image|
  {
    image[..at] + data[..count] + image[at + count..]
  }

  lemma EachAtLeastOne(n: nat, width: nat)
    requires width > 0
    ensures n * width >= n && (n > 0 && width > 1 ==> n * width > n)
  {
  }

  /** A batch from some slot on is no longer, counted in bytes, than the slots. */
  lemma BatchInBounds(cap: nat, width: nat, pos: nat, n: nat)
    requires width > 0 && pos + n <= cap
    ensures pos * width + n <= pos * width + n * width <= cap * width
  {
    EachAtLeastOne(n, width);
    assert (cap - pos - n) * width >= 0;
    assert pos * width + n * width + (cap - pos - n) * width == cap * width;
  }

  /** Copies n bytes of data to byte position at of the slots. */
  method CopyBytes(slots: array<Entry>, width: nat, at: nat, data: seq<Byte>, n: nat)
    requires Uniform(slots[..], width) && at + n <= |Joined(slots[..])| && n <= |data|
    modifies slots
    ensures Uniform(slots[..], width)
    ensures Joined(slots[..]) == Overlay(old(Joined(slots[..])), at, data, n)
  {
    JoinedSize(slots[..], width);
    var image := Overlay(Joined(slots[..]), at, data, n);
    var after := Entries(image, width, slots.Length);
    JoinedEntries(image, width, slots.Length);
    forall i | 0 <= i < slots.Length {
      slots[i] := after[i];
    }
    assert slots[..] == after;
  }

  /** The slots after n bytes of data were copied to the bytes of the slots from position pos on. */
  ghost function CopiedInto(slots: seq<Entry>, width: nat, pos: nat, data: seq<Byte>, n: nat): (r: seq<Entry>)
    requires Uniform(slots, width) && width > 0 && pos + n <= |slots| && n <= |data|
    ensures |r| == |slots| && Uniform(r, width)
  {
    JoinedSize(slots, width);
    BatchInBounds(|slots|, width, pos, n);
    Entries(Overlay(Joined(slots), pos * width, data, n), width, |slots|)
  }

  /** The copy is the one on bytes. */
  lemma CopiedBytes(slots: seq<Entry>, width: nat, pos: nat, data: seq<Byte>, n: nat)
    requires Uniform(slots, width) && width > 0 && pos + n <= |slots| && n <= |data|
    ensures pos * width + n <= |Joined(slots)|
    ensures Joined(CopiedInto(slots, width, pos, data, n)) == Overlay(Joined(slots), pos * width, data, n)
  {
    JoinedSize(slots, width);
    BatchInBounds(|slots|, width, pos, n);
    JoinedEntries(Overlay(Joined(slots), pos * width, data, n), width, |slots|);
  }

  lemma SameSum(a: seq<Byte>, b: seq<Byte>, c: seq<Byte>, a': seq<Byte>, b': seq<Byte>, c': seq<Byte>)
    requires a + b + c == a' + b' + c' && |a| == |a'| && |b| == |b'|
    ensures a == a' && b == b' && c == c'
  {
    var s := a + b + c;
    assert a == s[..|a|] && b == s[|a|..|a| + |b|] && c == s[|a| + |b|..];
    assert a' == s[..|a|] && b' == s[|a|..|a| + |b|] && c' == s[|a| + |b|..];
  }

  lemma OverlayMiddle(a: seq<Byte>, b: seq<Byte>, c: seq<Byte>, data: seq<Byte>, n: nat,
                      a': seq<Byte>, b': seq<Byte>, c': seq<Byte>)
    requires n <= |data| && n <= |b| && |a| == |a'| && |b| == |b'|
    requires a' + b' + c' == Overlay(a + b + c, |a|, data, n)
    ensures a' == a && b' == data[..n] + b[n..] && c' == c
  {
    assert Overlay(a + b + c, |a|, data, n) == a + (data[..n] + b[n..]) + c;
    SameSum(a', b', c', a, data[..n] + b[n..], c);
  }

  /** Of n slots from the position on the first n bytes are replaced, and nothing else. */
  lemma CopiedParts(slots: seq<Entry>, width: nat, pos: nat, data: seq<Byte>, n: nat)
    requires Uniform(slots, width) && width > 0 && pos + n <= |slots| && n <= |data|
    ensures var r := CopiedInto(slots, width, pos, data, n);
      && r[..pos] == slots[..pos] && r[pos + n..] == slots[pos + n..]
      && n <= |Joined(slots[pos..pos + n])|
      && Joined(r[pos..pos + n]) == data[..n] + Joined(slots[pos..pos + n])[n..]
  {
    var r := CopiedInto(slots, width, pos, data, n);
    CopiedBytes(slots, width, pos, data, n);
    JoinedSlice(slots, width, pos, n);
    JoinedSlice(r, width, pos, n);
    EachAtLeastOne(n, width);
    OverlayMiddle(Joined(slots[..pos]), Joined(slots[pos..pos + n]), Joined(slots[pos + n..]), data, n,
                  Joined(r[..pos]), Joined(r[pos..pos + n]), Joined(r[pos + n..]));
    SameBytes(r[..pos], slots[..pos], width);
    SameBytes(r[pos + n..], slots[pos + n..], width);
  }

  /** Copying as many bytes as the block has entries stores the block. */
  ghost predicate StoresBlock(slots: seq<Entry>, width: nat, pos: nat, block: seq<Entry>)
    requires Uniform(slots, width) && Uniform(block, width) && width > 0 && pos + |block| <= |slots|
  {
    JoinedSize(block, width);
    EachAtLeastOne(|block|, width);
    CopiedInto(slots, width, pos, Joined(block), |block|)[pos..pos + |block|] == block
  }

  /** That is so exactly if the slots agree with the block in all bytes from the n-th one on, for n entries. */
  lemma CopyStores(slots: seq<Entry>, width: nat, pos: nat, block: seq<Entry>)
    requires Uniform(slots, width) && Uniform(block, width) && width > 0 && pos + |block| <= |slots|
    ensures var n := |block|;
      && n <= |Joined(block)| && n <= |Joined(slots[pos..pos + n])|
      && (StoresBlock(slots, width, pos, block) <==> Joined(block)[n..] == Joined(slots[pos..pos + n])[n..])
  {
    var n := |block|;
    JoinedSize(block, width);
    EachAtLeastOne(n, width);
    CopiedParts(slots, width, pos, Joined(block), n);
    SameBytes(CopiedInto(slots, width, pos, Joined(block), n)[pos..pos + n], block, width);
    assert Joined(block) == Joined(block)[..n] + Joined(block)[n..];
  }

  lemma BytesStored(slots: seq<Entry>, width: nat, pos: nat, block: seq<Entry>)
    requires Uniform(slots, width) && Uniform(block, width) && pos + |block| <= |slots|
    requires width == 1 || (width > 0 && block == [])
    ensures StoresBlock(slots, width, pos, block)
  {
    CopyStores(slots, width, pos, block);
    JoinedSize(block, width);
    JoinedSize(slots[pos..pos + |block|], width);
  }

  lemma WideNotStored(slots: seq<Entry>, width: nat, pos: nat, block: seq<Entry>)
    requires width > 1 && block != [] && pos + |block| <= |slots|
    requires Uniform(slots, width) && (forall k :: 0 <= k < |slots| ==> slots[k] == Filled(width, 0))
    requires Uniform(block, width) && (forall k :: 0 <= k < |block| ==> block[k] == Filled(width, 1))
    ensures !StoresBlock(slots, width, pos, block)
  {
    var n, part := |block|, slots[pos..pos + |block|];
    CopyStores(slots, width, pos, block);
    JoinedSize(block, width);
    JoinedSize(part, width);
    EachAtLeastOne(n, width);
    JoinedAlike(part, width, 0);
    JoinedAlike(block, width, 1);
    assert Joined(block)[n..][0] == 1 && Joined(part)[n..][0] == 0;
  }

  lemma OverlayPrefix(image: seq<Byte>, at: nat, data: seq<Byte>, more: seq<Byte>, n: nat)
    requires at + n <= |image| && n <= |data|
    ensures Overlay(image, at, data + more, n) == Overlay(image, at, data, n)
  {
    assert (data + more)[..n] == data[..n];
  }

  lemma CopiedPrefix(slots: seq<Entry>, width: nat, pos: nat, data: seq<Byte>, more: seq<Byte>, n: nat)
    requires Uniform(slots, width) && width > 0 && pos + n <= |slots| && n <= |data|
    ensures CopiedInto(slots, width, pos, data + more, n) == CopiedInto(slots, width, pos, data, n)
  {
    JoinedSize(slots, width);
    BatchInBounds(|slots|, width, pos, n);
    OverlayPrefix(Joined(slots), pos * width, data, more, n);
  }

  /** The bytes of a block go on after those of its first n entries, which are no fewer than n. */
  lemma JoinedPrefix(block: seq<Entry>, width: nat, n: nat)
    requires Uniform(block, width) && width > 0 && n <= |block|
    ensures Joined(block) == Joined(block[..n]) + Joined(block[n..]) && n <= |Joined(block[..n])|
  {
    EachAtLeastOne(n, width);
    JoinedSize(block[..n], width);
    JoinedSum(block[..n], block[n..]);
    assert block == block[..n] + block[n..];
  }

  /**
   The copy stores all blocks of n entries, whatever the slots hold, exactly if the entries are
   bytes or there are none.
   */
  lemma CopyExact(cap: nat, width: nat, pos: nat, n: nat)
    requires width > 0 && pos + n <= cap
    ensures (forall slots: seq<Entry>, block: seq<Entry> {:trigger StoresBlock(slots, width, pos, block)} ::
               Uniform(slots, width) && Uniform(block, width) && |slots| == cap && |block| == n ==>
                 StoresBlock(slots, width, pos, block))
      <==> width == 1 || n == 0
  {
    if width == 1 || n == 0 {
      forall slots: seq<Entry>, block: seq<Entry> {:trigger StoresBlock(slots, width, pos, block)} |
        Uniform(slots, width) && Uniform(block, width) && |slots| == cap && |block| == n
        ensures StoresBlock(slots, width, pos, block)
      {
        BytesStored(slots, width, pos, block);
      }
    } else {
      WideNotStored(seq(cap, _ => Filled(width, 0)), width, pos, seq(n, _ => Filled(width, 1)));
    }
  }

  /** In a byte ring the copy stores any block. */
  lemma ByteCopy(slots: seq<Entry>, pos: nat, block: seq<Entry>)
    requires Uniform(slots, 1) && Uniform(block, 1) && pos + |block| <= |slots|
    ensures |Joined(block)| == |block|
    ensures CopiedInto(slots, 1, pos, Joined(block), |block|) == slots[..pos] + block + slots[pos + |block|..]
  {
    var n := |block|;
    JoinedSize(block, 1);
    JoinedSize(slots[pos..pos + n], 1);
    CopyStores(slots, 1, pos, block);
    CopiedParts(slots, 1, pos, Joined(block), n);
    var r := CopiedInto(slots, 1, pos, Joined(block), n);
    assert r == r[..pos] + r[pos..pos + n] + r[pos + n..];
  }

  /** Two slots of two bytes, one entry of bytes 1 and 2: the second byte is not stored. */
  lemma WideEntryCutShort()
    ensures CopiedInto([[0, 0], [0, 0]], 2, 0, [1, 2], 1) == [[1, 0], [0, 0]]
  {
    var slots: seq<Entry> := [[0, 0], [0, 0]];
    var expected: seq<Entry> := [[1, 0], [0, 0]];
    assert slots[1..] == [[0, 0]] && expected[1..] == [[0, 0]];
    assert Joined(slots) == [0, 0, 0, 0] && Joined(expected) == [1, 0, 0, 0];
    CopiedBytes(slots, 2, 0, [1, 2], 1);
    SameBytes(CopiedInto(slots, 2, 0, [1, 2], 1), expected, 2);
  }

  // ---- The put ----

  /** What agrees with some slots before and behind m of them has those m in between. */
  lemma Pasted(before: seq<Entry>, after: seq<Entry>, pos: nat, m: nat)
    requires |before| == |after| && pos + m <= |before|
    requires after[..pos] == before[..pos] && after[pos + m..] == before[pos + m..]
    ensures forall i :: 0 <= i < |before| ==>
              after[i] == if pos <= i < pos + m then after[pos..pos + m][i - pos] else before[i]
  {
    assert forall i :: 0 <= i < pos ==> after[i] == after[..pos][i];
    assert forall i {:trigger before[i]} :: pos + m <= i < |before| ==> after[i] == after[pos + m..][i - (pos + m)];
  }

  lemma Cancel(front: seq<Entry>, a: seq<Entry>, b: seq<Entry>)
    ensures front + a == front + b <==> a == b
  {
    assert a == (front + a)[|front|..] && b == (front + b)[|front|..];
  }

  /** What follows the window after so many bytes of a block were copied behind it. */
  lemma WindowCopy(before: seq<Entry>, width: nat, readI: nat, writeI: nat, written: nat, block: seq<Entry>, m: nat)
    requires Consistent(|before|, readI, writeI, written)
    requires Uniform(before, width) && Uniform(block, width) && width > 0
    requires m <= |block| && m <= |Joined(block)| && written + m <= |before| && writeI + m <= |before|
    ensures var after := CopiedInto(before, width, writeI, Joined(block), m);
      Window(after, readI, written + m) == Window(before, readI, written) + after[writeI..writeI + m]
  {
    var after := CopiedInto(before, width, writeI, Joined(block), m);
    CopiedParts(before, width, writeI, Joined(block), m);
    Pasted(before, after, writeI, m);
    WindowBlock(before, after, readI, written, writeI, after[writeI..writeI + m], m);
  }

  lemma CopyFits(slots: seq<Entry>, width: nat, pos: nat, block: seq<Entry>, n: nat)
    requires Uniform(slots, width) && Uniform(block, width) && width > 0
    requires n <= |block| && pos + n <= |slots|
    ensures pos * width + n <= |Joined(slots)| && n <= |Joined(block)|
  {
    JoinedSize(slots, width);
    JoinedSize(block, width);
    BatchInBounds(|slots|, width, pos, n);
    EachAtLeastOne(|block|, width);
  }

  /** What slots that hold the copied bytes are, and when they store the block behind the window. */
  lemma BatchCopied(before: seq<Entry>, after: seq<Entry>, width: nat, readI: nat, writeI: nat, written: nat,
                    block: seq<Entry>, m: nat)
    requires |before| == |after| && Consistent(|before|, readI, writeI, written)
    requires Uniform(before, width) && Uniform(after, width) && Uniform(block, width) && width > 0
    requires m <= |block| && m <= |Joined(block)| && writeI + m <= |before|
    requires writeI * width + m <= |Joined(before)|
    requires Joined(after) == Overlay(Joined(before), writeI * width, Joined(block), m)
    ensures after == CopiedInto(before, width, writeI, Joined(block), m)
    ensures width == 1 ==> StoresBlock(before, width, writeI, block[..m])
    ensures written + m <= |before| ==>
              (Window(after, readI, written + m) == Window(before, readI, written) + block[..m] <==>
               StoresBlock(before, width, writeI, block[..m]))
  {
    CopiedBytes(before, width, writeI, Joined(block), m);
    SameBytes(after, CopiedInto(before, width, writeI, Joined(block), m), width);
    JoinedPrefix(block, width, m);
    CopiedPrefix(before, width, writeI, Joined(block[..m]), Joined(block[m..]), m);
    if width == 1 {
      BytesStored(before, width, writeI, block[..m]);
    }
    if written + m <= |before| {
      WindowCopy(before, width, readI, writeI, written, block, m);
      Cancel(Window(before, readI, written), after[writeI..writeI + m], block[..m]);
    }
  }

  /** Counts m entries that were stored from the write index on. */
  method Advance(rb: RingBuffer<Entry>, m: nat)
    requires rb.Valid() && rb.writeI + m <= rb.cap
    modifies rb`written, rb`writeI
    ensures rb.written == old(rb.written) + m && rb.writeI == Rem(old(rb.writeI) + m, rb.cap)
    ensures rb.Valid() <==> old(rb.written) + m <= rb.cap
  {
    CursorsAfterPut(rb.cap, rb.readI, rb.writeI, rb.written, m);
    rb.written := Wrap(rb.written + m);
    rb.writeI := Rem(Wrap(rb.writeI + m), rb.ringBuf.Length);
  }

  /** Puts the part of a block that fits before the end; the cursors move by entries, the copy by bytes. */
  method BatchPut(rb: RingBuffer<Entry>, width: nat, block: seq<Entry>) returns (entriesWritten: nat)
    requires rb.Valid() && width > 0 && Uniform(rb.ringBuf[..], width)
    requires Uniform(block, width) && |block| < WORD
    modifies rb, rb.ringBuf
    ensures Uniform(rb.ringBuf[..], width)
    ensures entriesWritten == old(rb.LinearPortion(|block|)) && entriesWritten <= |Joined(block)|
    ensures rb.readI == old(rb.readI) && rb.written == old(rb.written) + entriesWritten
    ensures rb.writeI == Rem(old(rb.writeI) + entriesWritten, rb.cap)
    ensures rb.ringBuf[..] ==
            CopiedInto(old(rb.ringBuf[..]), width, old(rb.writeI), Joined(block), entriesWritten)
    ensures rb.Valid() <==> old(rb.written) + entriesWritten <= rb.cap
    ensures rb.Valid() ==>
              (rb.Contents() == old(rb.Contents()) + block[..entriesWritten] <==>
               StoresBlock(old(rb.ringBuf[..]), width, old(rb.writeI), block[..entriesWritten]))
    ensures rb.Valid() && width == 1 ==> rb.Contents() == old(rb.Contents()) + block[..entriesWritten]
  {
    ghost var before, r, w, n := rb.ringBuf[..], rb.readI, rb.writeI, rb.written;
    entriesWritten := rb.LinearPortion(|block|);
    CopyFits(before, width, w, block, entriesWritten);
    CopyBytes(rb.ringBuf, width, rb.writeI * width, Joined(block), entriesWritten);
    BatchCopied(before, rb.ringBuf[..], width, r, w, n, block, entriesWritten);
    Advance(rb, entriesWritten);
  }

  lemma TwoPuts(contents: seq<Entry>, block: seq<Entry>, first: nat)
    requires first <= |block|
    ensures contents + block[..first] + block[first..][..|block| - first] == contents + block
  {
  }

  /** Into a byte ring, two puts, the second with what the first one left, append any block there is room for. */
  method PutBlock(rb: RingBuffer<Entry>, block: seq<Entry>)
    requires rb.Valid() && Uniform(rb.ringBuf[..], 1) && Uniform(block, 1) && |block| <= rb.FreeSpace()
    modifies rb, rb.ringBuf
    ensures rb.Valid() && Uniform(rb.ringBuf[..], 1)
    ensures rb.Contents() == old(rb.Contents()) + block
  {
    var first := BatchPut(rb, 1, block);
    var second := BatchPut(rb, 1, block[first..]);
    assert first + second == |block|;
    TwoPuts(old(rb.Contents()), block, first);
  }

  // ---- Runs of byte rings, with blocks ----

  method Apply(rb: RingBuffer<Entry>, op: Q.Op<Entry>) returns (got: seq<Entry>)
    requires rb.Valid() && Uniform(rb.ringBuf[..], 1) && Uniform(Q.In(op), 1)
    requires HasRoom(rb.cap, rb.Contents(), op)
    modifies rb, rb.ringBuf
    ensures rb.Valid() && Uniform(rb.ringBuf[..], 1)
    ensures rb.Contents() == Q.Step(old(rb.Contents()), op) && got == Q.Out(old(rb.Contents()), op)
  {
    if op.PutAll? {
      PutBlock(rb, op.xs);
      got := [];
    } else {
      got := rb.Apply(op);
      forall i | 0 <= i < rb.cap ensures |rb.ringBuf[i]| == 1 {
        assert [rb.ringBuf[i]] == Q.In(op) ==> Q.In(op)[0] == rb.ringBuf[i];
        assert old(rb.ringBuf[..])[i] == old(rb.ringBuf[i]);
      }
    }
  }

  /** Any run on a byte ring, blocks included, is the run of the plain sequence and obeys its laws. */
  method Perform(rb: RingBuffer<Entry>, ops: seq<Q.Op<Entry>>) returns (got: seq<Entry>)
    requires rb.Valid() && Uniform(rb.ringBuf[..], 1) && (forall k :: 0 <= k < |ops| ==> Uniform(Q.In(ops[k]), 1))
    requires RoomFor(rb.cap, rb.Contents(), ops)
    modifies rb, rb.ringBuf
    ensures rb.Valid() && Uniform(rb.ringBuf[..], 1)
    ensures rb.Contents() == Q.Remaining(old(rb.Contents()), ops) && got == Q.Outputs(old(rb.Contents()), ops)
    ensures Q.IsFifo(ops) ==> got + rb.Contents() == old(rb.Contents()) + Q.Inputs(ops)
    ensures multiset(got) + multiset(Q.Losses(old(rb.Contents()), ops)) + multiset(rb.Contents()) ==
            multiset(old(rb.Contents())) + multiset(Q.Inputs(ops))
    decreases |ops|
  {
    Q.RunLaws(rb.Contents(), ops);
    got := [];
    if ops != [] {
      got := Apply(rb, ops[0]);
      var later := Perform(rb, ops[1..]);
      got := got + later;
    }
  }
}
