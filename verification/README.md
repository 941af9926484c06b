# Verified model of the ZBOSS core data structures

The stack ships as binary libraries, but its headers contain real algorithms as macros, and one
platform file contains a small state machine. This Dafny project models them as they are written
and proves what they keep over single calls and over whole sequences of calls.

- `Sequences.dfy`: deletion, insertion behind an element and reversal on sequences, with their laws.
- `PooledLists.dfy`: doubly linked lists of one-byte indices into an array of entries. Each macro is a
  method on the array and the list variable, proved against the sequence it represents.
- `PoolModel.dfy`, `PoolRuns.dfy`: several lists sharing one pool. The methods refine the steps of an
  abstract state, whatever its entries are; the laws of whole runs are proved of those steps.
- `LinkedLists.dfy`, `NodeRuns.dfy`: the same lists with nodes that carry their own links, one list at a time
  and several over the same nodes, which refine the steps of `PoolModel.dfy`, too.
- `SinglyLinked.dfy`, `QueueModel.dfy`: singly linked lists, the queue and stack built on them, and the
  laws of all interleavings of queue operations.
- `PooledQueues.dfy`: singly linked lists in a pool. The abstract state keeps the tail beside the
  sequence, because insertion at the head can set it wrongly.
- `RingBuffers.dfy`: the ring buffer and its batch reads. Its runs refine the same queue model.
- `BlockPuts.dfy`: batch puts, on entries that are so many bytes wide, and runs of byte rings with blocks.
- `Times.dfy`: wrapping 32-bit time and the conversion between milliseconds and beacon intervals.
- `BitVectors.dfy`: bit vectors in an array of bytes.
- `Words48.dfy`, `SignExtension.dfy`: split 48-bit counters, 24-bit addition and comparison; sign extension
  on words.
- `LowPower.dfy`: the low-power switch in front of the counted lock.
- `Words.dfy`, `Indices.dfy`, `Options.dfy`: unsigned 32-bit words, one-byte indices, optional values.

## Where the code does not do what it is meant to do

Each of these is modelled as written, with the exact condition under which the code is right.

- Inserting at the head of a pooled singly linked list compares the head plus one with 255. It sets
  the tail when the head is 254 and leaves it null when the list is empty (`PooledQueues.StepExact`,
  `PooledQueues.PrependThenAppend`).
- The backward loop over a pooled list asks whether the head index is nonzero, not whether it is
  null (`PooledLists.IterateBack`).
- The generic batch lookup compares the position with the write index by `<=`. At the front of a full
  buffer that does not start at position 0 it returns more entries than lie before the end of the array
  (`RingBuffers.SearchBatchExact`). Its comment describes the same comparison.
- The batch put into a ring buffer copies as many bytes as it counts entries. It stores whole blocks exactly
  in byte rings; of wider entries only the first bytes of the block arrive (`BlockPuts.CopyStores`,
  `BlockPuts.CopyExact`, `BlockPuts.WideEntryCutShort`). The macro takes a ring of any entries.
- Flushing a batch does not look whether it is stored. For most sizes that leaves inconsistent cursors, but a
  count that wraps round to a few entries too many is taken for entries put back (`RingBuffers.FlushExact`,
  `RingBuffers.FlushPutsBack`).
- Assigning a bit shifts the whole value into the byte, so a value other than 0 and 1 can set other bits
  (`BitVectors.AssignCleanExactly`, `BitVectors.AssignTwo`).
- Adding a negative 24-bit value to a 48-bit counter subtracts its low word plus its unshifted high byte.
  The result is wrong for every counter and every negative value (`Words48.SumExact`). A remark in the source says that
  case is open.
- An "on" while low power is disabled marks low power as on without giving the lock back. A
  configuration directly behind it takes the lock again, and nothing returns it
  (`LowPower.BalancedExactly`, `LowPower.LeaksStay`).
- Ticks beyond 279620 overflow the conversion to milliseconds (`Times.ToMsecExact`, `Times.TickRoundTrip`).

The comments on time say that values may differ by up to half the range; the code asks for at most
2^31 - 2 (`Times.WindowExact`). The comment on the microsecond conversion excludes UINT32_MAX - 15359;
the code is right there, too (`Times.UsecCeilExact`).

## How the source is read

- A macro that assigns to its list argument is a method that returns the new list variable, or a method
  of a class that holds it. The ghost sequence argument names what memory represents before the call;
  `PooledLists.ThreadsUnique` shows that memory determines it.
- An inserted entry must not be in a list already. The debug build of the original asserts the same
  (include/zb_list_macros.h:98-107).
- Removing an entry asks that it is in the list it is removed from, or marked as unlinked.
- Addresses returned by the ring buffer are positions in its array. Index arithmetic is unsigned and 32
  bits wide; capacities are below 2^31, the largest object a 32-bit address space allows.
- The external lock is a counter of gets minus puts.

## Model

| member | source | states |
|---|---|---|
| `PooledLists.InsertHead` | include/zb_pooled_list.h:105-119 | the list becomes the new entry followed by the old list, for every length, and no entry but those of the list and the new one is written |
| `PooledLists.InsertTail` | include/zb_pooled_list.h:126-141 | the list becomes the old list followed by the new entry, also when head and tail coincide; nothing outside is written |
| `PooledLists.GetTail` | include/zb_pooled_list.h:73 | the head's `prev` is the last entry; an empty list has no tail |
| `PooledLists.InsertAfter` | include/zb_pooled_list.h:148-165 | the new entry comes directly behind the given one wherever that sits; a null position changes nothing at all |
| `PooledLists.CutHead` | include/zb_pooled_list.h:85-98 | the first entry is handed out, the list is the rest, the entry is marked as unlinked and keeps its stale `next` |
| `PooledLists.RemoveHead` | include/zb_pooled_list.h:172-183 | the same without handing out the entry |
| `PooledLists.RemoveTail` | include/zb_pooled_list.h:189-214 | the list loses exactly its last entry for every length, including two, where the new tail is the head; the removed entry is unlinked and its `next` holds the new tail (null for length one) |
| `PooledLists.Remove` | include/zb_pooled_list.h:233-258 | exactly the given entry leaves the list wherever it sits and is marked as unlinked; an unlinked entry leaves all memory as it was |
| `PooledLists.RemoveThenInsertAfter` | include/zb_pooled_list.h:148-258 | taking an entry out and inserting it behind its old predecessor restores the list variable and the whole memory |
| `PooledLists.Iterate` | include/zb_pooled_list.h:216-217 | the forward loop visits the entries of the list in order and ends |
| `PooledLists.IterateBack` | include/zb_pooled_list.h:220-224 | the backward loop visits the reverse of the list if and only if the list is not empty and its head is not entry 0; on an empty list it reads behind the pool, on head 0 it visits nothing |
| `PooledLists.ThreadsUnique` | include/zb_pooled_list.h:49-73 | the links in memory represent at most one sequence of entries, so every claim about "the list" is a claim about memory |
| `PooledLists.LinkedIsMarked` | include/zb_pooled_list.h:237-255 | an entry of a list never has a null `prev`, which is what the guard of the removal relies on |
| `PooledLists.ThreadsFrame` | include/zb_pooled_list.h:85-258 | writes to entries of one list leave every list with other entries intact |
| `PoolModel.StepSound` | include/zb_pooled_list.h:85-258 | each operation keeps the lists free of shared and repeated entries, keeps linked and unlinked entries apart, and leaves no entry unaccounted for |
| `PoolModel.StepConserves` | include/zb_pooled_list.h:85-258 | each operation keeps the number of linked entries plus the number of unlinked entries constant |
| `PoolModel.RunConserves` | include/zb_pooled_list.h:85-258 | disjointness, the partition of the pool and the entry count hold after every sequence of operations on any number of lists, of entries of any kind |
| `PoolModel.RunFrames` | include/zb_pooled_list.h:85-258 | a sequence of operations leaves each list it does not name exactly as it was |
| `PoolModel.RunFillsPool` | include/zb_pooled_list.h:59-64 | from a pool of empty lists, every sequence of operations keeps the pool exactly filled by linked and unlinked entries |
| `PoolModel.RemoveThenInsertAfter` | include/zb_pooled_list.h:148-258 | removing an entry that has a predecessor and inserting it behind that predecessor restores all lists and marks |
| `PoolModel.InsertThenRemove` | include/zb_pooled_list.h:105-258 | an entry inserted at either end or behind another one is removed again without a trace |
| `PoolModel.HeadThenHead` | include/zb_pooled_list.h:85-183 | removing or cutting the head right after an insertion at the head restores all lists and marks, and the cut hands out the inserted entry |
| `PoolModel.TailThenTail` | include/zb_pooled_list.h:126-214 | removing the tail right after an insertion at the tail restores all lists and marks |
| `PoolModel.TailIsBehindLast` | include/zb_pooled_list.h:105-165 | inserting at the tail is inserting behind the last entry, and at the head if the list is empty |
| `PoolModel.BehindHead` | include/zb_pooled_list.h:105-165 | inserting f behind a new head e is inserting f and then e at the head |
| `PoolModel.RemoveEnds` | include/zb_pooled_list.h:85-258 | removing the first entry by its name is removing or cutting the head, removing the last one by its name is removing the tail |
| `PoolModel.NoEffect` | include/zb_pooled_list.h:85-258 | on an empty list the removals at its ends, with a null position the insertion, and for an unlinked entry the removal are allowed and do nothing |
| `PoolModel.AllowedExactly` | include/zb_pooled_list.h:105-258 | what is asked of the callers is exactly what keeps the lists without shared and repeated entries and every entry accounted for |
| `PoolModel.RunJoin` | include/zb_pooled_list.h:85-258 | sequences of operations compose: the whole is allowed exactly if its parts are, and leads where they lead one after the other |
| `PoolModel.CutsJoin` | include/zb_pooled_list.h:85-98 | the entries a sequence of operations hands out are those its parts hand out one after the other |
| `PoolModel.SoundExactly` | include/zb_pooled_list.h:49-73 | when every entry is linked or unlinked, no entry is shared, repeated or both if and only if the two counts add up to the size of the pool |
| `PoolRuns.Pool.constructor` | include/zb_pooled_list.h:59 | a pool of empty lists whose entries all count as unlinked |
| `PoolRuns.Pool.InsertHead` | include/zb_pooled_list.h:105-119 | with many lists over one pool, the list becomes the new entry and the old list; all other lists are as before, and the marks change by that entry alone (one abstract step) |
| `PoolRuns.Pool.InsertTail` | include/zb_pooled_list.h:126-141 | with many lists over one pool, the list becomes the old list and the new entry; all other lists are as before, and the marks change by that entry alone (one abstract step) |
| `PoolRuns.Pool.InsertAfter` | include/zb_pooled_list.h:148-165 | with many lists over one pool, the entry comes directly behind the given one, and nothing changes for null; all other lists are as before, and the marks change by that entry alone (one abstract step) |
| `PoolRuns.Pool.CutHead` | include/zb_pooled_list.h:85-98 | with many lists over one pool, the list loses its first entry, which is handed out; all other lists are as before, and the marks change by that entry alone (one abstract step) |
| `PoolRuns.Pool.RemoveHead` | include/zb_pooled_list.h:172-183 | with many lists over one pool, the list loses its first entry; all other lists are as before, and the marks change by that entry alone (one abstract step) |
| `PoolRuns.Pool.RemoveTail` | include/zb_pooled_list.h:189-214 | with many lists over one pool, the list loses its last entry; all other lists are as before, and the marks change by that entry alone (one abstract step) |
| `PoolRuns.Pool.Remove` | include/zb_pooled_list.h:233-258 | with many lists over one pool, the list loses that entry, and nothing changes for an unlinked one; all other lists are as before, and the marks change by that entry alone (one abstract step) |
| `PoolRuns.Pool.Apply` | include/zb_pooled_list.h:85-258 | whichever operation is called, memory moves by one abstract step |
| `PoolRuns.Pool.ValidIsSound` | include/zb_pooled_list.h:85-258 | whatever the lists of a pool represent, no entry is in two of them, twice in one, or linked and marked as free |
| `PoolRuns.Pool.Perform` | include/zb_pooled_list.h:85-258 | any sequence of operations takes memory where the abstract sequence of steps goes and hands out the same entries; in memory, lists it does not name are as before, entries stay disjoint and accounted for, and their number is conserved |
| `PoolRuns.RunFresh` | include/zb_pooled_list.h:59-258 | whatever is done to a fresh pool, its entries stay partitioned into the lists and the unlinked ones, and the counts add to the size of the pool |
| `PoolRuns.ClearedAfterInsert` | include/zb_pooled_list.h:105-165 | linking an entry changes the set of entries with a null `prev` by that entry alone |
| `PoolRuns.ClearedAfterRemove` | include/zb_pooled_list.h:172-258 | unlinking an entry adds that entry alone to the set of entries with a null `prev` |
| `LinkedLists.InsertHead` | include/zb_list_macros.h:165-179 | prepends the node, for every length |
| `LinkedLists.InsertTail` | include/zb_list_macros.h:185-200 | appends the node, also to a list of one node |
| `LinkedLists.GetTail` | include/zb_list_macros.h:139 | the tail is the last node, or null for an empty list |
| `LinkedLists.InsertAfter` | include/zb_list_macros.h:206-223 | the node comes directly behind the given one; a null position writes nothing |
| `LinkedLists.CutHead` | include/zb_list_macros.h:146-158 | hands out the first node, unlinks it and leaves the rest |
| `LinkedLists.RemoveHead` | include/zb_list_macros.h:229-240 | unlinks the first node and leaves the rest |
| `LinkedLists.RemoveTail` | include/zb_list_macros.h:245-265 | unlinks exactly the last node, with `next` as the only temporary, for every length |
| `LinkedLists.Remove` | include/zb_list_macros.h:275-299 | unlinks exactly the given node wherever it sits; for a node with a null `prev` nothing is written |
| `LinkedLists.RemoveThenInsertAfter` | include/zb_list_macros.h:206-299 | taking a node out and inserting it behind its old predecessor restores the list variable and every link of every node |
| `LinkedLists.LinkedIsMarked` | include/zb_list_macros.h:140 | a node in a list has a non-null `prev` |
| `LinkedLists.Iterate` | include/zb_list_macros.h:267-268 | visits the nodes in order and ends |
| `LinkedLists.IterateBack` | include/zb_list_macros.h:270-271 | visits the nodes in reverse order and ends, on every list |
| `NodeRuns.Lists.constructor` | include/zb_list_macros.h:125 | empty lists over nodes that are in none |
| `NodeRuns.Lists.InsertHead` | include/zb_list_macros.h:165-179 | with many lists over the same nodes, the list becomes the new node and the old list; all other lists are as before, and the marks change by that node alone (one abstract step) |
| `NodeRuns.Lists.InsertTail` | include/zb_list_macros.h:185-200 | with many lists over the same nodes, the list becomes the old list and the new node; all other lists are as before, and the marks change by that node alone (one abstract step) |
| `NodeRuns.Lists.InsertAfter` | include/zb_list_macros.h:206-223 | with many lists over the same nodes, the node comes directly behind the given one, and nothing changes for null; all other lists are as before, and the marks change by that node alone (one abstract step) |
| `NodeRuns.Lists.CutHead` | include/zb_list_macros.h:146-158 | with many lists over the same nodes, the list loses its first node, which is handed out; all other lists are as before, and the marks change by that node alone (one abstract step) |
| `NodeRuns.Lists.RemoveHead` | include/zb_list_macros.h:229-240 | with many lists over the same nodes, the list loses its first node; all other lists are as before, and the marks change by that node alone (one abstract step) |
| `NodeRuns.Lists.RemoveTail` | include/zb_list_macros.h:245-265 | with many lists over the same nodes, the list loses its last node; all other lists are as before, and the marks change by that node alone (one abstract step) |
| `NodeRuns.Lists.Remove` | include/zb_list_macros.h:275-299 | with many lists over the same nodes, the list loses that node, and nothing changes for an unlinked one; all other lists are as before, and the marks change by that node alone (one abstract step) |
| `NodeRuns.Lists.Apply` | include/zb_list_macros.h:146-299 | whichever operation is called, the nodes move by one abstract step |
| `NodeRuns.Lists.ValidIsSound` | include/zb_list_macros.h:146-299 | whatever the lists represent, no node is in two of them, twice in one, or linked and marked as free |
| `NodeRuns.Lists.Perform` | include/zb_list_macros.h:146-299 | any sequence of operations on any of the lists takes the nodes where the abstract sequence of steps goes and hands out the same nodes; lists it does not name are as before, and the nodes stay disjoint, accounted for and conserved |
| `QueueModel.FifoOrder` | include/zb_list_macros.h:447-454 | for every interleaving of puts and gets, single or in blocks, what was handed out followed by what is queued is what was queued before followed by what was put in, in order |
| `QueueModel.NothingLost` | include/zb_list_macros.h:449-456 | for every sequence of operations, at either end, replacing or deleting: elements handed out, done away with and kept are, with their multiplicities, those queued before and those put in |
| `QueueModel.NoLosses` | include/zb_list_macros.h:449-456 | nothing is done away with unless an operation replaces or deletes |
| `QueueModel.PutsThenGets` | include/zb_list_macros.h:447-454 | a block put one by one is got back in order, behind what was queued before, and nothing is left |
| `QueueModel.PutsAppend` | include/zb_list_macros.h:447-454 | puts add exactly their elements at the end and hand out or lose nothing |
| `QueueModel.PutAllIsPuts` | include/zb_ringbuffer.h:190-197 | putting a block is putting its elements one by one |
| `QueueModel.TakeIsGets` | include/zb_ringbuffer.h:493-517 | taking n elements is getting n times, also when fewer are there |
| `QueueModel.ReuseReplaces` | include/zb_ringbuffer.h:273-278 | replacing the last element after a put is having put the other one, and the first is lost; on an empty buffer nothing is stored |
| `QueueModel.DeleteCuts` | include/zb_list_macros.h:408-437 | a deletion takes out exactly that element, wherever it is, and nothing if it is absent |
| `QueueModel.LastInFirstOut` | include/zb_list_macros.h:460-491 | a pop hands out the element of the push it closes, whatever complete pushes and pops come between and whatever lies below |
| `QueueModel.PushesThenPops` | include/zb_list_macros.h:470-491 | pushing a block and popping as often hands it out reversed and uncovers the old contents |
| `QueueModel.StackRunExactly` | include/zb_list_macros.h:470-491 | pushes and pops never meet an empty stack exactly if as many elements are handed out as pops are made |
| `SinglyLinked.List.constructor` | include/zb_list_macros.h:320 | an empty list |
| `SinglyLinked.List.InsertHead` | include/zb_list_macros.h:343-353 | prepends the node and keeps head and tail in step, also on an empty list |
| `SinglyLinked.List.InsertTail` | include/zb_list_macros.h:356-371 | appends the node and keeps head and tail in step |
| `SinglyLinked.List.RemoveHead` | include/zb_list_macros.h:375-387 | drops the first node and clears the tail with the last one |
| `SinglyLinked.List.CutHead` | include/zb_list_macros.h:389-406 | hands out the first node, or null when there is none |
| `SinglyLinked.List.Remove` | include/zb_list_macros.h:408-437 | the walk with the trailing cursor deletes exactly the node, first, middle, last or only, and changes nothing if it is absent |
| `SinglyLinked.List.Iterate` | include/zb_list_macros.h:440 | visits the nodes in order and ends |
| `SinglyLinked.AllowedExactly` | include/zb_list_macros.h:343-437 | a node may be put in exactly if the queue then still holds no node twice; taking out is always allowed |
| `SinglyLinked.List.Apply` | include/zb_list_macros.h:408-456 | each queue operation on the nodes, and the removal of a node, is one step on the plain sequence, with its output |
| `SinglyLinked.List.Perform` | include/zb_list_macros.h:408-456 | any interleaving of queue operations and removals of nodes yields the outputs and the contents of the plain sequence; nodes handed out, removed and queued are those queued before and those put in, in order when all are put at one end and none is removed |
| `SinglyLinked.Stack.Push` | include/zb_list_macros.h:470-476 | a push is an insertion at the end that is read first |
| `SinglyLinked.Stack.Pop` | include/zb_list_macros.h:478-491 | a pop hands out the node pushed last, or null |
| `SinglyLinked.Stack.constructor` | include/zb_list_macros.h:464 | an empty stack |
| `SinglyLinked.Stack.Apply` | include/zb_list_macros.h:470-491 | each operation is one step on the plain sequence, with its output |
| `SinglyLinked.Stack.Perform` | include/zb_list_macros.h:470-491 | any interleaving of pushes and pops on the nodes yields the outputs and the contents of the plain sequence |
| `SinglyLinked.Stack.PushRunPop` | include/zb_list_macros.h:470-491 | a node pushed before any complete run of pushes and pops is what the pop after it hands out, and the stack is as before |
| `PooledQueues.StepExact` | include/zb_pooled_list.h:466-582 | on a list whose tail index is right, an operation does what it is meant to do and leaves the tail right if and only if it is not an insertion at the head while the head is 254 or 255 |
| `PooledQueues.RunExact` | include/zb_pooled_list.h:466-582 | a sequence of operations is the intended one at every point, with the tail right, if and only if none of them inserts at the head while the head is 254 or the list is empty |
| `PooledQueues.GoodRunIntended` | include/zb_pooled_list.h:466-582 | a sequence of operations that never inserts before head 254 or into an empty list is allowed throughout and leads to the intended list |
| `PooledQueues.IntendedIsQueue` | include/zb_pooled_list.h:466-582 | what is meant by the operations are the puts at either end, gets and deletions of a plain queue; the cut of the tail takes back an insertion there |
| `PooledQueues.CutsAtEnds` | include/zb_pooled_list.h:518-545 | with the tail right, the cuts hand out the first and the last entry, or null |
| `PooledQueues.AllowedExactly` | include/zb_pooled_list.h:466-582 | what is asked of the callers is exactly that the intended list has no repeated, null or foreign entries |
| `PooledQueues.RunJoin` | include/zb_pooled_list.h:466-582 | sequences of operations compose, as to what is allowed, what the links hold and what is intended |
| `PooledQueues.PrependThenAppend` | include/zb_pooled_list.h:466-495 | a prepend followed by an append leaves both and the old list in general, only the appended entry on an empty list, and only the two new entries before head 254 |
| `PooledQueues.WithoutEntryHealthy` | include/zb_pooled_list.h:540-582 | removing an entry, or the tail, from a list in order leaves it in order without that entry |
| `PooledQueues.List.constructor` | include/zb_pooled_list.h:447 | an empty list |
| `PooledQueues.List.InsertHead` | include/zb_pooled_list.h:466-475 | prepends the entry always, moves the tail exactly when the old head is 254, and writes one link |
| `PooledQueues.List.InsertTail` | include/zb_pooled_list.h:481-495 | appends behind the tail index wherever that is; a null tail makes the entry the whole list |
| `PooledQueues.List.RemoveHead` | include/zb_pooled_list.h:501-512 | drops the first entry; the tail becomes null with the last one |
| `PooledQueues.List.CutHead` | include/zb_pooled_list.h:518-534 | hands out the first entry or null |
| `PooledQueues.List.CutTail` | include/zb_pooled_list.h:540-545 | hands out the tail index and removes that entry if the walk finds it |
| `PooledQueues.List.Remove` | include/zb_pooled_list.h:551-582 | the walk deletes exactly the entry and sets the tail to its predecessor if it was the tail and not the head |
| `PooledQueues.List.Apply` | include/zb_pooled_list.h:466-582 | each operation on the links is one step of the abstract state and hands out what that step does |
| `PooledQueues.List.Perform` | include/zb_pooled_list.h:466-582 | any sequence of operations, good heads or not, takes the links where the sequence of steps of entries and tail goes, with its outputs; from a tail that is right and with good heads, that is the intended list |
| `RingBuffers.RingBuffer.constructor` | include/zb_ringbuffer.h:60 | an empty buffer |
| `RingBuffers.RingBuffer.Put` | include/zb_ringbuffer.h:243-248 | appends the value and keeps the cursors consistent if and only if the buffer was not full |
| `RingBuffers.RingBuffer.PutReserve` | include/zb_ringbuffer.h:97-101 | reserves the position behind the last entry, and only when there is room |
| `RingBuffers.RingBuffer.FlushPut` | include/zb_ringbuffer.h:122-126 | what was stored at the reserved position is now the last entry |
| `RingBuffers.RingBuffer.HeadReserveIndex` | include/zb_ringbuffer.h:103-107 | the position whose successor is the first entry |
| `RingBuffers.RingBuffer.PutHeadReserve` | include/zb_ringbuffer.h:109-113 | reserves that position, and only when there is room |
| `RingBuffers.RingBuffer.FlushPutHead` | include/zb_ringbuffer.h:128-140 | what was stored at the reserved position is now the first entry, if and only if there was room |
| `RingBuffers.RingBuffer.PutHead` | include/zb_ringbuffer.h:109-140 | reserving, storing and flushing prepends the value, or refuses when full |
| `RingBuffers.RingBuffer.PutReuseLast` | include/zb_ringbuffer.h:273-278 | replaces the last entry and leaves an empty buffer empty |
| `RingBuffers.RingBuffer.Peek` | include/zb_ringbuffer.h:288-292 | the first entry, or none exactly when the buffer is empty |
| `RingBuffers.RingBuffer.FlushGet` | include/zb_ringbuffer.h:325-329 | drops the first entry; on an empty buffer the count wraps and the cursors become inconsistent |
| `RingBuffers.RingBuffer.SearchGet` | include/zb_ringbuffer.h:429-433 | the i-th entry of the contents, or the position i slots after the first one if fewer are stored |
| `RingBuffers.RingBuffer.LinearPortion` | include/zb_ringbuffer.h:150-154 | the largest part of the requested size that ends within the array |
| `RingBuffers.RingBuffer.SearchBatch` | include/zb_ringbuffer.h:357-375 | outside the front of a full, rotated buffer the batch is that slice of the contents and reaches the end of the contents or of the array; in that one case it is as long as the contents and leaves the array |
| `RingBuffers.RingBuffer.FrontBatch` | include/zb_ringbuffer.h:493-501 | the batch is a prefix of the contents in every state, and empty only for an empty buffer |
| `RingBuffers.RingBuffer.FlushGetBatch` | include/zb_ringbuffer.h:398-402 | drops that many entries from the front if they are stored; for any size, the cursors stay consistent exactly if they are, or if the wrapped count amounts to putting entries back, and then the old contents follow those |
| `RingBuffers.RingBuffer.GetBatch` | include/zb_ringbuffer.h:493-517 | a batch read and flush splits the contents, and what is left starts at position 0 |
| `RingBuffers.RingBuffer.Drain` | include/zb_ringbuffer.h:493-517 | reading batch by batch empties the buffer in at most two rounds, and the batches joined are the contents |
| `RingBuffers.RingBuffer.Scan` | include/zb_ringbuffer.h:357-375 | reading batches from growing offsets sees the contents in order, in at most two batches, unless the buffer is full and its read index is not 0: exactly then a batch would leave the array, and the loop gives up |
| `RingBuffers.RingBuffer.Take` | include/zb_ringbuffer.h:493-517 | reading and flushing a number of stored entries batch by batch hands out exactly the first ones |
| `RingBuffers.RingBuffer.RotateFull` | include/zb_ringbuffer.h:243-329 | a get and a put on a full buffer reach the state in which the batch lookup leaves the array |
| `RingBuffers.RingBuffer.Apply` | include/zb_ringbuffer.h:103-329 | each guarded operation, replacing the last entry and taking blocks included, is one step on the plain sequence |
| `RingBuffers.RingBuffer.Perform` | include/zb_ringbuffer.h:103-402 | any sequence of operations other than batch puts that respects the capacity yields the outputs and contents of the plain sequence; entries handed out, overwritten and kept are the old ones and those put in, in order when nothing is overwritten or put at the front |
| `RingBuffers.RoomExactly` | include/zb_ringbuffer.h:97-154 | there is room for an operation exactly if what it leaves fits the capacity and a block to be taken is stored |
| `RingBuffers.SearchBatchExact` | include/zb_ringbuffer.h:357-375 | the size returned is the length of the longest stored run of neighbouring positions if and only if the lookup is not for the front of a full buffer with a nonzero read index |
| `RingBuffers.SearchBatchOverrun` | include/zb_ringbuffer.h:357-386 | a full two-entry buffer read from position 1: two entries promised, one there |
| `RingBuffers.FrontBatchLongest` | include/zb_ringbuffer.h:493-501 | the byte-array lookup returns the longest run from the front in every state |
| `RingBuffers.LookupsAgree` | include/zb_ringbuffer.h:385-501 | the two lookups agree at the front if and only if the buffer is not both full and rotated |
| `RingBuffers.RunIsSlice` | include/zb_ringbuffer.h:357-375 | a run of neighbouring positions holds exactly that slice of the contents |
| `RingBuffers.FlushExact` | include/zb_ringbuffer.h:398-402 | flushing any 32-bit count keeps the cursors consistent in exactly two cases: the entries are stored, or 2^32 minus the count fits the free space and either the read index or a capacity that divides 2^32 |
| `RingBuffers.FlushPutsBack` | include/zb_ringbuffer.h:398-402 | flushing 2^32 - 1 entries from two stored ones leaves consistent cursors with three |
| `BlockPuts.BatchPut` | include/zb_ringbuffer.h:150-197 | the cursors move by the entries that fit before the end of the array, the memory changes by as many bytes; when those entries fit the free space, the contents are the old ones and the entries if and only if the copy stores them, so always in a byte ring |
| `BlockPuts.CopyBytes` | include/zb_ringbuffer.h:194 | in the bytes of all the slots, those at the position become the copied ones and no others change; the slots keep their width |
| `BlockPuts.CopiedBytes` | include/zb_ringbuffer.h:194 | the slots after the copy, joined to bytes, are the old bytes with the copied ones at the first byte of the given slot |
| `BlockPuts.CopiedParts` | include/zb_ringbuffer.h:194 | copying n bytes leaves all slots before the position and from n slots on alone; the n slots in between begin with the copied bytes and keep the rest |
| `BlockPuts.CopyStores` | include/zb_ringbuffer.h:190-197 | for any slots and any block of n entries, copying n bytes stores the block if and only if the slots already agree with it in all bytes from the n-th one on |
| `BlockPuts.CopyExact` | include/zb_ringbuffer.h:190-197 | copying as many bytes as there are entries stores every block of n entries, whatever the slots hold, if and only if the entries are one byte wide or there are none |
| `BlockPuts.WideEntryCutShort` | include/zb_ringbuffer.h:190-197 | one entry of two bytes put into an empty ring: its second byte is not stored |
| `BlockPuts.ByteCopy` | include/zb_ringbuffer.h:194 | with one-byte entries the copy stores the whole block and leaves the slots before and behind it alone |
| `BlockPuts.PutBlock` | include/zb_ringbuffer.h:190-197 | into a byte ring, two batch puts, the second with the rest, append any block that fits the free space, whatever the position of the write index |
| `BlockPuts.Apply` | include/zb_ringbuffer.h:103-402 | on a byte ring each operation, blocks included, is one step on the plain sequence |
| `BlockPuts.Perform` | include/zb_ringbuffer.h:103-402 | any sequence of operations on a byte ring, blocks included, yields the outputs and contents of the plain sequence, conserves the entries and keeps the queue order |
| `RingBuffers.RemIsRemainder` | include/zb_ringbuffer.h:125 | the repeated subtraction used for positions is the remainder |
| `Times.OrderOnWindow` | include/zboss_api_core.h:149-174 | for unbounded times at most 2^31 - 2 apart, the wrapped comparison is the comparison and the wrapped subtraction the distance |
| `Times.AddWraps` | include/zboss_api_core.h:160 | the sum of two wrapped times is the wrapped sum, for unbounded times |
| `Times.WindowExact` | include/zboss_api_core.h:117-174 | for times less than 2^32 apart, the comparison is right exactly for differences from -(2^31 + 1) to 2^31 - 2, the subtraction for those and for 2^31 |
| `Times.OrderOnResidues` | include/zboss_api_core.h:174 | on all 32-bit values the comparison is antisymmetric, and exactly three differences compare in neither direction |
| `Times.QueueOrder` | include/zboss_api_core.h:174 | times of one window are ascending if and only if each wrapped time compares at or after the one before it |
| `Times.AddThenSubtract` | include/zboss_api_core.h:149-174 | subtracting the start from the sum gives the added time exactly for values below 2^31 - 1 and for 2^31 |
| `Times.CeilGalois` | include/zboss_api_core.h:190-248 | rounding up to ticks fits t ticks if and only if the delay fits the length of t ticks |
| `Times.CeilGaloisExact` | include/zboss_api_core.h:190-248 | that holds of a tick for all delays if and only if the tick is at most 279620 |
| `Times.CeilGaloisUsec` | include/zboss_api_core.h:190 | rounding up is right for all delays and all ticks: the ticks are at most t if and only if the delay fits the exact length of t ticks |
| `Times.ToMsecRemainder` | include/zboss_api_core.h:248 | converting ticks to milliseconds gives, rounded down, what 32 bits hold of their length in microseconds |
| `Times.ToMsecExact` | include/zboss_api_core.h:248-262 | that is their length if and only if the ticks are at most 279620 |
| `Times.FloorGalois` | include/zboss_api_core.h:202-262 | t ticks are at most the rounded-down delay if and only if their length is at most the delay |
| `Times.TickRoundTrip` | include/zboss_api_core.h:190-248 | ticks survive the conversion to milliseconds and back if and only if they are at most 279620 |
| `Times.DelayNotShortened` | include/zboss_api_core.h:190-248 | the detour over ticks does not shorten a delay exactly while the ticks are at most 279620, and then adds at most 15 ms |
| `Times.UsecCeilExact` | include/zboss_api_core.h:195 | the 32-bit microsecond conversion rounds up correctly if and only if adding 15359 does not overflow; when it does, the result is 0 |
| `BitVectors.Set` | include/zboss_api_core.h:598 | sets the bit in its byte, bit 8k + j being bit j of byte k, and changes nothing else in the vector |
| `BitVectors.Clear` | include/zboss_api_core.h:599 | clears the bit in its byte and changes nothing else in the vector |
| `BitVectors.Assign` | include/zboss_api_core.h:609-610 | gives the bit the lowest bit of the value; other bits change only where higher bits of the value land, so not at all if none does |
| `BitVectors.AssignCleanExactly` | include/zboss_api_core.h:609-610 | assigning leaves the neighbours of bit k alone in every byte if and only if value & (0xFF >> k) is at most 1 |
| `BitVectors.AssignTwo` | include/zboss_api_core.h:609-610 | assigning 2 to bit 0 of an empty byte sets bit 1 instead |
| `BitVectors.SizeIsExact` | include/zboss_api_core.h:601 | a vector sized for n bits holds them with less than a byte to spare |
| `BitVectors.BitIsDigit` | include/zboss_api_core.h:600 | the bit that is checked is the binary digit at that position, lowest first |
| `Words48.SumValue` | include/zb_types.h:1111-1127 | the carry and borrow between the two words make the result a 48-bit sum or difference |
| `Words48.Value24Counts` | include/zb_types.h:1083-1084 | the 24-bit values stand for the numbers from -2^23 to 2^23 - 1, in the order of their parts and without a gap; the unsigned reading agrees on those that are not negative |
| `Words48.SumExact` | include/zb_types.h:1110-1127 | the result is the sum modulo 2^48 if and only if the 24-bit value is not negative |
| `Words48.MinusOneGoesWrong` | include/zb_types.h:1112-1119 | adding -1 to 0 gives -65534 modulo 2^48 |
| `Words48.SumAllValue` | include/zb_types.h:1120-1127 | a counter accumulating values that are not negative holds their sum modulo 2^48 |
| `Words48.SumAllJoin` | include/zb_types.h:1111-1127 | accumulation can be interrupted anywhere |
| `Words48.UInt48.AddInt24` | include/zb_types.h:1111-1127 | the in-place update leaves both words as the sum says, and the 48-bit sum exactly for values that are not negative |
| `Words48.ComparisonsAreNumeric` | include/zb_types.h:1129-1143 | the five comparisons of the split words are the comparisons of the numbers |
| `SignExtension.RoundTrip24` | include/zb_types.h:989-991 | on 32-bit words, narrowing to 24 bits and extending back is the identity exactly on the words of the signed range |
| `SignExtension.RoundTrip48` | include/zb_types.h:985-987 | on 64-bit words, narrowing to 48 bits and extending back is the identity exactly on the words of the signed range |
| `SignExtension.ExtendKeepsLow24` | include/zb_types.h:989-991 | extending keeps the low 24 bits, and extending twice is extending once |
| `SignExtension.ExtendKeepsLow48` | include/zb_types.h:985-987 | extending keeps the low 48 bits, and extending twice is extending once |
| `SignExtension.NarrowClears24` | include/zb_types.h:991 | narrowing clears everything above the low 24 bits and keeps those |
| `SignExtension.NarrowClears48` | include/zb_types.h:987 | narrowing clears everything above the low 48 bits and keeps those |
| `SignExtension.ExtendIgnoresHigh24` | include/zb_types.h:989-991 | extending ignores everything above the low 24 bits and lands in the signed range |
| `SignExtension.ExtendIgnoresHigh48` | include/zb_types.h:985-987 | extending ignores everything above the low 48 bits and lands in the signed range |
| `LowPower.Switch.constructor` | platform/zb_zephyr_power.c:21-24 | low power is enabled and on, and the lock is not held |
| `LowPower.Switch.Config` | platform/zb_zephyr_power.c:29-34 | takes the lock if low power was on, leaves it off and stores the argument; the lock count is what the history of calls says |
| `LowPower.Switch.Off` | platform/zb_zephyr_power.c:36-43 | takes the lock exactly if low power was enabled and on, and leaves it off; the lock count is what the history of calls says |
| `LowPower.Switch.On` | platform/zb_zephyr_power.c:45-52 | gives the lock back exactly if low power was enabled and off, and leaves it on; the lock count is what the history of calls says and never drops below zero |
| `LowPower.Switch.Perform` | platform/zb_zephyr_power.c:21-52 | after every sequence of calls, outstanding locks are the leaks of the history, plus one unless low power is enabled and was switched on last |
| `LowPower.LeaksStay` | platform/zb_zephyr_power.c:29-52 | a leaked lock is never given back by any later calls |
| `LowPower.LeaksCounted` | platform/zb_zephyr_power.c:29-52 | the locks leaked are exactly as many as the configurations that follow directly on an "on" that was ignored because low power was disabled |
| `LowPower.LastConfigDecides` | platform/zb_zephyr_power.c:21-34 | low power is enabled unless the last configuration disabled it |
| `LowPower.HeldUnlessOn` | platform/zb_zephyr_power.c:29-43 | after an "off" or a configuration the lock is held |
| `LowPower.BalancedExactly` | platform/zb_zephyr_power.c:29-52 | nothing leaks if and only if no configuration follows directly on an "on" that was ignored because low power was disabled |
| `LowPower.MaySleep` | platform/zb_zephyr_power.c:29-52 | the lock is free if and only if the last call, if any, was an "on", the last configuration, if any, enabled low power, and nothing leaked |
| `LowPower.ShortestLeak` | platform/zb_zephyr_power.c:29-52 | disable, on, enable holds two locks, and a final on gives only one back |

## Left out

- The 16-bit pooled lists: the same macros with 65535 as null; the 16-bit cut of the head additionally asserts on its output before assigning it.
- Pools of more than 255 entries: index 255 is the null index, so further entries cannot be named.
- Loop bodies that change the list they iterate over, and the forward loop over pooled singly linked lists.
- List operations on entries that are linked in another list: the original gives no meaning to them.
- Using the stack macros and the queue macros on the same head: the stack does not maintain the tail.
- `ZB_RING_BUFFER_AVAILABLE_CONTINUOUS_PORTION`: the linear portion of the free space, from parts that are modelled.
- The variants of the ring-buffer macros that take the capacity as an argument: the same operations; `ZB_BYTE_ARRAY_PUT_HEAD_RESERVE` differs in not looking whether there is room.
- RingBuffers.RingBuffer.Perform: does not include batch puts, because they are right for byte rings alone; `BlockPuts.Perform` adds them there.
- `ZB_RING_BUFFER_LOCATE`: it sets the three cursors to what the caller says.
- 8-bit and 16-bit word configurations, the 16-bit timer, sub-GHz symbol durations, and big-endian layouts.
- The opaque 24- and 48-bit functions behind prototypes: their bodies are not part of this model.
- Builds of the power file without power management, where the functions do nothing to the lock.
- Scheduler, buffer pool, address map, security, OTA and serial code: only prototypes or calls into foreign code.
