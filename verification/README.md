# A verified model of PPTK's in-memory algorithms

PPTK is a packet-processing toolkit written in C. This project models the part of it that works in
memory and proves what it promises: IPv4 fragment reassembly in five implementations, red-black and
AVL trees of intrusive nodes with parent links, a pointer-linked timer heap and a wheel of such heaps,
a skip list of timers, a blocking bounded queue, a two-level cache of memory blocks, and the Internet
checksum. Every result holds for all inputs, all runs or all reachable states.

`dafny verify dfyconfig.toml` checks the whole project.

## How the model is laid out

**Reassembly.** `Fragments` decodes a packet to offset, end, final flag and payload, and defines the
specification: after a history of packets the missing bytes are those up to the limit that no accepted
packet carries, and the limit is 65535 or the smallest end of an accepted final packet. `Holes` states
the two list walks of the sources as whole-list functions. Five contexts are proved against that one
specification:

- `HoleListContext` is `ipreass.c`, a sorted hole list whose nodes live in the received packets.
- `InBufferContext` is `rfc815.c`, the hole list kept inside the very buffer that is being filled. The
  buffer is an array of bytes; descriptors are read and written byte by byte, and the proof shows that
  no descriptor overwrites delivered data and no data overwrites a live descriptor.
- `HoleTreeContext` is `iprbexplicit.c`, the holes in a red-black tree, with the IPv6 overlap rule.
- `FragmentQueue` is `linux.c`, a trimmed fragment list with a byte counter.
- `ComboContext` is `combo.c`, which changes from the list to the buffer in the middle of a run.

`Fragmenter` is `ipfrag.c`, and `RoundTrip` cuts a datagram, delivers the pieces in any order with
losses, repetitions, overlaps and padding, and shows that each context gives the original payload back.

**Trees.** `IntrusiveTree` describes a tree of the heap by a value and a place in it by a subtree and
the path above it. The fields of all nodes are tied to a ghost map of cells, so that each write to a
field is one map update and the reasoning is about values. Exchanging two nodes is shown to be a
renaming. `RbTree` and `AvlTree` are the balance logic of `rbtree.c` and `avltree.c` on top of it.

**Timers.** `TimerHeap` is `timerlink.c`: the linked tree is an array heap of `size` slots, and the slot
with index n is found by the turns that the bits of n give. `TimerWheel` is `timerlinkwheel.c` and
`timerlinkwheel.h` over real heap objects with disjoint footprints. `SkipList` is `timerskiplist.c`.

**Protocols.** `Rings` holds the ring buffers that `queue.c` and `rballoc.c` share. `BlockingQueue` and
`BlockCache` let any number of threads run in interleaved steps; locks and waits are steps.

**Arithmetic.** `Checksum` is `ipcksum.h` and `ipcksum.c`, `Bitmap` the fill of `rfc791.c`.

## What turned out to hold only under a condition

- The in-buffer context rounds the ends of fragments down to 8 unless they lower the limit. It takes a byte
  exactly when one packet brought the byte's whole 8-byte block, as far as the datagram reaches
  (`ComboContext.BufferCoverage`), so it differs from the list context exactly on bytes that came without
  their block (`ComboContext.CoverageDiffers`), and it completes exactly when each block came whole
  (`ComboContext.BufferCompleteIff`). Fragments that end on multiples of 8 unless they are final always
  bring whole blocks; `ComboContext.RoundingLosesShortTail` is a history of another kind.
- An incremental checksum update keeps a header verifying exactly when some word of the new header besides
  the checksum is not zero, or the changed words and the checksum all were 0xffff
  (`Checksum.UpdateKeepsVerifying`, `Checksum.Update32KeepsVerifying`). Starting from the computed checksum
  it gives the recomputed one exactly when some word besides the checksum is not zero
  (`Checksum.UpdateIsRecomputation`, `Checksum.Update32IsRecomputation`). `Checksum.AllZeroFails` is a
  failing case. A first byte with a version rules all of them out, so `Checksum.DecrTtl` is right on real
  headers.
- Halving a full local cache makes room for the block being freed exactly when the capacity is at least 3
  (`BlockCache.HalvingMakesRoom`); an item pushed on a full ring makes the ring look empty
  (`Rings.PutOnFull`), and `BlockCache.Free` states what happens for every capacity.
- `timer_skiplist_remove` finds a timer exactly when its time is not 0: the search for earlier times
  subtracts one from an unsigned value. Such a timer stays, and if it is the first one the cached head time is
  then right only by chance (`SkipList.TimerList.Remove` states both cases).
- The exchange of two tree nodes is right exactly unless the first is the left and the second the right
  child of one node (`IntrusiveTree.Exchange`; `IntrusiveTree.SiblingsCase` is such a tree): the second
  write to the parent then takes back the first. Deletion never asks for it. The timer heap treats siblings
  separately and is right for all pairs.

## Model

| member | source | states |
|---|---|---|
| Fragments.AcceptedMeans | ipfrag/ipreass.c:112-122 | a packet is taken exactly if the frame holds both headers and all announced data, there are data, and they end at a position of 16 bits; padding behind them does not matter |
| Fragments.CarriesOfDatagram | ipfrag/ipreass.c:118-123 | a fragment of a datagram, padded or not, carries exactly the announced range with the datagram's bytes |
| Fragments.LimitOfDatagram | ipfrag/ipreass.c:123-126 | within one datagram the limit is unknown or the datagram's end, and it is known exactly when a final fragment with data has come |
| Fragments.CompleteOfDatagram | ipfrag/ipreass.h:20-23 | completeness of a history of one datagram means that every one of its bytes was carried |
| Fragments.PayloadIsDatagram | ipfrag/ipreass.c:68-86 | a buffer filled with delivered bytes up to the limit of a complete history is the datagram |
| Holes.ClipMeaning | ipfrag/ipreass.c:124-141 | lowering the limit removes exactly the bytes past it from the holes |
| Holes.CutMeaning | ipfrag/ipreass.c:153-205 | receiving f..l removes exactly those bytes from the holes |
| Holes.ClipKeepsOrder | ipfrag/ipreass.c:124-141 | the holes stay non-empty, ascending and disjoint, within the old bounds |
| Holes.CutKeepsOrder | ipfrag/ipreass.c:153-205 | the same for cutting, splits included |
| Holes.CutStop | ipfrag/ipreass.c:153-205 | a walk that stops at the first hole reaching past the data has done the whole list |
| HoleListContext.HolesAfterMatch | ipfrag/ipreass.c:103-206 | one packet keeps the holes equal to the missing bytes of the history |
| HoleListContext.EmptyIffComplete | ipfrag/ipreass.h:20-23 | no hole is left exactly when every byte up to the limit was carried |
| HoleListContext.HoleList.constructor | ipfrag/ipreass.c:12-20 | one hole 0..65535, no packet, and the invariant |
| HoleListContext.HoleList.Add | ipfrag/ipreass.c:103-206 | the packet is appended, the holes change as the specification says, and each embedded node is linked at most once |
| HoleListContext.HoleList.ClipHoles | ipfrag/ipreass.c:124-141 | the first walk computes the clipped list and links no new node |
| HoleListContext.HoleList.CutHoles | ipfrag/ipreass.c:153-205 | the second walk computes the cut list, using the packet's own node only for a split |
| HoleListContext.HoleList.CutNode | ipfrag/ipreass.c:155-204 | the case analysis leaves exactly what is left of the hole and stops exactly when the hole reaches the data's end |
| HoleListContext.HoleList.IsComplete | ipfrag/ipreass.h:20-23 | reports exactly whether the history is complete |
| HoleListContext.CopyPackets | ipfrag/ipreass.c:68-86 | each byte of the result is that of the last packet that has it, and if no rejected packet has bytes every covered byte was delivered at that offset |
| HoleListContext.CopiedIsDelivered | ipfrag/ipreass.c:68-86 | copying whole packets over each other leaves a delivered byte wherever an accepted packet carries one |
| HoleListContext.HoleList.Reassemble | ipfrag/ipreass.c:33-88 | the payload has limit + 1 bytes, each from the last packet that has it, and every covered byte is a delivered one unless rejected packets have bytes |
| InBufferContext.HolesAfterMatch | ipfrag/rfc815.c:125-278 | one packet keeps the 8-aligned holes equal to the bytes that no packet has delivered to this context |
| InBufferContext.UnlinkSpells | ipfrag/rfc815.c:161-169 | after unlinking, the bytes of the buffer spell the doubly linked list without the hole |
| InBufferContext.MoveSpells | ipfrag/rfc815.c:216-227 | after moving a descriptor to the hole's new start, the bytes spell the changed list |
| InBufferContext.SplitSpells | ipfrag/rfc815.c:228-245 | after a split, the bytes spell the list with both halves |
| InBufferContext.SplitHolds | ipfrag/rfc815.c:228-245 | a split writes no byte of delivered data |
| InBufferContext.MoveHolds | ipfrag/rfc815.c:216-227 | moving a descriptor writes no byte of delivered data |
| InBufferContext.CopyHolds | ipfrag/rfc815.c:274-277 | copying the payload into bytes outside all holes leaves every descriptor readable |
| InBufferContext.DataAfterAdd | ipfrag/rfc815.c:125-278 | after the walks and the copy every byte up to the limit outside the holes is a received byte |
| InBufferContext.EmptyIffComplete | ipfrag/rfc815.h:38-51 | the list is empty exactly when every byte up to the limit was delivered |
| InBufferContext.InBuffer.constructor | ipfrag/rfc815.c:40-58 | one descriptor for 0..65535 at the start of the buffer |
| InBufferContext.InBuffer.SetPrev | ipfrag/rfc815.c:60-71 | writes the previous link of a descriptor, or the last index of the context |
| InBufferContext.InBuffer.SetNext | ipfrag/rfc815.c:73-84 | writes the next link of a descriptor, or the first index of the context |
| InBufferContext.InBuffer.ClipHoles | ipfrag/rfc815.c:155-180 | the first walk leaves the clipped list in the buffer and all data in place |
| InBufferContext.InBuffer.CutHoles | ipfrag/rfc815.c:190-273 | the second walk leaves the cut list in the buffer and all data in place, and tells whether it changed anything |
| InBufferContext.InBuffer.Add | ipfrag/rfc815.c:125-278 | keeps the whole invariant: list and data in one buffer, holes equal to the undelivered bytes; outside the holes the buffer has the packet's bytes if one of them was missing, and is untouched otherwise |
| InBufferContext.InBuffer.IsComplete | ipfrag/rfc815.h:38-51 | reports exactly whether everything up to the limit was delivered; both aborts are unreachable |
| InBufferContext.InBuffer.Reassemble | ipfrag/rfc815.c:13-38 | once complete, every byte of the result is a delivered one |
| FragmentQueue.Counting | ipfrag/linux.c:278-281 | disjoint fragments within lo..len add up to the whole range exactly when they cover it |
| FragmentQueue.EatKeeps | ipfrag/linux.c:225-252 | making room keeps a sorted disjoint list that holds exactly the bytes from the end on |
| FragmentQueue.InsertAll | ipfrag/linux.c:201-265 | an insertion keeps the list sorted and disjoint, and it holds exactly the old bytes and the new ones |
| FragmentQueue.CountTells | ipfrag/linux.c:278-281 | the flags and the counter together say exactly whether 0..len is covered |
| FragmentQueue.Queue.Find | ipfrag/linux.c:187-199 | the place before the first fragment that does not start earlier, by the shortcut or by the scan |
| FragmentQueue.Queue.MakeRoom | ipfrag/linux.c:225-252 | drops and trims exactly what lies before the end, and the counter follows |
| FragmentQueue.Queue.Enqueue | ipfrag/linux.c:100-289 | the counter is the total length, all ends are within len, and 0 is returned only when the list covers exactly 0..len; a packet is refused exactly when no length of the datagram is left that agrees with it and the ends taken before |
| FragmentQueue.RefusedIff | ipfrag/linux.c:140-167 | the tests on the end and the last flag decide whether some length agrees with all ends, and the new length is the smallest that does |
| FragmentQueue.Queue.EnqueueOf | ipfrag/linux.c:100-289 | for fragments of one datagram nothing is refused, and 0 is first returned on the call that completes the coverage |
| FragmentQueue.Queue.Reassemble | ipfrag/linux.c:59-98 | every fragment lands at its place in the result |
| FragmentQueue.FilledIsDatagram | ipfrag/linux.c:59-98 | a full queue of fragments of one datagram reassembles to it |
| Fragmenter.Fragment4 | ipfrag/ipfrag.c:11-121 | succeeds exactly on the inputs that pass every check, and then gives the requested pieces as unpadded fragments of the payload under the original header length |
| ComboContext.BufferCoverage | ipfrag/rfc815.c:160-278 | the buffer has a byte exactly when one packet of the history brought its whole 8-byte block up to the limit, in whatever order the packets came |
| ComboContext.CoverageDiffers | ipfrag/combo.c:31-53 | list and buffer agree on a byte exactly unless it came without its whole block |
| ComboContext.BufferCompleteIff | ipfrag/rfc815.h:38-51 | the buffer is complete exactly when each block was brought whole by one packet, and agrees with the list exactly when a complete history brings whole blocks |
| ComboContext.SameCoverage | ipfrag/combo.c:31-53 | if fragments that are not final end on multiples of 8, list and buffer agree on every byte up to the limit |
| ComboContext.SameCompleteness | ipfrag/combo.h:28-35 | and so they agree on completeness |
| ComboContext.RoundingLosesShortTail | ipfrag/rfc815.c:181-188 | a concrete packet on which list and buffer differ |
| ComboContext.BufferCompleteSound | ipfrag/rfc815.h:38-51 | a complete buffer means a complete history, with or without the rule |
| ComboContext.Combo.Promote | ipfrag/combo.c:31-53 | replays the packets into a buffer with the same history, or leaves everything when memory runs out |
| ComboContext.Combo.Add | ipfrag/combo.c:55-70 | the history grows by the packet whichever context is active, and a packet that finds 44 or more stored promotes if memory is there |
| ComboContext.Combo.IsComplete | ipfrag/combo.h:28-35 | completeness of bytes before the promotion and of blocks after it; with whole blocks the answer does not depend on whether and when the context was promoted |
| ComboContext.Combo.Reassemble | ipfrag/combo.c:72-80 | completion is exact in both states, and a complete context of fragments of one datagram gives the datagram |
| RoundTrip.CompleteIffReached | ipfrag/ipfrag.c:64-121 | the arriving packets are complete exactly when every byte was delivered by some piece |
| RoundTrip.BlocksIffReached | ipfrag/rfc815.h:38-51 | within one datagram the buffer is complete exactly when each 8-byte block was delivered whole by one piece |
| RoundTrip.BlocksAreBytes | ipfrag/rfc815.c:181-188 | whole blocks are all bytes, and the converse holds for pieces of multiples of 8 |
| RoundTrip.ThroughHoleList | ipfrag/ipreass.c:33-206 | round trip: completion exactly when every byte was delivered, and then the original payload; the link may pad any fragment |
| RoundTrip.ThroughBuffer | ipfrag/rfc815.c:13-278 | round trip: completion exactly when each block was delivered whole by one piece, for pieces of multiples of 8 exactly when every byte was delivered, and then the original payload; the link may pad any fragment |
| RoundTrip.ThroughQueue | ipfrag/linux.c:59-289 | round trip: completion exactly when every byte was delivered, and then the original payload |
| RoundTrip.ThroughCombo | ipfrag/combo.c:31-80 | round trip whatever the allocator answers: completion exactly when every byte, or after a promotion every block, was delivered, and then the original payload; the link may pad any fragment |
| RoundTrip.ThroughTree | ipfrag/iprbexplicit.c:28-352 | round trip for both modes: under IPv6 an overlap is reported exactly when a piece repeats a byte, otherwise completion is exact and gives the payload; the link may pad any fragment |
| RoundTrip.OverlapMeans | ipfrag/iprbexplicit.c:193-200 | among fragments of one datagram the overlap flag says exactly that a byte comes twice |
| HoleTreeContext.CutHere | ipfrag/iprbexplicit.c:261-287 | cutting one hole that the data meets leaves the same end result and one hole less to cut |
| HoleTreeContext.MissingTogether | ipfrag/iprbexplicit.c:193-200 | with holes that never touch, data lies in the hole it meets exactly when all of it is missing |
| HoleTreeContext.CutGapped | ipfrag/iprbexplicit.c:164-288 | cutting never makes two holes touch |
| HoleTreeContext.ClipLast | ipfrag/iprbexplicit.c:120-145 | dropping the last holes past the limit and shortening one is clipping the whole list |
| HoleTreeContext.Find | ipfrag/iprbexplicit.c:174-192 | the search returns a hole that the data meets if there is one |
| HoleTreeContext.LinkNext | ipfrag/iprbexplicit.c:217-259 | the new node is hung right behind the split one without a comparison; the tree stays red-black and gains exactly that node in that place |
| HoleTreeContext.SplitNode | ipfrag/iprbexplicit.c:205-260 | the list of holes has both halves in place of the hole |
| HoleTreeContext.CutNode | ipfrag/iprbexplicit.c:261-287 | the list of holes has what is left of the hole, also where IPv6 falls through to write to a removed one |
| HoleTreeContext.AddData | ipfrag/iprbexplicit.c:164-288 | ends, subtracts exactly the data, says whether it brought a missing byte, and under IPv6 refuses exactly the data with a byte that is not missing |
| HoleTreeContext.ClipTree | ipfrag/iprbexplicit.c:120-145 | the holes become the clipped list |
| HoleTreeContext.KeptTracks | ipfrag/iprbexplicit.c:344-351 | freeing packets that bring nothing loses no coverage |
| HoleTreeContext.TracksAfter | ipfrag/iprbexplicit.c:290-352 | one packet keeps the holes equal to the missing bytes of the history |
| HoleTreeContext.HoleTree.constructor | ipfrag/iprbexplicit.c:28-37 | one hole 0..65535 in the tree |
| HoleTreeContext.HoleTree.Add | ipfrag/iprbexplicit.c:290-352 | same holes as the list context, the exact overlap condition, and every node of the tree belongs to the context or to a kept packet |
| HoleTreeContext.HoleTree.IsComplete | ipfrag/iprbexplicit.h:21-24 | the tree is empty exactly when any history it tracks is complete |
| HoleTreeContext.HoleTree.Reassemble | ipfrag/iprbexplicit.c:50-105 | each byte is from the last kept packet that has it, and every covered byte of the result is a delivered one unless rejected packets have bytes |
| IntrusiveTree.RotateLeft | rbtree/rbtree.c:182-227 | the linked tree, parent links and root included, is the rotated one and nothing else changes |
| IntrusiveTree.RotateRight | rbtree/rbtree.c:229-274 | the mirror image |
| IntrusiveTree.FindPlace | rbtree/rbtree.c:341-366 | the walk ends at a free place where the node belongs by the comparator; behind every node it compares equal to |
| IntrusiveTree.AttachLeaf | rbtree/rbtree.c:328-367 | the node hangs there as a leaf |
| IntrusiveTree.InsertedAt | rbtree/rbtree.c:328-367 | which adds exactly that node to the order and keeps the order sorted |
| IntrusiveTree.Exchange | rbtree/rbtree.c:486-654 | two nodes trade places and marks, so that the tree is the old one with the nodes renamed, exactly unless they are the left and the right child of one node in this order |
| IntrusiveTree.NotExchanged | rbtree/rbtree.c:584-616 | a parent whose left link still holds the first node does not belong to the exchanged tree |
| IntrusiveTree.SiblingsCase | rbtree/rbtree.c:584-616 | a tree of three nodes in which the exchange fails |
| IntrusiveTree.ExchangeBelow | avltree/avltree.c:472-553 | the same for a node and its child |
| IntrusiveTree.SpliceOut | rbtree/rbtree.c:703-733 | the only child takes the node's place |
| IntrusiveTree.PredecessorOrder | rbtree/rbtree.c:751-848 | removing the node from its predecessor's place removes it from the original order |
| IntrusiveTree.SuccessorOrder | avltree/avltree.c:749-800 | the same for the successor |
| RbTree.InsertRepair | rbtree/rbtree.c:276-326 | from a red node with perhaps a red parent to a red-black tree of the same order |
| RbTree.Insert | rbtree/rbtree.c:328-367 | the tree stays red-black with correct parent links, gains exactly the node, and stays sorted; the new node is behind exactly those it does not compare smaller to |
| RbTree.RecolouredRedAt | rbtree/rbtree.c:286-292 | with a red uncle the clash moves two levels up and nothing else is wrong |
| RbTree.RebuiltFine | rbtree/rbtree.c:293-325 | with a black uncle the rotations leave a red-black tree |
| RbTree.SiblingExists | rbtree/rbtree.c:375-484 | a subtree that lacks a black node has a sibling, so the repair never meets a null one |
| RbTree.SiblingFacts | rbtree/rbtree.c:155-169 | the side of a short subtree can be told even when the subtree is empty |
| RbTree.DeleteCase1 | rbtree/rbtree.c:477-484 | the repair from the top: a red-black tree of the same order |
| RbTree.DeleteCase2 | rbtree/rbtree.c:457-475 | with a red sibling, by a rotation to a black one |
| RbTree.DeleteCase3 | rbtree/rbtree.c:439-455 | all black: the shortage moves up |
| RbTree.DeleteCase4 | rbtree/rbtree.c:420-437 | a red parent and black nephews end it |
| RbTree.DeleteCase5 | rbtree/rbtree.c:394-418 | a red inner nephew is turned outside |
| RbTree.DeleteCase6 | rbtree/rbtree.c:375-392 | a red outer nephew ends it |
| RbTree.DeleteOneChild | rbtree/rbtree.c:703-749 | unlinks a node with at most one child and repairs |
| RbTree.Delete | rbtree/rbtree.c:751-848 | the tree stays red-black and loses exactly the given node |
| AvlTree.RebalancedAVL | avltree/avltree.c:199-333 | each rotation with its new balances makes an AVL tree, one level lower unless the heavy child was even |
| AvlTree.RebalancedInOrder | avltree/avltree.c:199-333 | and keeps the order |
| AvlTree.RotateRightLeft | avltree/avltree.c:249-290 | the links after the double rotation are those of the rotated tree |
| AvlTree.RotateLeftRight | avltree/avltree.c:292-333 | the mirror image |
| AvlTree.Rebalance | avltree/avltree.c:344-355 | links and balances together are those of the rebalanced tree |
| AvlTree.InsertRepair | avltree/avltree.c:335-414 | from a subtree grown by one level to an AVL tree of the same order |
| AvlTree.Insert | avltree/avltree.c:416-454 | stays an AVL tree with correct parent links, gains exactly the node, and stays sorted; the new node is behind exactly those it does not compare smaller to |
| AvlTree.ShrunkStep | avltree/avltree.c:652-662 | the balances for the height that the subtree will have once the doomed node is gone |
| AvlTree.ShrunkTurns | avltree/avltree.c:639-651 | the same when the parent has to turn |
| AvlTree.DeleteRepair | avltree/avltree.c:629-712 | with the doomed node still linked, the tree without it has become an AVL tree of the same order |
| AvlTree.DeleteOneChild | avltree/avltree.c:714-747 | unlinking the node afterwards leaves that tree |
| AvlTree.Delete | avltree/avltree.c:749-800 | stays an AVL tree and loses exactly the given node |
| TimerHeap.Nth | timerlinkheap/timerlink.c:19-51 | returns the node in slot n; the path array of 64 entries suffices for every size |
| TimerHeap.WriteSteps | timerlinkheap/timerlink.c:22-37 | the turns written are those of slot n and fit the array |
| TimerHeap.SlotFilled | timerlinkheap/timerlink.c:458-490 | filling the first free slot, or freeing the last, gives an array heap of the next size |
| TimerHeap.SwapParentChild | timerlinkheap/timerlink.c:65-158 | parent and child trade places; slots and timers stay |
| TimerHeap.SwapAny | timerlinkheap/timerlink.c:160-249 | two nodes trade places whether one is the other's parent, siblings, or apart |
| TimerHeap.SiftUp | timerlinkheap/timerlink.c:298-314 | restores heap order when only one timer may be too early for its place |
| TimerHeap.SiftDown | timerlinkheap/timerlink.c:251-296 | restores heap order when only one timer may be too late for its place |
| TimerHeap.RemovedOrd | timerlinkheap/timerlink.c:400-437 | with the last timer in the removed one's place only that place can be out of order, whatever the removed one's time |
| TimerHeap.RootIsMinimum | timerlinkheap/timerlink.h:44-60 | the root of a heap in order is due first |
| TimerHeap.LinkHeap.NextExpiryTimer | timerlinkheap/timerlink.h:53-60 | null exactly for an empty heap, otherwise a stored timer due first |
| TimerHeap.LinkHeap.Add | timerlinkheap/timerlink.c:458-490 | an array heap in order of one timer more, exactly the given one |
| TimerHeap.LinkHeap.Hook | timerlinkheap/timerlink.c:470-487 | the timer goes to the first free slot; the aborts are unreachable |
| TimerHeap.LastSlotAbove | timerlinkheap/timerlink.c:401-406 | unless it is the root, the last slot has a parent and no right sibling |
| TimerHeap.LinkHeap.UnlinkBelow | timerlinkheap/timerlink.c:401-421 | takes the exchanged timer out of the last slot; the parent is there and all three aborts are unreachable |
| TimerHeap.LinkHeap.Remove | timerlinkheap/timerlink.c:364-437 | an array heap in order of one timer less, exactly the given one, also when its time was changed before |
| TimerHeap.LinkHeap.Modify | timerlinkheap/timerlink.c:439-456 | in order again with the same timers |
| TimerWheel.TurnKeepsSlot | timerlinkheap/timerlinkwheel.h:123-128 | a timer not due in this tick keeps its slot when the wheel turns |
| TimerWheel.DueIsHere | timerlinkheap/timerlinkwheel.c:9-16 | a timer due in this tick or overdue is in the current slot |
| TimerWheel.TurnPlaced | timerlinkheap/timerlinkwheel.h:123-128 | turning after an emptied tick keeps every timer in its slot and leaves none before the new time |
| TimerWheel.LinkWheel.constructor | timerlinkheap/timerlinkwheel.h:33-80 | empty heaps with separate memory |
| TimerWheel.LinkWheel.Insert | timerlinkheap/timerlinkwheel.c:7-33 | the timer is in the slot of its time, idx says so, and the other slots are untouched |
| TimerWheel.LinkWheel.Remove | timerlinkheap/timerlinkwheel.h:132-150 | the timer is gone, although its time may have changed since it was added |
| TimerWheel.LinkWheel.Modify | timerlinkheap/timerlinkwheel.h:152-156 | the same timers, all in the slots of their times |
| TimerWheel.LinkWheel.TakeDue | timerlinkheap/timerlinkwheel.h:106-113 | takes a timer due before the end of the tick, and no stored timer of any slot is due earlier, or tells that none is left in the slot |
| TimerWheel.LinkWheel.Perform | timerlinkheap/timerlinkwheel.h:114 | an act of a callback has exactly its effect on the stored timers and their times, and the invariant holds |
| TimerWheel.LinkWheel.FireOne | timerlinkheap/timerlinkwheel.h:106-114 | one stored timer that is due, the first of all, fires and its callback starts, stops and changes timers for later ticks; the due ones become fewer |
| TimerWheel.LinkWheel.Turn | timerlinkheap/timerlinkwheel.h:123-128 | time and index advance; every stored timer is at or after the new time |
| TimerWheel.LinkWheel.Process | timerlinkheap/timerlinkwheel.h:89-130 | ends past the current time; remaining timers are at or after it; the events and their callbacks, replayed, give exactly the stored timers and times; each fired one was stored and due in its tick; all due ones fired unless a callback took them; timers fire in the order of their times |
| TimerWheel.FiresInOrder | timerlinkheap/timerlinkwheel.h:104-115 | over a whole run, whatever the callbacks do, no timer is left that is due before one that has fired |
| TimerWheel.UntouchedStays | timerlinkheap/timerlinkwheel.h:89-130 | a timer that neither fired nor was touched by a callback is stored as before, with its time |
| TimerWheel.FiredIsGone | timerlinkheap/timerlinkwheel.h:113-114 | a timer that fired is not stored unless its own or a later callback adds it again |
| TimerWheel.DueHaveFired | timerlinkheap/timerlinkwheel.h:89-130 | when all stored timers are due later, each earlier one has fired or was touched by a callback |
| SkipList.ChainInsert | timerskiplist/timerskiplist.c:247-254 | linking a timer after a node inserts it in the chain |
| SkipList.ChainDelete | timerskiplist/timerskiplist.c:281-284 | linking past a timer deletes it from the chain |
| SkipList.ChainCut | timerskiplist/timerskiplist.c:457-465 | cutting leaves the later timers after the head and the earlier ones as a chain that ends |
| SkipList.SubInsertBoth | timerskiplist/timerskiplist.c:247-254 | a timer put into two levels at the place for its time keeps the upper one a subsequence of the lower |
| SkipList.SubWithout | timerskiplist/timerskiplist.c:281-284 | and so does taking it out of both |
| SkipList.SubCut | timerskiplist/timerskiplist.c:452-465 | and cutting both at the same time |
| SkipList.LevelFor | timerskiplist/timerskiplist.c:176-183 | the highest level up to the random one that is at most one above those in use, and below 10 |
| SkipList.TimerList.ChooseLevel | timerskiplist/timerskiplist.c:165-184 | the level so limited |
| SkipList.TimerList.GetPrevEntries | timerskiplist/timerskiplist.c:190-203 | on each level the last node that is due by the given time |
| SkipList.TimerList.GetPrevEntriesForNode | timerskiplist/timerskiplist.c:209-224 | on each level the node before the timer if it is there, unless its time is 0 |
| SkipList.TimerList.Add | timerskiplist/timerskiplist.c:231-259 | for every random choice: levels sorted, nested, all in use below the depth, and the timer inserted in the levels up to its own |
| SkipList.TimerList.Remove | timerskiplist/timerskiplist.c:267-293 | for a time above 0 the timer is gone from all levels and the invariant holds; for 0 no link changes, but the cached head time of a first timer becomes that of the second, and the invariant holds exactly if that makes no difference |
| SkipList.TimerList.SplitExpired | timerskiplist/timerskiplist.c:452-465 | cuts off exactly the timers due by now on every level, and the depth follows |
| Rings.PutAppends | queue/queue.c:74-78 | storing at the end index appends, wrap-around included |
| Rings.PutOnFull | alloc/rballoc.h:157-161 | a push on a full ring makes it look empty |
| Rings.TakeRemoves | queue/queue.c:108-113 | reading at the start index removes the oldest |
| Rings.FullIff | queue/queue.h:40-48 | full means that all but one slot are taken |
| Rings.EmptyIff | queue/queue.h:35-38 | equal indices mean empty |
| Rings.RingBuffer.Append | queue/queue.c:74-78 | the ring in memory does the same; a full one looks empty afterwards |
| Rings.RingBuffer.Remove | queue/queue.c:108-113 | the ring in memory does the same and returns the oldest item |
| BlockingQueue.StepKeepsInv | queue/queue.c:59-249 | every step of every thread keeps: one holder of the mutex, no sleeper without a reason, histories equal to the ring |
| BlockingQueue.RunKeepsInv | queue/queue.c:59-249 | so it holds after every run of any number of threads |
| BlockingQueue.WheneverFree | queue/queue.c:59-249 | with the mutex free a sleeping producer means a full ring, a sleeping consumer an empty one, never both; what was enqueued is what was dequeued followed by the contents |
| BlockingQueue.FirstInFirstOut | queue/queue.c:92-249 | the results of all dequeue calls, one after the other, then what a running call has in hand, then the ring, are what was enqueued; a call that did not time out returns what the ring held when it began, up to sz items and at least one |
| BlockingQueue.CallsEnqueueAll | queue/queue.c:127-162 | what the enqueue calls of a thread were given, one call after the other, is what it has enqueued, in order, and the rest of the call under way; nothing is lost, repeated or reordered |
| BlockingQueue.CallsAndTimeouts | queue/queue.c:164-249 | any call may begin outside a call, and a timed wait may end with or without a timeout |
| BlockingQueue.SomeThreadCanStep | queue/queue.c:59-249 | as long as some thread is inside a call and awake, such a thread can go on |
| BlockCache.Size | alloc/rballoc.c:161-171 | the number of cached blocks |
| BlockCache.Fill | alloc/rballoc.c:173-198 | moves blocks in order until the local cache is half full or the shared one empty, and not further |
| BlockCache.Share | alloc/rballoc.c:200-224 | moves blocks in order until the local cache is down to half or the shared one full, and not further |
| BlockCache.Trim | alloc/rballoc.c:225-234 | frees the oldest blocks above half |
| BlockCache.Alloc | alloc/rballoc.h:101-136 | the oldest cached block, own before shared; malloc is asked exactly when both caches are empty, or the local one has no room at all |
| BlockCache.Free | alloc/rballoc.h:138-162 | the surplus is shared, or freed only if the shared cache is full then; half of a full cache stays; the block is cached if there is room, which there always is from capacity 3 on; otherwise the cache looks empty |
| BlockCache.HalvingMakesRoom | alloc/rballoc.h:153-161 | halving a full cache leaves half, so there is room exactly when the capacity is at least 3 |
| BlockCache.MallocOnlyWhenEmpty | alloc/rballoc.h:115-128 | among several threads malloc is asked only if both caches were empty when the thread looked |
| BlockCache.FreedOnlyWhenFull | alloc/rballoc.c:200-234 | among several threads blocks are freed only right after the shared cache was filled |
| BlockCache.ThreadCanStep | alloc/rballoc.h:110-162 | a thread can always go on |
| BlockCache.StepKeepsInv | alloc/rballoc.h:101-162 | a step of any thread leaves every block in exactly one place |
| BlockCache.Conservation | alloc/rballoc.c:161-234 | after any interleaving every block made is in one local cache, the shared cache, handed out, freed or on its way back, and in one only |
| Checksum.FoldMeans | iphdr/ipcksum.h:20-23 | folding keeps the residue modulo 65535, and only zero folds to zero |
| Checksum.ByteOrder | iphdr/ipcksum.h:17-35 | the folded sum swapped to network order is the same on machines of both byte orders |
| Checksum.SumIsWeights | iphdr/ipcksum.c:9-37 | the sum of the words is 256 times the bytes at even places and the bytes at odd places, for every length |
| Checksum.CksumCtx.Feed | iphdr/ipcksum.c:9-37 | adds the sum of all words, odd tail included, without overflow of 32 bits |
| Checksum.CksumCtx.Postprocess | iphdr/ipcksum.h:17-25 | folds, complements and swaps |
| Checksum.Calc | iphdr/ipcksum.c:39-49 | the checksum of RFC 1071 for every length up to 65535 and both byte orders |
| Checksum.StoredVerifies | iphdr/ipcksum.h:101-111 | storing the computed checksum makes the header verify |
| Checksum.SetHdrCksumCalc | iphdr/ipcksum.h:101-111 | aborts exactly if the header length, four times the low half of the first byte, is above the length given; otherwise bytes 10 and 11 hold the checksum of the header, which then verifies, and nothing else changes |
| Checksum.UpdateCksum16 | iphdr/ipcksum.h:213-226 | computes equation 3 of RFC 1624 |
| Checksum.UpdateKeepsVerifying | iphdr/ipcksum.h:213-226 | a header that verified verifies after the change of a word exactly if some word besides the checksum is not zero or the old word and the old checksum were 0xffff |
| Checksum.Update32KeepsVerifying | iphdr/ipcksum.h:228-236 | the same for the 32-bit update of two words |
| Checksum.UpdateIsRecomputation | iphdr/ipcksum.h:213-226 | starting from the computed checksum the update equals recomputation exactly if the rest of the new header is not all zero |
| Checksum.Update32IsRecomputation | iphdr/ipcksum.h:228-236 | the 32-bit update of the computed checksum is the recomputed one exactly if some word of the new header is not zero |
| Checksum.DecrTtl | iphdr/ipcksum.h:374-393 | decrements byte 8 and changes only it and bytes 10 and 11; a header that verified verifies, and a computed checksum becomes the recomputed one, exactly if the new header is not zero besides the checksum, for which a first byte above 0 suffices |
| Checksum.AllZeroFails | iphdr/ipcksum.h:213-226 | the case that fails: clearing the only word that is not zero |
| Bitmap.FillBits | ipfrag/rfc791.c:134-138 | the simple loop sets exactly the bits of the range |
| Bitmap.Fill | ipfrag/rfc791.c:121-155 | the fast fill sets exactly the bits of the simple loop and stays within the 128 words |

## Left out

- Devices, sockets, files, logging, clocks and random numbers (`ldp/`, `netmap/`, `ports/`, `tuntap/`, `log/`, `mypcap/`): times, random choices and answers of the allocator are parameters.
- Header decoding and encoding, except for the checksum: a packet is a record of its decoded fields, and the widths of the fields are part of its type.
- Memory management: packets are values that live as long as something refers to them; which packets are freed is stated only where a context's own nodes depend on it.
- Header fields of the reassembled packet: only its payload is modelled.
- `ipfrag/iprb815.c` and `rbcombo.c`: the tree they embed in the buffer does not keep the red-black rules on deletion, and `rfc815.c` with `rbtree.c` carries the ideas.
- `rfc791ctx_complete` and the rest of `rfc791.c` beyond the fill.
- `tcpreass/`: its end offsets are used both as inclusive and as exclusive.
- Checksums of TCP, UDP and IPv6, which add pseudo headers to the same sums, and the rewriting of TCP options.
- `timerrb/`, `timeravl/`: timer queues on top of the trees that are modelled here.
- `timerwheel/`: a wheel of plain lists with rotation counts; the wheel of heaps admits the stronger statement about when a timer fires.
- The callback and status part of `timer_skiplist_manage`, and the producer's private cache in `queue.h`.
- Hashes, ciphers, random number generators and DNS.
- HoleListContext.CopyPackets: requires that each packet copies within its payload and the limit, because the source does not check it and writes elsewhere otherwise; fragments of one datagram always do.
- HoleListContext.HoleList.Reassemble: the same.
- HoleTreeContext.HoleTree.Reassemble: the same.
- HoleTreeContext.HoleTree.Add: after an overlap under IPv6 the holes are clipped but the packet is not counted, so the holes are then not stated to match a history; the datagram is to be dropped.
- FragmentQueue.Queue.EnqueueOf: for fragments without padding, because the source counts padding as data.
- RoundTrip.ThroughQueue: the same.
- InBufferContext.InBuffer.Add: requires that fragments end at or below 65526, so that a descriptor of eight bytes fits behind the data; fragments of an IPv4 datagram end at or below 65514.
- ComboContext.Combo.Add: the same.
- FragmentQueue.Queue.Enqueue: requires that a packet is at least as long as its headers, because the source links one of negative length otherwise. The flag for a finished queue, which the file never sets, and the statistics of fragment sizes are not modelled.
- TimerWheel.LinkWheel.Process: callbacks act on timers only for later ticks, as one that adds for the current tick may keep the source's loop going for ever. Times are unbounded integers.
- Fragmenter.Fragment4: memory is always there; the source writes through the allocator's answer before it looks at it.
- SkipList.TimerList.Add: the fields `sl_next` are maps per level rather than fields of timer objects.
- BlockCache.Conservation: malloc gives a block a new identity each time, and local capacities are at least 3, see above.
- BlockingQueue.StepKeepsInv: the state of the threads and the ring is a value; `Rings.RingBuffer` is the ring in memory.
