# The runtime library, modelled and proved

A Dafny 4.11 model of the hardest code of the runtime library under `rtl/`: the heap allocator, the critical
section, the AVL table and its enumeration, the LZNT1 codec, bitmap searches, IPv6 text, in-place path collapsing,
access control lists, the atom table and division by multiplication. `dafny verify dfyconfig.toml` checks the whole
project.

## How the code is modelled

**Heap** (`Heap*.dfy`). Addresses and sizes count heap entries of 8 bytes, as in the 32-bit build: a page is 512 of
them and `HEAP_MAX_BLOCK_SIZE` is 0xFE00 (`rtl/heap.h:24`). Block headers are a map from addresses to size,
PreviousSize, busy flag, last-entry flag and segment; a header that is swallowed leaves the map. The 128 free lists
are sequences of addresses, with the bitmap beside them; a segment keeps its sorted list of uncommitted ranges.
`HeapLayout` describes well-formed memory and six transformations of it (mark, join, cut, drop and raise pages, found
a segment); the methods of class `Heap.Heap` write the headers as the source does and are proved to perform them.
`LastEntryInSegment` can go wrong without the validator noticing, so the contracts follow it segment by segment:
`LastSet` is the set of segments whose pointer is right, `Lasts` says which of them an operation loses. `Sound` is the
invariant without the pointer. Every operation keeps a sound heap sound, with one exception: committing pages reads a
header through the pointer, and where no block starts there any more the outcome depends on the bytes. They are a
parameter, `stale`; the contracts say exactly for which bytes the heap survives. The pointer never leaves the
committed memory of its segment (part of the invariant, `Readable`), so that the read itself is never a fault. Sizes
never exceed `MaxBlock + 2`, so the 16-bit casts of the source are exact.
Memory that the system grants is a parameter. What an operation does to the free memory is said without the headers, as
maps from the free blocks to their sizes (`HeapMerge`, `HeapExtend`): which neighbours are swallowed, how a large block
is cut into pieces, which pages are given back, and how the heap grows.

**Critical section** (`CriticalSection.dfy`). A state machine over any number of threads. Every step is one atomic
access to the record (interlocked operation, read, write, wait, signal); the theorems quantify over all sequences of
steps. A waiting thread on an event that is not signalled stays where it is. `CriticalCalls` follows a call from its
first step to its return, whatever the other threads do in between.

**AVL table** (`Avl*.dfy`). Class `AvlTable.Table` over linked records with a sentinel whose parent is itself; a ghost
tree and context describe the links. The link accessors and the parent pointers are plain reads and writes; the
compare routine is the order on integer keys. `AvlEnumeration` is the table as its keys and the position that the
restart key stands for; `Enumerate`, `InsertElement` and `DeleteElement` are proved to be its steps.

**LZNT1** (`Lznt1*.dfy`), **bitmaps** (`Bitmap*.dfy`), **IPv6 text** (`Ipv6*.dfy`), **paths** (`Path*.dfy`), **access
control lists** (`Acl*.dfy`), **atoms** (`Atom*.dfy`) and **magic division** (`MagicDivide.dfy`) each have a
specification on sequences, a method (or, for the division, a function) with the source's branches, and theorems about
the specification. The decoder of LZNT1 is measured by encoders written after the format (`Lznt1Encoding`), the
printer of IPv6 addresses by a description of its text in terms of the words alone (`Ipv6Layout`). Words of a bitmap
are their 32 bits; an IPv6 address is its eight words in host order; the bytes of an ACL start behind its header; the
chains of an atom table are lists of atoms, and the atom is the key of the handle table. The bound test at
`rtl/network.c:612` is read as coming before the access it guards.

## Findings

- Cutting a free block, freeing or growing can leave `LastEntryInSegment` on a block that no longer exists: two
  neighbouring free blocks whose sizes together exceed `HEAP_MAX_BLOCK_SIZE` are put back in pieces, and the pointer
  is not moved. `CutStrands`, `GrowStrands` and `FreeStrands` are the exact conditions on the heap before the call.
  `Heap.AllocateStrands`, `HeapExamples.GrowingStrands` and `HeapExamples.FreeingStrands` show calls that do it, in
  heaps that the validator accepts before and after.
- From there ordinary calls destroy the heap. Committing pages reads the header at `LastEntryInSegment`; if the bytes
  there still say "last" and their size ends at the pages, they are believed (`rtl/heap.c:668-670`), the block that
  really ends the run keeps its last flag, and the new block gets a wrong PreviousSize. `HeapStale.Misled` is the exact
  condition for one segment, `AllocationTears` and `GrowTears` for whole calls; `HeapStale.TornBroken` proves that
  `RtlpValidateHeap` refuses what is left. `HeapExamples.StaleHeaderBelieved` is a run of three calls from a sound heap
  to a refused one: eight bytes are allocated, then the last block, and that is grown by one entry. Growing can
  also repair what it has torn: if the block swallows all the new pages and ends its run, its own last flag is right
  again (`HeapStale.Heals`).
- `RtlpValidateHeap` accepts exactly what `HeapValidate.HeapAccepted` says, which is less than soundness. It sees
  neither `LastEntryInSegment` nor a missing last flag on the final block of a segment; it compares the number and the
  total size of the listed blocks with those of the segments, but not which blocks they are; it does not ask for page
  alignment, for order among the uncommitted ranges, for a busy header block, or that segments do not overlap.
- It does find any single wrong PreviousSize or segment in an entry it visits, any wrong busy flag there, and wrong
  totals (`HeapCorruption`).
- The branch at `rtl/heap.c:2385-2391`, which would count free memory twice, is never reached while the system commits
  what was asked for (`Heap.Heap.GrowIntoPages` has no such path).
- `RtlFindClearBits` cannot find the whole bitmap, and misses nothing else; `RtlFindSetBits` misses nothing. Where the
  size of the bitmap and the number wanted together reach 2^32, the sum in the loop test wraps around, and the search
  may never return. A pass ends exactly when there is a window ahead, or when it comes to a position whose sum with
  the number neither wraps around nor passes the test (`BitmapSearch.EndsExactly`). It does not end on a bitmap of 2^31
  or more bits none of which is wanted, if enough of them are (`BitmapSearch.SearchStalls`), nor with a hint that
  itself wraps around (`BitmapSearch.WrappingHint`).
- `RtlpCollapsePath` applied twice can change a path again: `a\...\b` becomes `a\..\b`, and that becomes `b`.
  `PathText.Steady` is the exact condition on the components of the path.
- A reciprocal rounded down, as the comment at `rtl/largeint.c:160` suggests, divides the divisor by itself to zero;
  `MagicDivide.ExactForAll` is the exact condition on the reciprocal.
- The keys that AVL enumeration returns increase exactly as long as no record is returned while one that was
  inserted too late is pending (`AvlEnumeration.OrderExactly`); reinserting the record last returned after deleting
  it returns it twice.
- The atom hash upcases `a` to `z` only while names are compared with `_wcsicmp`: equal names hash alike exactly when
  the comparison takes no two characters for equal that this upcasing keeps apart (`Atoms.HashAgreesExactly`).
- `RtlValidAcl` looks at the sizes of neither compound nor object entries. Five bytes `5 0 0 0 0` are accepted as any
  number of entries (`AclBytes.ZeroSizeAccepted`); an accepted list is one of whole entries exactly when no compound or
  object entry is shorter than its header (`AclBytes.ListsExactly`).
- A chunk cut off at the end of an LZNT1 buffer is an error even when the room is already full: it goes unnoticed
  exactly when the chunk before it starts behind the room (`Lznt1CutOff.CutOffFound`).
- LZNT1 chunks shorter than 4096 bytes are padded with zeros only when something fits behind the padding: at the end
  of the room, or of the data, it is left out (`Lznt1Stream.Expected`).

## Model

| member | source | states |
|---|---|---|
| `Heap.Heap.constructor` | rtl/heap.c:86-205 | a new heap is sound, its only busy block is the segment header, and LastEntryInSegment is right |
| `Heap.Heap.AllocateHeap` | rtl/heap.c:1953-2196 | the request gets the smallest free block that fits, the last one of the first list in use or the first of list zero, cut to size with at most one entry more, and every other busy block is untouched; what is free afterwards, exactly; no segment changes unless nothing fits, and then the request succeeds exactly when the heap can be extended; exactly when LastEntryInSegment is lost; the heap stays sound, or is refused by the validator, exactly when pages are committed by a stale header; large requests get a virtual block or nothing |
| `Heap.Heap.IndexLeast` | rtl/heap.c:1998-2018 | the size of a block is the least number of entries, at least two, that holds the payload beside its header |
| `Heap.Heap.AllocateDedicated` | rtl/heap.c:2026-2093 | the same through the exact list and the bitmap |
| `Heap.Heap.AllocateNonDedicated` | rtl/heap.c:1800-1943 | the same through the sorted list zero, or by extending the heap |
| `Heap.Heap.ExtendHeap` | rtl/heap.c:1097-1243 | the first segment with pages and a range for the request commits them, or a new one is founded, or neither is possible; the new memory is merged with free neighbours and a block is ready; no right LastEntryInSegment is lost; torn exactly when the segment is misled by a stale header |
| `Heap.Heap.CommitLeast` | rtl/heap.c:1189-1200 | a new segment commits the least whole number of pages that holds the block and one page more, and no less than a segment commits at a time |
| `HeapExtend.CanExtendIs` | rtl/heap.c:1107-1180 | the heap can be extended exactly when some segment has pages and a range for the request, or a new segment may be founded and there is room for one |
| `Heap.Heap.FreeHeap` | rtl/heap.c:2198-2340 | with coalescing on, the freed block swallows the one before it exactly when that is free and fits, then the one behind exactly when that is free and fits with what there is; the result is listed, in pieces if too large, or its whole pages are given back exactly when it and the free memory reach the thresholds; what is free afterwards, exactly; exactly the freed block leaves the busy ones; a sound heap stays sound; LastEntryInSegment is lost exactly under FreeStrands; a block that is not busy changes nothing |
| `Heap.Heap.Shrink` | rtl/heap.c:2825-2920 | the block keeps its address with the size asked for, or one entry more; the rest becomes free together with a free block behind it; soundness; exactly when LastEntryInSegment is lost |
| `Heap.Heap.GrowBlockInPlace` | rtl/heap.c:2342-2584 | success grows this block only, to at most two entries more; it fails without a change; it succeeds exactly when the free block behind is large enough or, for a block that ends its run, when a range of the pages needed starts there and nothing is torn; what is free afterwards, exactly; the exact loss of LastEntryInSegment; the heap stays sound except exactly under GrowTears, and then the validator refuses it |
| `Heap.Heap.ReAllocateInPlace` | rtl/heap.c:2653-2933 | exactly when it succeeds; the block holds the new size afterwards, with at most two entries more, or nothing changed; exactly when LastEntryInSegment is lost, and when a stale header breaks the heap |
| `Heap.Heap.SplitEntry` | rtl/heap.c:1660-1798 | the block is taken with its size, a lone entry is not split off, the remainder is merged with a free neighbour or put back in pieces |
| `Heap.Heap.CoalesceFreeBlocks` | rtl/heap.c:999-1095 | the free block before is swallowed exactly when it ends where the block starts and fits one entry with it, then the one behind exactly when it fits with what there is; where the result starts and ends; counters follow, no other block changes |
| `Heap.Heap.InsertFreeBlock` | rtl/heap.c:318-380 | a block of any size is listed in pieces that tile it, exactly which, no other block changes, and where the second piece starts |
| `HeapMerge.PiecesTile` | rtl/heap.c:340-374 | the pieces tile the block, none exceeds the largest entry size, and none is a lone entry unless the block is one |
| `Heap.Heap.InsertFreeBlockHelper` | rtl/heap.c:250-316 | the block is filed in its list, list zero stays sorted, the bitmap and the sum of free sizes follow |
| `Heap.Heap.RemoveFreeBlock` | rtl/heap.c:382-396 | the block leaves its list, the bitmap and the sum follow |
| `Heap.Heap.DeCommitFreeBlock` | rtl/heap.c:745-888 | exactly the whole pages inside the block leave the committed memory, what is left before and behind them is listed, runs end and begin correctly, and which segment can lose LastEntryInSegment |
| `HeapDecommit.PagesGivenBack` | rtl/heap.c:762-810 | exactly those pages inside the block go back that leave no lone entry of it before or behind them |
| `Heap.Heap.FindAndCommitPages` | rtl/heap.c:611-743 | exactly the requested pages become one free block joined to the run before it, with LastEntryInSegment right again, if and only if no stale header is believed; otherwise what is written, which the validator refuses; failure means no range is large enough |
| `Heap.Heap.FindLast` | rtl/heap.c:668-686 | the block that ends the run, from any LastEntryInSegment, unless the bytes there pass for it |
| `HeapStale.PointerInBlock` | rtl/heap.c:668-670 | LastEntryInSegment always stands in a block of its segment, if not at its start |
| `HeapStale.ReadEnd` | rtl/heap.c:668-670 | a block that passes the test is the end of this run, wherever the pointer came from |
| `HeapStale.TornBroken` | rtl/heap.c:690-722 | after a stale header has been believed the headers are not well formed and the validator refuses them |
| `HeapStale.Reached` | rtl/heap.c:3337-3434 | the validator comes to the block that is wrongly marked last |
| `Heap.Heap.GrowTorn` | rtl/heap.c:2366-2487 | growing over pages committed by a stale header repairs the heap exactly under Heals |
| `Heap.Heap.InitializeHeapSegment` | rtl/heap.c:890-965 | the new segment tiles its committed part and nothing else changes |
| `Heap.Heap.GrowIntoPages` | rtl/heap.c:2366-2397 | pages committed for growing always suffice; the heap breaks exactly under GrowTears |
| `Heap.Heap.Validate` | rtl/heap.c:3463-3617 | RtlpValidateHeap accepts every sound heap |
| `Heap.AllocateStrands` | rtl/heap.c:1775-1794 | a concrete sound heap on which an eight-byte allocation loses LastEntryInSegment |
| `HeapExamples.GrowingStrands` | rtl/heap.c:2518-2541 | a concrete sound heap on which growing a block loses it |
| `HeapExamples.FreeingStrands` | rtl/heap.c:2300-2305 | a concrete sound heap on which freeing a block loses it |
| `HeapExamples.StaleHeaderBelieved` | rtl/heap.c:668-670 | three ordinary calls from a sound heap to one that the validator refuses |
| `HeapValidate.ValidateHeap` | rtl/heap.c:3463-3617 | accepts exactly when lists, bitmap and segments pass, and the free blocks of the segments are as many and as large together as those listed and recorded; every sound heap is accepted |
| `HeapValidate.ValidateHeapSegment` | rtl/heap.c:3281-3461 | accepts exactly the segments whose visited blocks are linked, end their runs at the ranges and match the counters, and counts and sums their free blocks |
| `HeapValidate.OneWalk` | rtl/heap.c:3281-3461 | the entries visited are determined by the segment |
| `HeapCorruption.NothingElse` | rtl/heap.c:3281-3461 | sizes and marks of last entries determine which entries are visited, and what these must say of their neighbour and their segment |
| `HeapCorruption.EntryFound` | rtl/heap.c:3319-3434 | a wrong PreviousSize or segment in a visited entry makes the check fail |
| `HeapCorruption.FlagFound` | rtl/heap.c:3487-3617 | so does a wrong busy flag, whatever TotalFreeSize says |
| `HeapCorruption.TotalFound` | rtl/heap.c:3597-3613 | so does a wrong TotalFreeSize |
| `HeapCorruption.PagesFound` | rtl/heap.c:3449-3458 | so does a wrong number of uncommitted pages |
| `HeapSplit.StrandedExample` | rtl/heap.c:1775-1794 | the concrete heap is whole and meets CutStrands |
| `HeapSplit.PieceAt` | rtl/heap.c:340-374 | a block cut into pieces gets its old boundary back exactly when the second piece starts there and fits |
| `HeapLayout.JoinedLayout` | rtl/heap.c:1034-1091 | swallowing the next block keeps memory well formed |
| `HeapLayout.CutLayout` | rtl/heap.c:1723-1740 | cutting a block keeps memory well formed |
| `HeapLayout.DroppedLayout` | rtl/heap.c:842-887 | removing a page-aligned block and its pages keeps memory well formed, with last flags and zero PreviousSize at the gap |
| `HeapLayout.RaisedLayout` | rtl/heap.c:688-733 | committing pages at the end of a run keeps memory well formed |
| `HeapLayout.DroppedRaised` | rtl/heap.c:688-887 | committing the pages that were dropped restores the headers |
| `HeapLayout.FoundedLayout` | rtl/heap.c:925-961 | a new segment keeps memory well formed |
| `HeapLayout.Tiled` | rtl/heap.c:3319-3447 | every committed entry lies in a block |
| `HeapLayout.TiledOnce` | rtl/heap.c:3319-3447 | and in one block only |
| `HeapUcr.InsertUnCommittedPages` | rtl/heap.c:542-609 | the ranges stay sorted, disjoint and apart, their union grows by exactly the new range, and the count follows |
| `HeapFreeLists.LeastInWord` | rtl/heap.c:31-69 | the table lookup finds the lowest set bit, or 32 |
| `HeapFreeLists.FindList` | rtl/heap.c:2053-2092 | the bitmap scan finds the first list in use from the index on |
| `HeapFreeLists.FoundBest` | rtl/heap.c:2026-2092 | the list found holds the smallest blocks that fit |
| `HeapFreeLists.ZeroBest` | rtl/heap.c:1811-1881 | the first fit of the sorted list is the best fit, if none of the dedicated lists is in use |
| `CriticalSection.MutualExclusion` | rtl/critical.c:484-523 | in every reachable state at most one thread is between its acquisition and its releasing decrement |
| `CriticalSection.OwnerTest` | rtl/critical.c:484-523 | the unsynchronised test of OwningThread succeeds for the true owner only |
| `CriticalSection.OneToken` | rtl/critical.c:693-740 | whenever LockCount is not negative there is exactly one holder, releaser or signalled event; otherwise none |
| `CriticalSection.CounterBalance` | rtl/critical.c:484-780 | LockCount + 1 is the owner's depth plus the entrants that wait |
| `CriticalSection.NoDoubleSignal` | rtl/critical.c:212-248 | the event is never set while it is set |
| `CriticalSection.NoLostWakeup` | rtl/critical.c:111-193 | a waiter with nobody inside or about to signal gets the section |
| `CriticalSection.OneEvent` | rtl/critical.c:48-92 | the creation race leaves one event, shared by all |
| `CriticalSection.EventStays` | rtl/critical.c:48-92 | once shared, the event stays the same over every run |
| `CriticalSection.RecursionIsDepth` | rtl/critical.c:650-675 | a thread is told its own recursion depth |
| `CriticalSection.Quiet` | rtl/critical.c:693-740 | when all have left, the record is as initialised |
| `CriticalSection.StepKeeps` | rtl/critical.c:111-780 | every step of every thread keeps the invariant |
| `CriticalCalls.TryEnterReturns` | rtl/critical.c:756-781 | in every reachable state and whatever the other threads do, RtlTryEnterCriticalSection returns within five steps of its own, with the section exactly when LockCount was -1 at the first step or the caller owned it |
| `CriticalCalls.EnterReturnsOrWaits` | rtl/critical.c:484-523 | RtlEnterCriticalSection returns with the section in the same cases, and otherwise comes to its wait, within seven steps of its own |
| `CriticalCalls.WaitReturns` | rtl/critical.c:111-193 | a waiting thread that finds the event signalled returns with the section within three steps |
| `CriticalCalls.LeaveReturns` | rtl/critical.c:693-740 | RtlLeaveCriticalSection returns within eleven steps of its own with one acquisition less |
| `AvlTable.Table.InsertNode` | rtl/avlsupp.c:208-291 | the record goes in at its place; search order, links, exact balances and DepthOfTree are kept |
| `AvlTable.Table.DeleteNode` | rtl/avlsupp.c:295-393 | exactly this record goes; search order, links, exact balances and DepthOfTree are kept |
| `AvlTable.Table.FindNodeOrParent` | rtl/avlsupp.c:31-95 | the record with the key, or the place where it would hang |
| `AvlTable.Table.InsertElement` | rtl/avltable.c:45-121 | the elements grow by exactly one new key or not at all, and enumeration sees an insertion |
| `AvlTable.Table.DeleteElement` | rtl/avltable.c:297-324 | the elements lose exactly this key, and the restart key moves as enumeration demands |
| `AvlTable.Table.LookupElement` | rtl/avltable.c:149-181 | finds the element with the key, if there is one |
| `AvlTable.Table.Enumerate` | rtl/avltable.c:188-197 | returns the next element in order and moves the restart key |
| `AvlTable.Table.EnumerateWithoutSplaying` | rtl/avltable.c:247-278 | the element behind the restart key, which may stand on the sentinel |
| `AvlTable.Table.EnoughRecords` | rtl/avlsupp.c:208-393 | the recorded depth is at most that of an AVL tree with this many elements |
| `AvlSupport.Rebalance` | rtl/avlsupp.c:127-204 | single and double rotations write the links and balances of the restructured subtree |
| `AvlClimb.Restructure` | rtl/avlsupp.c:127-204 | the restructured subtree has the same order and exact balances, and its height is known |
| `AvlEnumeration.SurvivorsReturnedOnce` | rtl/avltable.c:188-324 | over every run of enumeration, insertion and deletion a record that is not deleted is returned once if it is passed, and otherwise not |
| `AvlEnumeration.CompleteEnumeration` | rtl/avltable.c:188-324 | enumeration run to its end has returned every surviving record |
| `AvlEnumeration.OrderExactly` | rtl/avltable.c:188-324 | the returned keys increase exactly when none is returned while a late insertion is pending |
| `AvlEnumeration.DeletionsKeepOrder` | rtl/avltable.c:188-324 | with deletions only they always increase |
| `AvlEnumeration.ReinsertedReturnedTwice` | rtl/avltable.c:297-324 | a record deleted and inserted again right after it was returned is returned twice |
| `AvlEnumeration.FirstDeletedStartsOver` | rtl/avltable.c:297-324 | deleting the first record parks the restart key on the sentinel |
| `Lznt1.DecompressChunk` | rtl/compress.c:31-92 | the decoder in its buffer yields the expansion of the tokens, cut to the room, and fails exactly on a token cut off or a displacement before the start |
| `Lznt1.RepeatMeaning` | rtl/compress.c:70-77 | overlapping copies repeat: each byte equals the one displacement before it |
| `Lznt1.WidthSuffices` | rtl/compress.c:57-69 | the chosen width can express every displacement inside the output |
| `Lznt1.SmallerIsPrefix` | rtl/compress.c:31-92 | with less room the output is a prefix |
| `Lznt1Encoding.EncodedDecodes` | rtl/compress.c:31-92 | entities encoded after the format, eight to a flag byte, low bit first, with distance less one above length less three in sixteen bits, decode to their expansion, cut to the room |
| `Lznt1Encoding.NotLookedAt` | rtl/compress.c:42-44 | what follows a full group is not looked at once there is no more room |
| `Lznt1Encoding.TooFarBack` | rtl/compress.c:66-68 | a reference to before the chunk makes decoding fail, if there is room for it |
| `Lznt1Encoding.BufferStands` | rtl/compress.c:168-207 | chunks with headers after the format make a sound buffer that stands for their contents, each filled up to 4096 bytes but the last |
| `Lznt1Encoding.StoredIs` | rtl/compress.c:219-248 | the compressor writes plain chunks of 4096 bytes after the format, the last one shorter |
| `Lznt1Buffer.Decompress` | rtl/compress.c:95-216 | for any buffer, offset and room the bytes or the failure that Decoding says, the missing workspace included; a sound buffer yields the requested part of what it stands for, without padding at its end, and the size written |
| `Lznt1Buffer.SoundDecodes` | rtl/compress.c:95-216 | what is decoded from a sound buffer, short chunks and a zero header included, is the part asked for of what it stands for, from any offset |
| `Lznt1CutOff.CutOffFound` | rtl/compress.c:106-178 | a chunk cut off behind sound ones makes decompression fail exactly if the chunk before it starts inside of the room or the offset lies behind that; otherwise it makes no difference |
| `Lznt1Buffer.Compress` | rtl/compress.c:219-248 | writes the stored form, or says that the room is too small exactly when it is |
| `Lznt1Stream.StoredEncodes` | rtl/compress.c:219-248 | the stored form is sound and stands for the input, without padding |
| `Lznt1Stream.TrimmedMeaning` | rtl/compress.c:180-191 | what is left out at the end of the room is zeros, and nothing if no padding lies there |
| `Lznt1Stream.SkipCells` | rtl/compress.c:106-121 | skipping a chunk is skipping 4096 bytes of what the buffer stands for |
| `Lznt1Stream.StoredSize` | rtl/compress.c:219-248 | two more bytes for every 4096 |
| `Lznt1Buffer.RoundTrip` | rtl/compress.c:95-248 | decompressing what was compressed gives the input from any offset, cut to the room |
| `Bitmap.BitMap.GetLengthOfRun` | rtl/bitmap.c:97-203 | the count by words agrees with the count bit by bit |
| `Bitmap.BitMap.SetBits` | rtl/bitmap.c:308-423 | exactly the range changes |
| `Bitmap.BitMap.AreBits` | rtl/bitmap.c:437-467 | true exactly for a window of equal bits, sums that wrap around included |
| `Bitmap.BitMap.FindBits` | rtl/bitmap.c:509-641 | whenever the search returns, a window is found exactly when there is one anywhere, for every hint, but for the whole bitmap of clear bits; it is the first one from the hint on, if the loop test passes there and there is one, and otherwise the first of all |
| `Bitmap.BitMap.FindBitsAndFlip` | rtl/bitmap.c:643-688 | the same window, and exactly its bits change |
| `Bitmap.BitMap.FindNextForwardRun` | rtl/bitmap.c:690-735 | the next run and where it starts |
| `Bitmap.BitMap.FindLongestRun` | rtl/bitmap.c:893-955 | the longest run and its earliest start |
| `BitmapSearch.EndsExactly` | rtl/bitmap.c:536-560 | a pass ends exactly when there is a window ahead or a position visited where the sum neither wraps around nor passes the test |
| `BitmapSearch.SearchStalls` | rtl/bitmap.c:536-560 | bitmaps on which the first pass goes on for ever |
| `BitmapSearch.WrappingHint` | rtl/bitmap.c:536-540 | with a hint that wraps around the first pass never ends |
| `BitmapSearch.AlwaysReturns` | rtl/bitmap.c:509-641 | where size and number stay below 2^32 together, the search returns |
| `Ipv6.Print` | rtl/network.c:559-662 | prints the text of the chosen layout; on the words and the text alone, what that text is, exactly when it has a dot and exactly when it has a double colon |
| `Ipv6Layout.ChosenText` | rtl/network.c:575-645 | the double colon stands for the first run of two or more zero words among those printed in hexadecimal, whole; the compatible, mapped and translated forms are printed only if word 6 is not zero |
| `Ipv6Layout.OneText` | rtl/network.c:575-645 | this description leaves one text for every address |
| `Ipv6Layout.DotExactly` | rtl/network.c:575-645 | dots are printed exactly for IPv4-compatible, -mapped and -translated addresses whose word 6 is not zero, and for ISATAP ones |
| `Ipv6Layout.DoubleColonExactly` | rtl/network.c:607-625 | a double colon is printed exactly for those first three forms, or when two zero words stand in a row among the words printed in hexadecimal |
| `Ipv6Layout.NumChars` | rtl/network.c:634-640 | hexadecimal digits are small letters |
| `Ipv6Text.LayoutStands` | rtl/network.c:575-645 | the chosen layout stands for the address |
| `Ipv6Text.TextFits` | rtl/network.c:24-25 | the text and its NUL fit 46 characters |
| `Ipv6Parse.Parse` | rtl/network.c:806-947 | the text of any layout parses to its eight words and stops at the terminator; any other text without a dot or an x, if it is accepted, is up to the terminator components of one to four hexadecimal digits with at most one double colon, and the words are theirs |
| `Ipv6Parse.ParseDotted` | rtl/network.c:134-163 | a printed dotted quad parses to its four numbers |
| `Ipv6Parse.StringToUlongBase` | rtl/network.c:32-73 | succeeds exactly for digits whose value fits 32 bits |
| `Ipv6RoundTrip.RoundTrip` | rtl/network.c:559-947 | every address prints to text that parses back to it |
| `Path.CollapsePath` | rtl/path.c:306-420 | the buffer holds the collapsed path, zeros behind it, and nothing else changes |
| `PathText.CollapseResolves` | rtl/path.c:306-420 | for tidy components the result is stack resolution with `..` stopping at the mark, the prefix kept, and collapsing again changes nothing |
| `PathText.CollapseAgain` | rtl/path.c:306-420 | exactly when a second application changes nothing, in terms of the components of the path |
| `PathText.CollapseAgainChanges` | rtl/path.c:386-401 | a family of paths that change twice |
| `Acl.AccessList.ValidAcl` | rtl/acl.c:837-964 | accepts exactly the lists whose entries meet every demand |
| `Acl.AccessList.FirstFreeAce` | rtl/acl.c:20-46 | finds where the walk over the entries ends, whatever the list, or fails exactly when an entry starts beyond it; on whole entries it is their end |
| `Acl.AccessList.GetAce` | rtl/acl.c:522-559 | succeeds exactly for a known revision, an index below the count and an entry that starts in the list, and finds it; on whole entries it reads the entry at the index |
| `Acl.AccessList.AddAce` | rtl/acl.c:566-636 | inserts the entries of the list at the smaller of index and count, or refuses for the stated reason without a change, and exactly when the list is still accepted |
| `Acl.AccessList.DeleteAce` | rtl/acl.c:643-670 | removes exactly this entry, zeros the bytes it frees and leaves those behind, and the list is still accepted |
| `Acl.AccessList.AddKnownAce` | rtl/acl.c:90-154 | appends the entry for the SID: what its type, flags, size, mask and SID read back as; the list is still accepted |
| `Acl.KnownAceReads` | rtl/acl.c:141-148 | the type, flags, size, mask and SID of the entry written read back |
| `Acl.AddThenDelete` | rtl/acl.c:566-670 | adding an entry and deleting it restores the entries and the bytes in use |
| `Acl.CountListMeaning` | rtl/acl.c:583-610 | a list is taken exactly when it is whole entries of allowed types |
| `AclBytes.FlatReads` | rtl/acl.c:20-46 | entries written in a row read back |
| `AclBytes.AcesFlat` | rtl/acl.c:20-46 | the entries read are exactly the bytes in use |
| `AclBytes.GoodExactly` | rtl/acl.c:871-952 | what acceptance demands of one entry, in numbers |
| `AclBytes.AllOkIs` | rtl/acl.c:868-952 | acceptance entry by entry |
| `AclBytes.ListsExactly` | rtl/acl.c:929-939 | an accepted list has whole entries exactly when no compound or object entry is shorter than its header |
| `AclBytes.ZeroSizeAccepted` | rtl/acl.c:929-939 | an entry of size zero is accepted as any number of entries |
| `Atoms.RunCounts` | rtl/atom.c:254-575 | over every run names stay unique up to case, and an atom that is not pinned exists exactly while its adds outnumber its deletes, which is its count |
| `Atoms.PinnedStays` | rtl/atom.c:426-575 | a pinned atom stays until the table is emptied with its pinned atoms |
| `Atoms.PinnedFromThere` | rtl/atom.c:426-575 | from the call that pins it on, an atom stays, pinned and with its name and count, until then |
| `Atoms.HashAgreesExactly` | rtl/atom.c:39-82 | for which comparisons equal names hash alike |
| `AtomTable.Table.constructor` | rtl/atom.c:144-190 | a new table is empty and has the number of buckets asked for |
| `AtomTable.Table.HashAtomName` | rtl/atom.c:39-82 | finds the one entry with the name and the link to it, or the end of its chain |
| `AtomTable.Table.Add` | rtl/atom.c:308-418 | one more reference, or a new entry exactly for a name of 1 to 255 characters with a free handle; integer atoms apart; every refusal |
| `AtomTable.DecimalNames` | rtl/atom.c:84-138 | a number sign and a decimal number name the integer atom of its last sixteen bits |
| `AtomTable.Table.Delete` | rtl/atom.c:426-488 | one reference less, or the entry goes; STATUS_WAS_LOCKED exactly for a pinned atom, which stays; hashing its name finds it, so the assertion cannot fail |
| `AtomTable.Table.Lookup` | rtl/atom.c:494-539 | finds the atom with the name, if there is one |
| `AtomTable.Table.Pin` | rtl/atom.c:545-575 | pins this entry, keeps its name and count, and changes nothing else |
| `AtomTable.Table.Empty` | rtl/atom.c:254-301 | exactly the pinned entries are left, as they were, or none |
| `MagicDivide.DivideIs` | rtl/largeint.c:176-219 | the result is the product divided by 2^(64 + shift), rounded toward zero |
| `MagicDivide.NothingWraps` | rtl/largeint.c:203-212 | no intermediate value needs more than 64 bits |
| `MagicDivide.ExactFor` | rtl/largeint.c:150-219 | for which dividends the quotient is exact |
| `MagicDivide.ExactForAll` | rtl/largeint.c:150-219 | which reciprocals divide every dividend exactly |
| `MagicDivide.RoundedDown` | rtl/largeint.c:157-165 | a reciprocal rounded down does not |

## Left out

- Heap: tags, extra data, fills and payload sizes; the HEAP structure's own fields; locks; failing commits and
  decommits; running out of UCR descriptors; SegmentReserve; reallocation that moves the block; the debug and page
  heaps. A virtual block is handed out but not followed further.
- Heap.Heap.AllocateHeap: after a commit that went by a stale header, the headers are those written by the commit; the
  coalescing, which may take the stale bytes for a free block, and the split are not followed.
- Heap.Heap.GrowTorn: the same where the stale bytes pass for a free block or another block follows the pages; whether
  such growth might repair the heap is not followed either.
- Heap.Heap.InitializeHeapSegment: registers the uncommitted range before the free block is inserted; the two steps do
  not read what the other one writes.
- Heap.Heap.CoalesceFreeBlocks: without its Remove parameter, which every caller passes as FALSE.
- Critical section: spin counts, timeouts, the deadlock exception, debug records, the process shutdown override and
  keyed events; deletion.
- AvlTable.Table.InsertElement: the user data, its compare routine and the allocation routine beyond success or
  failure.
- RtlLookupFirstMatchingElementGenericTableAvl and duplicate keys under other compare routines.
- Bitmap.BitMap.FindBits: asks that the search returns at all, which EndsExactly settles; bitmaps of the last two words
  of the index range; RtlFindClearRuns, RtlNumberOfSetBits and RtlFindLastBackwardRunClear.
- Ipv6Parse.Parse: which texts other than printed ones are accepted, beyond what they must look like without an embedded
  IPv4 address or a 0x; scopes, ports and the ANSI forms.
- Path.CollapsePath: marks that do not lie just behind a separator.
- Acl: RtlCreateAcl, object entries and the query functions. The values of the ACL, ACE and SID constants come from the
  Windows headers, which are not part of this model.
- Acl.AccessList.AddAce: accepted lists with compound or object entries shorter than their headers, whose bytes belong
  to several entries, so that DeleteAce and AddKnownAce leave them out too; its overlapping copy is taken as a move.
- Acl.AccessList.GetAce: lists in which a header that is read lies partly beyond the list; FirstFreeAce too.
- Atoms: the handle table gives any free handle from 0xC000 on or none; RtlQueryAtomInAtomTable, destruction and locks.
  The 16-bit reference count and RTL_MAXIMUM_ATOM_LENGTH come from headers that are not part of this model.
- AtomTable.Table.Add: folds ASCII letters only; HashAgreesExactly says what any other comparison must meet.
- MagicDivide.DivideIs: the most negative dividend, whose negation at `rtl/largeint.c:190` overflows, which C leaves
  undefined.
- Lznt1Buffer.Decompress: what is in the buffer behind the bytes written, or after a failure; the byte order of headers
  is that of the 32-bit build.
