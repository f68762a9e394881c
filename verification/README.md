# Verified model of the n7OS allocator, library and kernel core

A Dafny 4.11 project that models the core of n7OS and proves what its parts
promise, for all inputs and over whole runs. It covers

- the dlmalloc 2.7.2 allocator of `lib/malloc.c` on `kernel/sbrk.c`: one flat
  memory of boundary-tagged chunks, fastbins, unsorted list, bins and bitmap,
  with malloc, free, realloc, memalign and mallinfo written as the source has
  them, and a client for which the allocator is indistinguishable from a store
  without addresses (`malloc`, `free`, `realloc` as in sections 7.22.3.3 to
  7.22.3.5 of ISO C11);
- 64-bit division from `divl`, the "Not So Naive" search, and formatted
  printing with the two parsers that undo it (sections 7.21.6.1 and 7.22.1.4 of
  ISO C11, with the deviations of the source);
- the round-robin scheduler with its context switch and tick counter, the
  keyboard ring, the console and the line editor, and paging with the page
  bitmap (section 4.3 of the Intel SDM, volume 3A).

## How it is laid out

| file | what it holds |
|---|---|
| `MachineWord` | the 32-bit word |
| `SizeClasses`, `Alignment` | request, chunk and bin arithmetic; powers of two |
| `HeapShape`, `BoundaryTags`, `BinLists`, `FastBins`, `BinMap` | the layers of the heap: tiling, tags, lists, fastbins, bitmap |
| `HeapSteps`, `BestFit`, `Accounting`, `Fragmentation` | single steps on the whole heap, best fit, conservation, how much holes can hold |
| `Selection` | which chunk malloc owes to a request |
| `Malloc`, `HeapClient` | the allocator itself; whole runs |
| `Div64`, `Memmem` | `lib/div64.c`; `memmem` and `memcmp` of `lib/string.c` |
| `Numerals`, `Strtol`, `Literals` | digits, `strtol` and `strtoul`, the texts they take |
| `PrintNumber`, `Directives`, `Doprnt`, `Formats` | printing, its round trip with the two, whole formats |
| `RoundRobin`, `Processes` | the scheduler as a state machine; the process table and stacks |
| `Keyboard`, `Console`, `ReadLine` | the ring, the screen, `sys_read` |
| `PhysicalMemory`, `Paging` | page bitmap and bump heap; directory, tables and walk |

The allocator's invariant is `HeapSteps.HeapInv`: chunks tile the region, each
tag tells the truth about its neighbour, every free chunk is in exactly the list
of its size (or the unsorted list), lists are proper rings in size order, and no
two free chunks touch each other or top. `FastInv` says the same of the
fastbins, `Region` ties both to `av_` and to the break. The ghost fields `s`,
`bins` and `fast` of the allocator are the picture the memory words stand for.
The configuration is the one of the i386 build: SIZE_SZ 4, alignment 8, MINSIZE
16, no mmap.

Where the code and its own documentation disagree the code is modelled and the
exact condition is proved: `TiesFifoUnlessSmallest` (order of equal chunks),
`MemalignAsksEnough` (wrapping request), `DoublingEnds` (an alignment that is
never found), `DoDiv64` (divisors that fault), `PlusNotRead` and
`PointerRoundTrip` (numerals not read back), `StringFieldLength` (a field one too
short), `LowerCase` (no capitals), `PrintedStays` (a character erased at once),
`AllocPageEntry` (user access never granted), and `AllocAny` with `NextTable`
(frames that are tables at the same time). Concrete inputs are in
`SecondTakenFirst`, `WrappingRequest`, `DoublesForEver`, `AllOnesFault`,
`StringFieldShort`, `LostAfterFormFeed` and `BootThenNewTable`.

`dafny verify dfyconfig.toml` checks the project.

## Model

| member | source | states |
|---|---|---|
| `SizeClasses.Request2Size` | lib/malloc.c:480-498 | the chunk size for a request is legal, holds the request beside its header word, and is the smallest legal size that does |
| `SizeClasses.RetryAsksForSameSize` | lib/malloc.c:1406-1410 | the request made after consolidating (nb less the alignment mask) pads back to the same chunk size, in range if nb was |
| `SizeClasses.PortableTopBitIsBsr` | lib/malloc.c:677-707 | the branch-free computation of the top bit agrees with `bsrl` on every value either is used for |
| `SizeClasses.BinIndexInRange` | lib/malloc.c:668-714 | every size has a bin between 2 and 95, below 32 exactly for the small sizes |
| `SizeClasses.BinIndexMonotone` | lib/malloc.c:671-714 | a larger size never has a lower bin, over all sizes and across the small/large border |
| `SizeClasses.LaterBinFits` | lib/malloc.c:2097-2151 | whatever lies in a later bin than the request is larger than it, so the first chunk found there needs no size check |
| `SizeClasses.SmallbinExact` | lib/malloc.c:1935-1948 | two legal sizes with the same small bin are equal, so small-bin fits are exact |
| `SizeClasses.LargebinSpan` | lib/malloc.c:677-711 | each quarter of a power of two from 256 to 2^24 has a large bin of its own, which holds exactly the sizes of that quarter |
| `SizeClasses.LastBin` | lib/malloc.c:681 | the last bin holds exactly the sizes from 14 MB on |
| `HeapShape.Predecessor` | lib/malloc.c:533-536 | every chunk boundary but the base is the end of exactly one chunk that is not top |
| `HeapShape.MergeTiled` | lib/malloc.c:2276-2326 | fusing any run of whole chunks leaves a region tiled by legal chunks with top last |
| `HeapShape.SplitTiled` | lib/malloc.c:2083-2092 | cutting a chunk in two leaves the region tiled; the upper part is a new boundary |
| `HeapShape.GrowTopTiled` | lib/malloc.c:1580-1589 | more memory at the end makes top larger and keeps the tiling |
| `BoundaryTags.HeadDetermined` | lib/malloc.c:398-441 | picture and tags determine every size word: two memories tagged for the same picture agree on all headers |
| `BoundaryTags.StepBack` | lib/malloc.c:2276-2283 | a clear P bit leads by prev_size to the free chunk in front, and to nothing else |
| `BoundaryTags.TagsLocal` | lib/malloc.c:506-571 | if the chunks of a run are tagged right and its first header kept its P bit, all tags of the heap are right |
| `BoundaryTags.RelinkKeepsTags` | lib/malloc.c:638-643 | rewriting fd and bk words of headers and chunks disturbs no boundary tag |
| `BoundaryTags.RelinkSparesUsers` | lib/malloc.c:638-643 | relinking free chunks touches no word of a block in use |
| `BinLists.UnlinkRings` | lib/malloc.c:638-643 | unlink keeps every circular list closed, doubly linked and free of repetitions, and removes just that chunk |
| `BinLists.InsertRings` | lib/malloc.c:2046-2052 | the four stores of an insertion keep every list well formed and add just that chunk at that place |
| `BinLists.ListedInsert` | lib/malloc.c:2019-2052 | after an insertion at the right place each entry is still a chunk of its bin and the bin is still in size order |
| `BinLists.ListsAcross` | lib/malloc.c:2276-2326 | fusing or cutting a run none of whose chunks is listed leaves all lists right |
| `BinMap.MarkedCovers` | lib/malloc.c:785-794 | marking a bin keeps "a clear bit means an empty bin" |
| `BinMap.UnmarkEmpty` | lib/malloc.c:2133-2138 | clearing the bit of an empty bin keeps "a clear bit means an empty bin" |
| `BinMap.ClearedOne` | lib/malloc.c:2131-2138 | clearing a bit clears that one: all bits up to there are clear then and every other bit is as it was |
| `BinMap.RestOfWord` | lib/malloc.c:2105-2125 | the test `bit > map` or `bit == 0` is right: either no bin is marked from here on in the word, or shifting reaches a marked one |
| `FastBins.FastPush` | lib/malloc.c:2260-2264 | a freed small block becomes the head of the fastbin of its size and nothing else changes in the fastbins |
| `FastBins.FastPop` | lib/malloc.c:1914-1922 | the head of a fastbin is a parked chunk of that size class and leaves it |
| `HeapSteps.MergeStep` | lib/malloc.c:2276-2326 | fusing an unlisted run keeps picture, tags, lists and full coalescing |
| `HeapSteps.SplitStep` | lib/malloc.c:2083-2092 | cutting an unlisted chunk keeps picture, tags, lists and full coalescing |
| `HeapSteps.FreeHasPrevInuse` | lib/malloc.c:1057-1181 | the chunk before a free chunk, and before top, is in use: full coalescing as the P bit sees it |
| `HeapSteps.StepEnd` | lib/malloc.c:2276-2326 | after a step on a run every free chunk is listed again and every other block in use kept all its words |
| `HeapSteps.PushStep` | lib/malloc.c:2260-2264 | parking a block keeps the whole invariant and all other payloads |
| `HeapSteps.PopStep` | lib/malloc.c:1914-1922 | taking the head of a fastbin keeps the whole invariant |
| `HeapSteps.WholeStep` | lib/malloc.c:2076-2080 | handing out a whole free chunk keeps the invariant and adds exactly that block |
| `HeapSteps.UseRunStep` | lib/malloc.c:2632-2635 | turning a used block and what follows it into one block keeps the invariant and every payload |
| `HeapSteps.CutBlockStep` | lib/malloc.c:2636-2642 | cutting a used block into two used blocks keeps the invariant, other payloads and the lower part |
| `HeapSteps.GrowIntoTopStep` | lib/malloc.c:2549-2558 | a block that takes the front of top keeps the invariant and all payloads |
| `HeapSteps.UserWriteStep` | lib/malloc.c:380-404 | whatever its owner writes into a block, the invariant holds and no other block changes |
| `BestFit.LowestBinBest` | lib/malloc.c:2097-2151 | the last chunk that fits of the lowest bin with a fit is a smallest fit of the whole heap |
| `BestFit.PassWord` | lib/malloc.c:2111-2121 | skipping a map word without marked bins skips no chunk that fits |
| `BestFit.TiesFifoUnlessSmallest` | lib/malloc.c:611-616 | ties are first in, first out exactly when the newcomer is not of the smallest size in its bin; the documentation says always, and `size < bck->bk->size` (line 2033) compares with the P bit set, so an equal smallest chunk goes to the back |
| `BestFit.SecondTakenFirst` | lib/malloc.c:2019-2045 | two chunks of 1024 bytes: the only place for the second is behind the first, so it is taken first |
| `BestFit.AllFreeIsTop` | lib/malloc.c:591-602 | with nothing in use and nothing parked the region is one top chunk |
| `Malloc.Allocator.constructor` | lib/malloc.c:898-964 | at boot nothing is held and the state is valid, whatever memory holds besides the zeroed statics |
| `Malloc.Allocator.Unlink` | lib/malloc.c:638-643 | takes the chunk out of its list; tags, the other lists and every payload stay |
| `Malloc.Allocator.LinkBetween` | lib/malloc.c:2048-2052 | puts the chunk at that place of its list; everything else stays |
| `Malloc.Allocator.Shelve` | lib/malloc.c:2298-2312 | a fused run becomes one free chunk at the front of the unsorted bin, with header and foot |
| `Malloc.Allocator.JoinTop` | lib/malloc.c:2315-2326 | a fused run that borders top becomes part of it |
| `Malloc.Allocator.ConsolidateBackward` | lib/malloc.c:2276-2283 | fuses with the chunk in front exactly when that is free |
| `Malloc.Allocator.ConsolidateForward` | lib/malloc.c:2285-2294 | fuses with the chunk behind exactly when that is free |
| `Malloc.Allocator.Release` | lib/malloc.c:2266-2326 | the freed chunk and its free neighbours become one free chunk or part of top; the heap is coalesced, tagged and listed again |
| `Malloc.Allocator.FreeFast` | lib/malloc.c:2256-2264 | a small block is parked at the head of its fastbin: it is held no more, both flags are set, all other blocks keep their words |
| `Malloc.Allocator.FreeSlow` | lib/malloc.c:2266-2352 | the consolidating half of free: the block is fused with what is free around it; when that makes 128 KB or more nothing stays parked, otherwise nothing else changes |
| `Malloc.Allocator.Free` | lib/malloc.c:2221-2370 | free of null does nothing; a block of at most max_fast is parked at the head of its fastbin and nothing else moves; any other is fused with exactly its free neighbours, to the front of the unsorted list or into top, and past the threshold nothing stays parked; all other blocks keep their words |
| `Malloc.Allocator.ConsolidateOne` | lib/malloc.c:2428-2478 | one turn: the head of the chain is fused into the heap, the rest of the chain is intact |
| `Malloc.Allocator.ConsolidateAll` | lib/malloc.c:2409-2478 | all fastbins are emptied into the heap, the fastchunks flag is clear, no block changes |
| `Malloc.Allocator.MallocInitState` | lib/malloc.c:977-1007 | every bin is an empty ring and the unsorted header stands in for top |
| `Malloc.Allocator.MallocConsolidate` | lib/malloc.c:2389-2484 | initialises a zeroed state, otherwise empties the fastbins; blocks and their words are unchanged |
| `Malloc.Allocator.RemoveLast` | lib/malloc.c:2008-2010 | the last chunk of a bin leaves it |
| `Malloc.Allocator.UseWhole` | lib/malloc.c:2014-2018 | the whole chunk becomes a block; its successor learns of it |
| `Malloc.Allocator.UseSplit` | lib/malloc.c:1994-2004 | the lower nb bytes become a block, the rest is the only unsorted chunk |
| `Malloc.Allocator.FindPlace` | lib/malloc.c:2024-2044 | finds the place that keeps a large bin sorted; the walk has no end test and still stops before the header |
| `Malloc.Allocator.ChoosePlace` | lib/malloc.c:2020-2044 | the bin of a size and neighbours that keep it in order |
| `Malloc.Allocator.PlaceInBin` | lib/malloc.c:2019-2052 | the chunk is listed in the bin of its size, the bin is marked |
| `Malloc.Allocator.UnsortedTurn` | lib/malloc.c:1975-2053 | one turn over the unsorted bin: an exact fit is handed out, or part of the last remainder when it is the only unsorted chunk and nothing fits exactly, else the chunk is binned |
| `Malloc.Allocator.ProcessUnsorted` | lib/malloc.c:1975-2053 | ends with a block or an empty unsorted bin; no block changes |
| `Malloc.Allocator.NextBlock` | lib/malloc.c:2115-2121 | the next map word with a marked bin; the words passed are zero and their bins empty |
| `Malloc.Allocator.LeaveWord` | lib/malloc.c:2111-2121 | when no bin is marked from here on in the word, the next word that has any, or none is left; nothing that fits was passed |
| `Malloc.Allocator.AdvanceToBit` | lib/malloc.c:2123-2127 | the lowest marked bin of the word from here on; the bits passed are clear and their bins empty |
| `Malloc.Allocator.ClearFalseAlarm` | lib/malloc.c:2131-2138 | clears the bit of a bin found empty and no other, and keeps the map sound |
| `Malloc.Allocator.SearchBins` | lib/malloc.c:2105-2140 | terminates with the lowest non-empty bin above idx, all in between being empty, or when all bins above are empty; nothing that fits was passed, and exactly the bits of the bins passed are clear afterwards |
| `Malloc.Allocator.Carve` | lib/malloc.c:2076-2092 | the chunk found is handed out whole or split, and was a smallest fit |
| `Malloc.Allocator.ScanOwnBin` | lib/malloc.c:2065-2094 | a large request gets the smallest fit of its own bin, or there is none |
| `Malloc.Allocator.TakeFast` | lib/malloc.c:1913-1922 | an exact block from the fastbin, and null exactly when it has none or the size is no fastbin size |
| `Malloc.Allocator.TakeSmall` | lib/malloc.c:1935-1948 | an exact block from the small bin, if it has one |
| `Malloc.Allocator.TakeAbove` | lib/malloc.c:2096-2178 | a smallest fit from the bins above, or nothing in the heap fits |
| `Malloc.Allocator.Search` | lib/malloc.c:1913-2178 | each kind of chunk has its turn: parked ones of the size first, then the last of the small bin, the first exact fit of the unsorted list or the last remainder, then the smallest fit; the block is the one that is due, or nothing is due and no listed chunk fits |
| `Malloc.Allocator.Sbrk` | kernel/sbrk.c:3-10 | moves the break by diff or fails: never below where it was nor past the end |
| `Malloc.Allocator.UseTop` | lib/malloc.c:2200-2207 | the block starts where top did, the rest is top |
| `Malloc.Allocator.GrowBy` | lib/malloc.c:1580-1589 | sbrk succeeds exactly while memory is left, and then top grows by that much |
| `Malloc.Allocator.ExtendTop` | lib/malloc.c:1515-1589 | top is made larger by exactly what was missing, rounded to pages, or sbrk refused just that |
| `Malloc.Allocator.AlignRegion` | lib/malloc.c:1640-1678 | the first region starts aligned and ends on a page boundary if there is memory up to one, else where the request ends |
| `Malloc.Allocator.FirstTop` | lib/malloc.c:1479-1715 | the first call opens the region as one top chunk of exactly that size, or fails for lack of memory |
| `Malloc.Allocator.Extend` | lib/malloc.c:1479-1768 | after getting memory top has room and still nothing listed fits, or memory is exhausted |
| `Malloc.Allocator.Sysmalloc` | lib/malloc.c:1371-1791 | serves the request from fresh memory after consolidating; the retry terminates since the fastchunks flag is then clear |
| `Malloc.Allocator.UseTopOrSystem` | lib/malloc.c:2180-2213 | from use_top on: top is used only when no listed chunk fits |
| `Malloc.Allocator.Malloc` | lib/malloc.c:1868-2214 | a new block of at least the padded and less than 16 bytes more, aligned and disjoint, and the one that is due: head of its fastbin, last of its small bin, exact unsorted fit, last remainder, smallest fit, top, in this order, after consolidating exactly when that is due; or null, and then the request was out of range or nothing fits and sbrk has not enough; last_remainder, the break and other blocks are as they must be |
| `Malloc.Allocator.ReuseParked` | lib/malloc.c:1913-1923 | a small block that is freed is the one the next malloc of its size returns |
| `Malloc.Allocator.ServeFresh` | lib/malloc.c:2180-2213 | what is served from top or fresh memory was due to nobody else |
| `Selection.TurnServed` | lib/malloc.c:1975-2053 | what one turn over the unsorted list hands out is what the whole list owed: the chunks passed before are no exact fits |
| `Selection.TopServed` | lib/malloc.c:2180-2213 | top serves exactly what neither search, before and after consolidating, could |
| `Selection.SearchServed` | lib/malloc.c:1958-2178 | what the search finds was not left to consolidation |
| `Malloc.Allocator.Systrim` | lib/malloc.c:1806-1862 | releases nothing, since this sbrk refuses to shrink |
| `Malloc.Allocator.CopyWord` | lib/malloc.c:2602-2606 | copies word k; the words behind it, all other blocks and the heap stay |
| `Malloc.Allocator.CopyBlock` | lib/malloc.c:2587-2617 | copies exactly the odd number of payload words, by memcpy or unrolled; the rest of the new block stays as it was |
| `Malloc.Allocator.FitBlock` | lib/malloc.c:2628-2643 | the block is cut to size, the rest freed, if a chunk can be cut off |
| `Malloc.Allocator.GrowIntoTop` | lib/malloc.c:2549-2558 | the block takes the front of top; its words stay |
| `Malloc.Allocator.GrowIntoNext` | lib/malloc.c:2561-2567 | the block takes the free chunk behind it; its words stay |
| `Malloc.Allocator.MoveBlock` | lib/malloc.c:2587-2621 | the words move to the new block and the old one is freed |
| `Malloc.Allocator.MoveOrMerge` | lib/malloc.c:2570-2621 | a larger block with the same words, elsewhere by the order of malloc or grown into the new neighbour; null leaves everything as it was |
| `Malloc.Allocator.GrowBlock` | lib/malloc.c:2545-2622 | in place into top when that is behind the block and large enough, in place into the free chunk behind it when both suffice, and only else elsewhere; the words and the invariant are kept |
| `Malloc.Allocator.Realloc` | lib/malloc.c:2489-2647 | the block stays where it is whenever it is large enough, or top or the free chunk behind it has the room, with exactly the size it must then have; else the new block is the one malloc owes; a refusal means none of this was possible and changes nothing; the common prefix of old and new usable size is kept on every path and other blocks are untouched |
| `Alignment.OneBitTest` | lib/malloc.c:2742-2743 | `a & (a - 1)` is zero exactly for powers of two |
| `Alignment.DoublingEnds` | lib/malloc.c:2744-2745 | the doubling loop ends if and only if the alignment is at most 2^31; beyond, the doubled word becomes 0 and stays there |
| `Alignment.DoublesForEver` | lib/malloc.c:2744-2745 | an alignment of 0x80000001 is never reached |
| `Alignment.WrappingRequest` | lib/malloc.c:2757-2759 | 16-byte alignment of 2^32 - 40 bytes asks malloc for 0 bytes |
| `Alignment.MaskedUp` | lib/malloc.c:2775-2776 | the mask -alignment leaves the last multiple of the alignment at or below m + alignment - 1 |
| `Alignment.MaskRoundsDown` | lib/malloc.c:2775-2777 | masking with the negated power of two rounds down to a multiple of it |
| `Alignment.CeilIsPow2` | lib/malloc.c:2742-2747 | the granted alignment is the smallest power of two that will do |
| `Alignment.RoundAlignment` | lib/malloc.c:2739-2747 | computes the granted alignment for requests up to 2^31 |
| `Alignment.AlignedSpotFacts` | lib/malloc.c:2775-2781 | the spot is aligned, leaves a legal chunk in front and starts at most alignment + 8 later |
| `Alignment.SpotIsFirst` | lib/malloc.c:2775-2781 | the spot computed by masking is the first multiple of the alignment that leaves no lead or a legal one |
| `Alignment.MemalignAsksEnough` | lib/malloc.c:2757-2759 | the padded request leaves room for an aligned block if and only if its 32-bit sum does not wrap, which the source does not check |
| `Malloc.Allocator.GiveBackLead` | lib/malloc.c:2791-2796 | the lead is freed, the rest is the block |
| `Malloc.Allocator.GiveBackTail` | lib/malloc.c:2803-2812 | spare room of more than MINSIZE at the end is freed, and the block then has exactly the padded size |
| `Malloc.Allocator.AlignBlock` | lib/malloc.c:2763-2815 | an aligned block inside the padded one, at the first spot there is, both ends given back |
| `Malloc.Allocator.Memalign` | lib/malloc.c:2718-2817 | a new block at the first aligned spot of the padded block that malloc owes, of at least the padded size and at most 16 bytes more, or null for lack of memory; other blocks keep their words |
| `Accounting.TilesFrom` | lib/malloc.c:1057-1181 | the chunks from any boundary on add up to the rest of the region |
| `Accounting.ConservedSpace` | lib/malloc.c:3161-3190 | used, parked, binned chunks and top make up exactly the region |
| `Malloc.Allocator.CountFast` | lib/malloc.c:3169-3174 | number and total size of one fastbin |
| `Malloc.Allocator.CountRing` | lib/malloc.c:3179-3185 | number and total size of one bin |
| `Malloc.Allocator.Mallinfo` | lib/malloc.c:3144-3190 | uordblks, computed by subtraction, is the total size of the blocks users hold; usmblks, the high-water mark, equals arena, since this sbrk never shrinks; the other fields are what their names say |
| `Malloc.Allocator.NothingHeld` | lib/malloc.c:591-602 | when every block was freed and the fastbins consolidated, the heap is one top chunk |
| `Malloc.Allocator.HugeExhausted` | lib/malloc.c:1515-1536 | a request beyond 2^31 can only fail |
| `Malloc.Allocator.Write` | lib/malloc.c:380-404 | a user store changes that word of that block and nothing else |
| `Fragmentation.HolesFrom` | lib/malloc.c:591-602 | when nothing free fits a request, free chunks hold less than that size per block in use: full coalescing leaves at most one in front of each |
| `Malloc.Allocator.RefusedWhenFull` | lib/malloc.c:1515-1536 | malloc says no only when the blocks in use, one hole smaller than the request in front of each of them and of top, and the request rounded up to a page exceed the memory there is |
| `HeapClient.LentBounds` | lib/malloc.c:1868-2214 | the blocks behind a set of names are no more and no larger than what was asked for under them tells |
| `HeapClient.Client.constructor` | lib/malloc.c:898-964 | a client that holds nothing |
| `HeapClient.Client.Allocate` | lib/malloc.c:1868-2214 | behaves like the ideal store; refuses only a name in use, a size out of range, or when memory is crowded: lent blocks, one hole per block and the request exceed it |
| `HeapClient.Client.AllocateAligned` | lib/malloc.c:2718-2817 | the same with an alignment, which the address has |
| `HeapClient.Client.Resize` | lib/malloc.c:2489-2647 | the same for realloc: words within both sizes survive |
| `HeapClient.Client.Release` | lib/malloc.c:2221-2370 | the same for free |
| `HeapClient.Client.Store` | lib/malloc.c:380-404 | a store within the bytes asked for is remembered |
| `HeapClient.Client.Load` | lib/malloc.c:380-404 | reading a remembered word gives what was stored last |
| `HeapClient.Client.LeasesApart` | lib/malloc.c:395-404 | any two blocks on loan are 8-aligned and disjoint over the bytes asked for |
| `HeapClient.Client.Run` | lib/malloc.c:1868-2817 | over every script of requests the allocator refines an ideal store without addresses, and every refusal along the way is of a misused name, an impossible size, or with memory crowded as computed from the ideal store alone; its invariant holds throughout |
| `Div64.DivlFaults` | lib/div64.c:25-26 | `divl` faults exactly when the upper word is not below the divisor |
| `Div64.ShiftIsDivision` | lib/div64.c:18-23 | the shift macros divide by a power of two for all counts from 1 to 32, count 32 included |
| `Div64.Estimate` | lib/div64.c:36-40 | the first quotient is never too large and at most two too small |
| `Div64.Operands` | lib/div64.c:36-38 | divisor cut to its 32 leading bits, dividend shifted alike |
| `Div64.EstimateQuotient` | lib/div64.c:36-40 | faults exactly when the 32 leading bits of the divisor are all ones, else the estimate |
| `Div64.Correct` | lib/div64.c:41-48 | at most two corrections give the exact quotient and remainder |
| `Div64.DoDiv64` | lib/div64.c:28-64 | x = q*y + r with r < y for every y > 0 but the divisors that fault, which are exactly those of 33 bits and more with 32 leading ones; y = 0 gives 0 and x; at most two corrections |
| `Div64.AllOnesFault` | lib/div64.c:36-40 | 2^64 - 1 faults, and does not once its 32nd bit from the top is cleared |
| `Div64.TwoCorrections` | lib/div64.c:43-46 | two corrections do occur |
| `Memmem.Memcmp` | lib/string.c:83-95 | 0 exactly for equal bytes, else the difference at the first byte that differs |
| `Memmem.SkipMismatch` | lib/string.c:239-250 | the skip after a mismatch of the second byte passes no occurrence |
| `Memmem.SkipMatch` | lib/string.c:251-256 | the skip after a match of the second byte passes no occurrence |
| `Memmem.FindLong` | lib/string.c:238-257 | the first occurrence of a needle of two bytes or more, if and only if there is one |
| `Memmem.FindByte` | lib/string.c:258-263 | the first occurrence of a one-byte needle |
| `Memmem.Find` | lib/string.c:228-266 | the first occurrence, or NULL exactly when the needle is empty or does not occur; every access is in bounds |
| `Numerals.DigitsValue` | lib/doprnt.c:559-563 | evaluating the printed digits gives the number back |
| `Numerals.NoLeadingZero` | lib/doprnt.c:559-563 | only 0 is printed with a leading zero |
| `Strtol.SignedStep` | lib/strtol.c:47-54 | computing with wrapped values gives the wrapped value of the exact computation |
| `Strtol.Strtol` | lib/strtol.c:21-62 | the value of the subject sequence wrapped to 32 bits, and where it ends; no read passes the NUL |
| `Strtol.Strtoul` | lib/strtoul.c:21-56 | the same, unsigned |
| `Literals.EitherCase` | lib/strtol.c:47-54 | a character is the digit d of a base up to 36 exactly when it is the d-th digit or letter in either case |
| `Literals.CaseBlind` | lib/strtol.c:47-54 | the case of its letters changes neither the value of a numeral nor whether it is one |
| `Literals.LiteralRead` | lib/strtol.c:26-62 | any of the six blanks, a minus sign, the prefix by which a numeral tells its base (0x or 0X; with no base given a leading zero for 8, else 10) and digits of any base up to 36 are read as the number they mean, ending right behind them; strtoul reads the same without a sign |
| `Literals.TellsItsBase` | lib/strtol.c:32-45 | what the # flag prints of any number in base 8, 10 or 16 is read back by strtol with no base given |
| `PrintNumber.FieldLength` | lib/doprnt.c:543-607 | the field is exactly as wide as asked, or as sign, prefix, precision and digits need |
| `PrintNumber.SignedRoundTrip` | lib/strtol.c:21-62 | for every flag but +, width and precision strtol reads back what a signed conversion prints, ending past the last digit |
| `PrintNumber.UnsignedRoundTrip` | lib/strtoul.c:21-56 | the same for unsigned conversions and strtoul, with any flag |
| `PrintNumber.PlusNotRead` | lib/strtol.c:28-31 | with the + flag the round trip works exactly for negative numbers; else strtol returns 0 and stops at the sign |
| `PrintNumber.PointerRoundTrip` | lib/doprnt.c:469-485 | %p is read back exactly unless # repeats the prefix of a nonzero pointer |
| `Directives.ScanDirective` | lib/doprnt.c:214-274 | what the scanner finds is the directive of the grammar: flags, one 0, width, precision, l |
| `Directives.SpecReadBack` | lib/doprnt.c:214-274 | every specification that can be written down is scanned back to itself |
| `Directives.FlagsAny` | lib/doprnt.c:223-243 | flags count in any order and number, + rather than a blank |
| `Doprnt.WordDigits` | lib/doprnt.c:545-546 | a 32-bit number never overflows the digit buffer |
| `Doprnt.BuildNumber` | lib/doprnt.c:559-563 | the buffer holds the shortest numeral, prec is what it leaves over |
| `Doprnt.PrintNum` | lib/doprnt.c:543-607 | puts out the field of the number |
| `Doprnt.StringFieldShort` | lib/doprnt.c:345-388 | `%-5.2s` of a string of three comes out four wide |
| `Doprnt.StringFieldLength` | lib/doprnt.c:345-388 | a %s field has the right width except exactly when a left-adjusted string is cut short by its precision, where it is one short |
| `Doprnt.PutString` | lib/doprnt.c:345-388 | puts out the field of a string |
| `Doprnt.PrintSigned` | lib/doprnt.c:527-537 | prints the magnitude with a minus sign for negative numbers, -2^31 included |
| `Doprnt.PutConversion` | lib/doprnt.c:284-618 | one conversion, and how far it moves in the arguments |
| `Doprnt.Print` | lib/doprnt.c:180-619 | the whole format: text as it stands, directives converted in order with the words of the stack one after the other; what that means is `Formats.FormatPrinted` |
| `Doprnt.OneDirective` | lib/doprnt.c:180-619 | a format made of one written specification prints just that field |
| `Doprnt.SignedConversionsReadBack` | lib/doprnt.c:392-541 | d, i, z and r are undone by strtol in their base; only blanks follow |
| `Doprnt.UnsignedConversionsReadBack` | lib/doprnt.c:392-541 | u, o, x and n are undone by strtoul in their base; only blanks follow |
| `Doprnt.PrintThenRead` | lib/doprnt.c:180-619 | from a number through a %d format and strtol back to the number, with the width the field must have |
| `Formats.TextPrinted` | lib/doprnt.c:207-211 | a format without % before its first NUL prints exactly what stands before that |
| `Formats.FormatPrinted` | lib/doprnt.c:207-619 | a format of any number of pieces, text or written directives with stars and l, prints its pieces in order, each directive with the next words of the stack |
| `Formats.PrintPieces` | lib/doprnt.c:180-619 | _doprnt on such a format puts out those pieces |
| `Formats.ConvertMoves` | lib/doprnt.c:278-618 | every conversion takes its own word and no other; a character that is none takes nothing |
| `Formats.AskReadBack` | lib/doprnt.c:214-274 | a written directive with stars and l scans back to itself with the stars filled in from the stack, a negative width toggling left adjustment |
| `Formats.LonePercent` | lib/doprnt.c:610-618 | a % at the end of the format prints nothing |
| `Formats.CharPrinted` | lib/doprnt.c:340-343 | %c prints the low byte of its word |
| `Formats.StringPrinted` | lib/doprnt.c:345-388 | %s prints the string as far as the precision allows, blanks on the side the flags say, a null pointer like an empty string |
| `Formats.PointerPrinted` | lib/doprnt.c:469-485 | %p prints 0x and at least eight digits, read back exactly unless # repeats the prefix of a nonzero pointer |
| `Formats.OtherPrinted` | lib/doprnt.c:614-617 | any other character behind a % stands for itself |
| `Formats.FieldSides` | lib/doprnt.c:566-607 | the digits end the field unless it is left-adjusted with blanks, sign and prefix begin it unless blanks pad it in front |
| `Formats.PlainSigned` | lib/doprnt.c:392-541 | without width and precision: the sign or what the flags put in its place, then the magnitude in base 10, 16 or the radix, marked where # asks for it |
| `Formats.PlainUnsigned` | lib/doprnt.c:392-541 | the same for unsigned conversions, in base 8, 10, 16 or the radix |
| `Formats.LowerCase` | lib/doprnt.c:543-563 | every digit printed is decimal or a lower-case letter, with %X too, which the comment on top of the file says prints capitals |
| `RoundRobin.ElectsKeepsOk` | kernel/process.c:107-133 | exactly one process is elected, the current one, before and after |
| `RoundRobin.TickCountsDown` | kernel/time.c:104-112 | the ticks to the next timer call count down from at most 50, also across the wrap of the 32-bit counter |
| `RoundRobin.DistanceFalls` | kernel/process.c:107-133 | each call elects a ready process or someone strictly closer to it |
| `RoundRobin.ElectedInTime` | kernel/time.c:104-112 | whatever else happens, a ready process is elected before its bound of ticks runs out |
| `RoundRobin.Within750Ticks` | kernel/time.c:104-112 | in any run with 750 ticks every process that was ready has been elected |
| `RoundRobin.Within15Calls` | kernel/process.c:107-133 | in any run with 15 calls of schedule every process that was ready has been elected |
| `RoundRobin.Lives` | kernel/process.c:107-133 | a process that was created is never lost: it is ready or elected for ever |
| `RoundRobin.AgainAndAgain` | kernel/time.c:104-112 | from every moment on each process there is has its turn within 750 ticks |
| `RoundRobin.ConvertTicks` | kernel/time.c:59-65 | hours below 24, minutes and seconds below 60 that, with whole days and milliseconds, make up the ticks |
| `Processes.Kernel.constructor` | kernel/process.c:6-25 | the zeroed statics: every slot free, scheduling off |
| `Processes.Kernel.InitProcess` | kernel/process.c:27-36 | every slot is free and nameless, its registers zero |
| `Processes.Kernel.FindFreeSlot` | kernel/process.c:52-59 | the first free slot, or -1 exactly when there is none |
| `Processes.Kernel.CopyName` | kernel/process.c:78-83 | the first 31 characters of the name |
| `Processes.Kernel.PrepareSlot` | kernel/process.c:73-98 | the slot is ready with its function registered, its stack top holding the trampoline and its registers zero but esp; no other slot or stack changes |
| `Processes.Kernel.CreateProcess` | kernel/process.c:66-100 | fills the lowest free slot, or returns -1 and changes nothing |
| `Processes.Kernel.BecomeIdle` | kernel/start.c:68-70 | the running kernel takes itself for slot 0 |
| `Processes.Kernel.StartScheduling` | kernel/process.c:144-146 | from now on exactly slot 0 is elected |
| `Processes.Kernel.Execute` | kernel/process.c:12-15 | a process that keeps to its own stack disturbs no context |
| `Processes.Kernel.CtxSw` | kernel/ctx_sw.S:6-22 | the old process keeps its five registers, the new one gets its own and continues at the address on its stack |
| `Processes.Kernel.PickNext` | kernel/process.c:112-121 | the first ready slot after the current one, or the current one when none is ready |
| `Processes.Kernel.SwitchTo` | kernel/process.c:127-135 | the process switched to comes back with exactly the context it left with, or a first one |
| `Processes.Kernel.Schedule` | kernel/process.c:107-136 | elects by round robin; whoever comes back has the registers it left with, or its first ones, and slot 0 never its prepared ones |
| `Processes.Kernel.ProcessStarter` | kernel/process.c:42-46 | the trampoline runs the function registered for its own slot |
| `Processes.Kernel.TickHandler` | kernel/time.c:104-112 | a tick, and a call of schedule on every fiftieth |
| `Processes.Kernel.Act` | kernel/process.c:107-136 | one stretch of a process: its registers and its stack end as it left them, the trampoline, timer, schedule or create_process happens exactly as asked, and who is switched out and in is on record with its context |
| `Processes.Kernel.Boot` | kernel/start.c:62-73 | idle is elected, processus1 and shell are ready, each with its name and function |
| `Processes.Kernel.Run` | kernel/process.c:107-136 | over any interleaving of execution, timer, schedule and create_process each action happens as asked, every context given back is the rightful one, and the states are a run of the round robin |
| `Processes.SwitchRightful` | kernel/process.c:107-136 | recording a switch keeps the whole history rightful |
| `Processes.RunVisits` | kernel/process.c:107-136 | a run of the kernel is a run of the round robin with the events its actions ask for |
| `Processes.ServedInTime` | kernel/time.c:104-112 | whatever the processes do, each one there is runs again within 750 timer interrupts from any moment on |
| `Keyboard.NothingLost` | kernel/keyboard.c:45-51 | no key is lost if and only if at no key 63 typed ones were undelivered |
| `Keyboard.ShiftDown` | kernel/keyboard.c:67-74 | Shift is down exactly if some press of either key was followed by no release of either |
| `Keyboard.OneTable` | kernel/keyboard.c:76-92 | while Shift is up and not pressed the keys typed are the entries from 1 to 0xFF of the plain table for the codes inside it; while it is down and not released, those of the other table |
| `Keyboard.ShiftHeld` | kernel/keyboard.c:65-92 | with Shift held over the middle of a run the keys before and after come from the plain table, those under it from the other |
| `Keyboard.ReleasesAreSilent` | kernel/keyboard.c:76-79 | codes from 0x80 on type nothing |
| `Keyboard.Ring.constructor` | kernel/keyboard.c:14-30 | an empty ring |
| `Keyboard.Ring.Push` | kernel/keyboard.c:45-51 | the character joins the pending ones exactly when fewer than 63 are pending; no slot still to be read is overwritten |
| `Keyboard.Ring.Handle` | kernel/keyboard.c:60-93 | Shift is followed, releases and unknown codes are ignored, a key is dropped only when 63 are pending |
| `Keyboard.Ring.Advance` | kernel/keyboard.c:106-107 | the character read is delivered and leaves the ring |
| `Keyboard.Ring.Proceed` | kernel/keyboard.c:100-109 | each single access of kgetch keeps the queue and is progress unless nothing is pending; it leaves its wait exactly when something is |
| `Keyboard.Ring.Run` | kernel/keyboard.c:45-109 | under every interleaving delivered followed by pending is accepted, in order, at most 63 pending; the keys typed are those the scancodes mean, by one table while Shift is left alone; accepted is typed without exactly the keys that came with 63 pending; and what is pending is delivered after three accesses for each, however many keys come |
| `Console.Terminal.ClearScreen` | kernel/console.c:31-38 | all blank, cursor home, last line as it was |
| `Console.Terminal.ClearLine` | kernel/console.c:43-48 | that row is blank and no other cell changes |
| `Console.Terminal.Interpret` | kernel/console.c:61-95 | at most the cell under the cursor is written; the cursor moves and wraps |
| `Console.Terminal.PutChar` | kernel/console.c:61-107 | the effect of one character, with the row cleared when the line changes |
| `Console.Terminal.PutBytes` | kernel/console.c:110-114 | one character after the other |
| `Console.PrintedStays` | kernel/console.c:99-104 | a printed character stays visible if and only if its row was the last line or the cursor wrapped off it |
| `Console.LostAfterFormFeed` | kernel/console.c:77-104 | after a form feed the next character is erased at once, unless the last line was 0 |
| `Console.TextFlows` | kernel/console.c:61-104 | printable text fills the screen row after row, around from the bottom to the top; each character stays in its cell until the cursor comes to its row again |
| `Console.Overtyped` | kernel/console.c:61-104 | a carriage return and a text shorter than the row lay the text over what stood there and change no other cell |
| `Console.ReturnGoesBack` | kernel/console.c:80-81 | a carriage return moves to the first column and changes nothing else |
| `Console.TabSkips` | kernel/console.c:72-88 | a tab moves 8 columns on and writes nothing, or to the start of the next row, cleared, when fewer than 9 are left |
| `Console.NewlineGoesOn` | kernel/console.c:74-104 | a line feed moves to the start of the next row, around from the last to the first, and clears that row only |
| `Console.OthersIgnored` | kernel/console.c:83 | any other character changes nothing |
| `ReadLine.BackspaceCancels` | kernel/sys.c:49-58 | a character and its backspace cancel out in any surroundings, unless it filled the buffer |
| `ReadLine.StoredAsTyped` | kernel/sys.c:41-58 | keys other than Enter and backspace are stored as typed, as far as the buffer goes |
| `ReadLine.EnterEnds` | kernel/sys.c:44-47 | Enter ends the line with what is in it and is not stored; later keys make no difference |
| `ReadLine.BackspaceOnNothing` | kernel/sys.c:49-55 | a backspace on an empty line does nothing |
| `ReadLine.EchoDone` | kernel/sys.c:41-59 | keys after the end of the line are not echoed |
| `ReadLine.EchoErased` | kernel/sys.c:50-53 | the three characters echoed for a backspace wipe out the last one and nothing else |
| `ReadLine.TakeKey` | kernel/sys.c:49-58 | one key edits buffer and screen alike |
| `ReadLine.SysRead` | kernel/sys.c:38-63 | the buffer is the edit of the keys up to Enter or a full buffer, no key is taken beyond, and the screen gets exactly the echo of each; undisturbed and as long as what was typed fits its row, it shows the buffer, then blanks, with the cursor behind it |
| `PhysicalMemory.PageBitmap.InitMem` | kernel/mem.c:33-37 | no page is allocated |
| `PhysicalMemory.PageBitmap.SetPage` | kernel/mem.c:13-16 | that page is allocated and no other page changes |
| `PhysicalMemory.PageBitmap.ClearPage` | kernel/mem.c:18-21 | that page is free and no other page changes |
| `PhysicalMemory.PageBitmap.FindFreePage` | kernel/mem.c:23-31 | the lowest free page, now allocated, or 0 and no change when all are |
| `PhysicalMemory.BumpHeap.KmallocInt` | kernel/kheap.c:14-27 | the next bytes, from a page boundary if asked; never overlapping earlier ones |
| `Paging.WriteEntry` | kernel/paging.c:97-101 | a write to a table entry changes the translation of that one page, with rights that both levels grant |
| `Paging.WriteElsewhere` | kernel/paging.c:97-101 | a write to a frame that is no directory and no table changes no translation |
| `Paging.SelfMapped` | kernel/paging.c:78-101 | a page mapped onto its own table vanishes when one word of it is cleared |
| `Paging.Pager.FillTable` | kernel/paging.c:28-39 | the table maps consecutive pages onto themselves |
| `Paging.Pager.MapFirstMegabytes` | kernel/paging.c:28-47 | four tables behind the directory map the first 16 MB |
| `Paging.Pager.InitialisePaging` | kernel/paging.c:9-56 | page n is mapped to n exactly below 16 MB, exactly the pages below placement_address are marked allocated, directory and tables are the last five of them, and pages are left |
| `Paging.Pager.CreateTable` | kernel/paging.c:78-89 | a new empty table maps nothing new; its frame joins the structures and is not marked in the bitmap |
| `Paging.Pager.Remapped` | kernel/paging.c:97-101 | giving page n a new frame leaves the kernel its tables if and only if n showed none of them, or still shows the same |
| `Paging.Pager.MapPage` | kernel/paging.c:93-101 | exactly that page is mapped, its entry with the rights asked for; the kernel keeps reaching its tables exactly when the page was none of theirs |
| `Paging.Pager.AllocPageEntry` | kernel/paging.c:69-104 | both branches, for every page: the walk changes at this page only, onto the lowest free frame, which is now allocated, or frame 0 when none is left; a table is added exactly when there was none; the entry has the rights asked for, but the directory entry is for the supervisor, so the page gets them exactly when it was asked for the kernel |
| `Paging.Pager.AllocAny` | kernel/paging.c:69-104 | one request of any kind: handed out frames and tables stay apart if and only if the page shows no structure, the lowest free frame is none, and a missing table would get neither that frame nor one handed out |
| `Paging.Pager.AllocPresent` | kernel/paging.c:69-104 | on a present directory entry the frame was never handed out, is not reserved and holds no table; the invariant survives exactly when the page shows no structure |
| `Paging.Pager.NextTable` | kernel/paging.c:78-95 | in every state reached by requests alone, the next request is safe if and only if its directory entry is present and its page shows no structure |
| `Paging.Pager.AllocAll` | kernel/paging.c:69-104 | over a run of such requests all frames are distinct and the walk is the old one updated page by page |
| `Paging.Pager.BootThenRun` | kernel/paging.c:9-104 | from power-on, through init_mem and initialise_paging, over any run of requests below 16 MB off the five structure pages: frames distinct, walk as requested, and exactly those pages stay safe to ask for |
| `Paging.Pager.UserStore` | kernel/paging.c:69-104 | stores through handed-out pages never change a translation |
| `Paging.Pager.OwnTable` | kernel/paging.c:78-95 | where the heap is about to use the lowest free frame, a page under an absent directory entry gets the frame of its own new table, and vanishes when one word of it is cleared |
| `Paging.Pager.OwnedTable` | kernel/paging.c:78-95 | where the heap is about to use a frame somebody was given, the new table lies in it, and a store of the owner makes the new page vanish |
| `Paging.Pager.BootThenNewTable` | kernel/paging.c:9-104 | from power-on, the first page asked for beyond 16 MB gets the frame of its own table |
| `Paging.Pager.LostTable` | kernel/paging.c:69-104 | once the page of a table was asked for as well, the next request under that table takes a frame, maps nothing, and leaves its entry in the frame that page now shows |

## Left out

- Malloc.Allocator.Memalign: requires that the padded request does not wrap and the alignment is at most 2^31, because beyond that the source writes outside the block or loops for ever; `Alignment.MemalignAsksEnough` and `Alignment.DoublingEnds` give the exact conditions.
- HeapClient.Client.AllocateAligned: the client itself refuses such requests.
- Malloc.Allocator.Sysmalloc: the fencepost path for foreign sbrk calls is left out; malloc is the only caller of this contiguous sbrk, so brk equals old_end on every call but the first, which the model tells by initial_top.
- Malloc.Allocator.Systrim: releases nothing here, since kernel/sbrk.c refuses negative requests; releasing memory is therefore not modelled.
- Paging.Pager.AllocAll: covers requests on present directory entries, for pages that hold no paging structure; `Paging.Pager.AllocAny` and `Paging.Pager.NextTable` show that exactly these keep frames and tables apart.
- Paging.Pager.AllocPageEntry: on an absent entry, the page of the new table is taken to be still mapped onto itself; a program that asked for that very page before makes the kernel clear another frame.
- The processor is taken to check the rw bit of supervisor writes too (CR0.WP set); the kernel leaves that bit as it finds it.
- Paging.Pager.AllocAny: takes a page to be left, as the other results about runs of requests do; `Paging.Pager.AllocPageEntry` says what happens when none is.
- Doprnt.PutConversion: leaves out %b and %B, as `Doprnt.Print` does.
- Doprnt.Print: the register decoding of %b and the floating-point conversions are not modelled; formats with %b are excluded.
- ReadLine.SysRead: what its row shows is stated for a line that does not reach the end of the row, and with nobody else writing to the console meanwhile; the buffer and the echo are stated for all keys.
- Memory of the allocator is two sequences of words, indexed by byte address, reassigned on every store: one for the words at doubleword addresses, one for those behind them. Stores that do not depend on each other are sometimes in another order than in the source, heads before links.
- Malloc.Allocator.constructor: the region is assumed to start on a doubleword boundary, and the bins of `av_` to lie below it on one; the linker script does not force either.
- HeapClient.Client.constructor: assumes the same of its heap.
- FIRST_SORTED_BIN_SIZE, the fastbin limit, trim threshold, top pad and page size have their default values; mallopt, which changes them, is left out.
- calloc, independent_calloc and independent_comalloc, valloc, pvalloc, malloc_trim, malloc_stats, the guard words of mem_alloc and mem_free, locking, mmap and mremap.
- A client is assumed to free only what it holds and to write only inside the bytes it asked for.
- Sharing of the memory behind the kernel between kmalloc and sbrk: each is modelled alone.
- Signed overflow in strtol is taken to wrap; widths and precisions in formats are taken not to overflow an int. The radix given to _doprnt is between 2 and 16.
- printf, sprintf, scanf, atoi, ctype and the simple string functions.
- schedule is taken to be atomic, with interrupts off, and the 1 KB stacks not to overflow; a process is taken to write only to its own stack.
- There is one reader of the keyboard. The two scancode tables are a parameter.
- Setting of the hardware cursor, the clock display, port I/O, PIC and PIT programming, descriptor tables, the trap screen, and the loading of CR3 and CR0.
- The shell, the demonstration programs and the user processes.
