# A verified model of the system programming labs

This project models the parts of the repository whose correctness rests on invariants over whole runs, and
proves those invariants with Dafny 4.11. `dafny verify dfyconfig.toml` checks everything.

## What is modelled

**The allocator of malloclab.** `memlib.dfy` is the byte arena behind `mem_sbrk`, with a ghost view of it as
aligned 32-bit words. `mm.dfy` is `mm.c` on top of that arena: the class `Allocator` has the C globals
`heap_listp` and `blk_start` as fields, and every header, footer, root and link is a word loaded from or stored
into the arena. Three ghost fields say what the bytes mean: `blocks` (the tiling of the heap by blocks, a map from
payload address to size and state), `lists` (the eleven free lists) and `listed` (which blocks are in a list). The
class invariant `Valid` says that the three agree with each other and with every word in memory:

* the blocks tile the heap from the first block to the break, each a multiple of 8 and at least 16 bytes long, with
  equal header and footer, closed by the epilogue (`blocks.dfy`, `tags.dfy`);
* a block is in a list exactly when its header says it is free, once, in the list of its size class; the lists are
  doubly linked through the payloads, end in 0, and are in non-decreasing order of size (`seglist.dfy`).

`Compact` (no two free blocks are adjacent) is kept apart from `Valid`, because one path of `mm_realloc` does not
keep it. `heap.dfy` holds the steps that take one consistent heap to the next; `shape.dfy` says on values what each
operation makes of the blocks and of the lists with their order, which is what decides where the next request goes;
`layout.dfy` draws conclusions about whole heaps (the layout is determined by what is in use; bytes are conserved;
walking memory and following links find exactly the blocks); `guards.dfy` is about the unsigned comparisons of
`mm_realloc`, and `witness.dfy` runs the allocator to the heaps where they matter. `roundtrip.dfy` composes
`mm_malloc` and `mm_free`, in either order.

**Its client.** `ranges.dfy`, `mdriver.dfy` and `mutil.dfy` are the range list and the two evaluation loops of
`mdriver.c`, run over arbitrary traces. They ask before a reallocation whether a comparison in it would wrap
(`InGuards`, which is not part of the code), and the model stops there.

**The proxy.** `rwlock.dfy` is the readers/writers protocol as a transition system over any number of threads,
with `readcnt++` and `readcnt--` split into a load and a store. `cache.dfy` is the page cache as a doubly linked
list of heap objects, used by one thread at a time. `rio.dfy` is the buffered reader over a descriptor that hands
out its bytes in arbitrary pieces and may be interrupted at any read.

**The tracer of linklab.** `memlist.dfy` is the ordered linked list of blocks, `memtrace.dfy` the wrappers around
the allocation functions, compared with a record of live blocks that a reader could keep by hand.

**Two loops.** `fcyc.dfy` is the K-best sampler; `tsh.dfy` is the tokenizer of the tiny shell.

## Where the code is not what one might expect

The model follows the code. Where an obvious claim is false of it, the exact condition is proved.

* The size comparisons of `mm_realloc` (mm.c:213, 225, 242, 254, 271, 284) subtract in unsigned arithmetic, and
  a sum smaller than the adjusted size wraps to a large number and passes. `MmRealloc` is therefore stated for
  calls with `ReallocSafe`: no comparison the call reaches subtracts from a smaller sum. `Guards.SafeExactly`
  proves that this is not too strong: a growing call is safe if and only if it goes elsewhere, or the tags it would
  store are those of some tiling of the heap. `Witness.ReachWrap` is a run from `mm_init` to a call that is not safe.
* Case 2.2.1 of `mm_realloc` (mm.c:242-253) lists the freed tail without joining it to a free block after it.
  `MmRealloc` keeps `Compact` if and only if the call is not one of those described by `LeavesGap`;
  `Witness.ReachGap` is a run that makes such a call.
* Case 2.3.2 (mm.c:284-294) would store a size without `next_freesize`. It is never reached by a safe call:
  `Guards.WholeBlockLeft`.
* Whenever a block moves, the copied length is `copySize-DSIZE`, a whole number of words: `Heap.CopyLength`.
* The adjusted size wraps for requests above 2^32 - 16; `Heap.AdjustedSizeFits` gives the exact bound.
* The overlap test of `add_range` (mdriver.c:410-411) misses a new range that strictly encloses an old one:
  `Ranges.TripsExactly`. What is proved is that the allocator never gives it one.
* `eval_mm_valid` compares a fill byte, read through a plain `char`, with `index & 0xFF` (mdriver.c:657). On the
  target `char` is signed, so every reallocation of an index whose low byte is 128 or more is reported as having lost
  its data. `Mdriver.Driver.DoRealloc` has the exact condition and `Mdriver.MisreadTrace` a trace.
* `mem_sbrk` (memlib.c:62) adds before it compares: in an arena near the end of the address space a large increment
  wraps and succeeds. `MemLib.Memory.Sbrk` says when, and the callers ask for a sum that does not.
* A hit on the head of a list of two or more items leaves `head` in front of nothing (cache.c:115-121): no
  sequence of items is then the list. `Cache.List.FindCache` says that this is the only hit after which the list
  is not well formed, and `Cache.HeadHit` is a run that makes it.
* The tracer records a NULL answer like a block, and gives a block back before it knows whether its reallocation
  succeeded (memtrace.c:102-105, 121-124, 142-153). After a NULL answer the book disagrees with the program for good:
  the report can name NULL and omit a live block, and a legal free can be logged as a double free and never done: `MemTrace.RunExactly` and `MemTrace.FailedRealloc`.
* free(NULL) and realloc(NULL, n) are logged as illegal frees: `MemTrace.NullIsIllegal`.
* A cached page answers requests for any port of its host, since isSame does not compare the port (cache.c:96-101):
  `Cache.WrongPort` caches a page of host:80 and finds it for host:8080.
* `fini` (memtrace.c:59) divides by the number of allocation calls, and a program that made none stops there.
* The header comment of mm.c describes a different, naive allocator, and the comment on `get_seg_level`
  (mm.c:309-311) calls size what is a number of double words. The code is what is modelled.

## Model

| member | source | states |
|---|---|---|
| MemLib.Memory.constructor | malloclab/malloclab/src/memlib.c:25-35 | the arena exists, with the break at its start, and its words mirror its bytes |
| MemLib.Memory.ResetBrk | malloclab/malloclab/src/memlib.c:48-51 | the heap is empty again, and no byte of the arena changes |
| MemLib.Memory.Sbrk | malloclab/malloclab/src/memlib.c:58-69 | returns the old break and advances it by exactly the increment, or fails with the break where it was exactly when the increment is negative or would pass the end of the arena, provided the sum stays inside the address space; a sum that does not wraps, and the call succeeds with a break below the arena |
| MemLib.Memory.Get | malloclab/malloclab/src/mm.c:37 | loads the little-endian word of the four bytes at an aligned address |
| MemLib.Memory.Put | malloclab/malloclab/src/mm.c:38 | stores one word; every other aligned word of the arena stays |
| MemLib.Memory.Memmove | malloclab/malloclab/src/mm.c:245 | after a copy of whole words downwards or between disjoint ranges the destination holds the old source words, and nothing outside it changes |
| MemLib.Memory.Memset | malloclab/malloclab/src/mdriver.c:626 | fills exactly the given bytes; every word outside the filled range stays |
| MemLib.ComposeInjective | malloclab/malloclab/src/mm.c:37-38 | two words are equal only if all four bytes are, so equal words mean an untouched payload |
| MemLib.CopyStep | malloclab/malloclab/src/mm.c:245 | copying one more word downwards never overwrites a source word that is still needed |
| Tags.UnpackPack | malloclab/malloclab/src/mm.c:36-40 | GET_SIZE and GET_ALLOC recover what PACK put together, for sizes that are multiples of 8 |
| BlockMap.PrevBlock | malloclab/malloclab/src/mm.c:44 | every block of a tiled heap but the first has exactly a block ending where it starts |
| BlockMap.FuseTiled | malloclab/malloclab/src/mm.c:412-437 | replacing the blocks of a region by one block leaves the heap tiled |
| BlockMap.CarveTiled | malloclab/malloclab/src/mm.c:469-477 | replacing the blocks of a region by a used block and a free rest leaves the heap tiled |
| BlockMap.ExtendTiled | malloclab/malloclab/src/mm.c:443-459 | a block from the old break to the new one extends the tiling |
| BlockMap.RetileTags | malloclab/malloclab/src/mm.c:412-437 | stores inside a region leave every header and footer outside it in agreement with the tiling |
| BlockMap.JoinCompact | malloclab/malloclab/src/mm.c:405-440 | joining a free block with its maximal free run leaves no two free blocks adjacent |
| BlockMap.FreeRunBounds | malloclab/malloclab/src/mm.c:405-407 | the run of free blocks coalesce looks at is a region of whole blocks around the freed one |
| BlockMap.CarveCompact | malloclab/malloclab/src/mm.c:469-477 | splitting a block leaves at most its free rest next to another free block |
| BlockMap.FreeCompact | malloclab/malloclab/src/mm.c:141-145 | freeing a block leaves at most that block next to another free block |
| BlockMap.FuseFreeLive | malloclab/malloclab/src/mm.c:405-440 | joining free blocks changes no block in use |
| SegList.Level | malloclab/malloclab/src/mm.c:312-326 | the class is one of the eleven; LevelBounds has the sizes of each |
| SegList.LevelBounds | malloclab/malloclab/src/mm.c:312-326 | class i holds the sizes of more than 2^i and at most 2^(i+1) double words; the first class has no lower bound and the last no upper one |
| SegList.LevelMonotone | malloclab/malloclab/src/mm.c:312-326 | a larger block is never in a smaller class, which is what makes the first fit from the class of the request a best fit |
| SegList.InsertLinked | malloclab/malloclab/src/mm.c:362-369 | the four stores of the relinking make a doubly linked list with the new node in its place |
| SegList.RemoveLinked | malloclab/malloclab/src/mm.c:380-387 | the two stores of the unlinking make a doubly linked list without the node |
| SegList.InsertSorted | malloclab/malloclab/src/mm.c:353-359 | inserting before the first block that is not smaller keeps a list in non-decreasing size order |
| SegList.OtherList | malloclab/malloclab/src/mm.c:334-387 | relinking in one list leaves every word of the other lists as it was |
| SegList.LinksKeepLive | malloclab/malloclab/src/mm.c:334-387 | list stores touch only free payloads and roots, so no word of a payload in use changes |
| SegList.RegionKeepsLive | malloclab/malloclab/src/mm.c:412-437 | tag stores inside a free region change no word of a payload in use |
| Heap.InsertHeap | malloclab/malloclab/src/mm.c:334-377 | linking a free block into its class keeps tiling, tags, all eleven lists and their agreement |
| Heap.RemoveHeap | malloclab/malloclab/src/mm.c:380-387 | unlinking a listed block, found by its own links alone, keeps them too |
| Heap.AdjustedRange | malloclab/malloclab/src/mm.c:105-108 | the block size of a request is a multiple of 8, at least 16, and 8 to 15 bytes more than asked for |
| Heap.AdjustedSizeFits | malloclab/malloclab/src/mm.c:105-108 | the 32-bit computation gives room for the request and its tags if and only if the request is at most 2^32 - 16 |
| Heap.AllFree | malloclab/malloclab/src/mm.c:405-440 | a tiled heap with no adjacent free blocks and nothing in use is one block from end to end |
| Heap.CopyLength | malloclab/malloclab/src/mm.c:245 | a growing block is copied whole: its old payload is never longer than the new request, and fits the new block |
| Heap.TailGap | malloclab/malloclab/src/mm.c:242-253 | a freed tail that is not coalesced leaves the heap compact exactly when no free block follows it |
| Heap.FirstFits | malloclab/malloclab/src/mm.c:390-402 | the first block of the first class that fits is a smallest of all the free blocks that fit |
| Heap.NoneFits | malloclab/malloclab/src/mm.c:390-402 | a class scanned to its end holds nothing that fits |
| Shapes.RankExact | malloclab/malloclab/src/mm.c:353-359 | the place of a block in a list is the one position with only smaller blocks before it and no smaller one at it: insertion goes ahead of equals |
| Shapes.OutsideHas | malloclab/malloclab/src/mm.c:380-387 | taking blocks out of a list takes out exactly those of the region |
| Shapes.CutOne | malloclab/malloclab/src/mm.c:380-387 | unlinking a block leaves all eleven lists as they were without it, in their order |
| Shapes.CutFiled | malloclab/malloclab/src/mm.c:334-387 | a block listed and taken out again with a region around it leaves no trace in the lists |
| Shapes.CarveJoin | malloclab/malloclab/src/mm.c:197-201 | the rest of a split block, joined with a free block after it, is what splitting a region that much larger leaves |
| Shapes.OneFirstFit | malloclab/malloclab/src/mm.c:390-402 | there is one smallest block that fits and comes first in its list: the lists decide where a request goes |
| Shapes.OneServed | malloclab/malloclab/src/mm.c:94-123 | blocks, lists and break determine the address mm_malloc returns and the blocks and lists it leaves |
| Mm.Allocator.GetSize | malloclab/malloclab/src/mm.c:39 | the size field of the word in memory |
| Mm.Allocator.GetAlloc | malloclab/malloclab/src/mm.c:40 | the allocated bit of the word in memory |
| Mm.Allocator.BlockSize | malloclab/malloclab/src/mm.c:39-41 | the size in a block's header is the size of the block |
| Mm.Allocator.GetFreeblkRoot | malloclab/malloclab/src/mm.c:329-331 | the address of the root of the class of the size |
| Mm.Allocator.Scan | malloclab/malloclab/src/mm.c:354-359 | the walk along a list stops at its first block that is not smaller, every block before it being smaller, with the link before it |
| Mm.Allocator.LinkBetween | malloclab/malloclab/src/mm.c:362-369 | memory after the relinking is memory with the new node spliced in, and nothing else |
| Mm.Allocator.InsertFreeBlock | malloclab/malloclab/src/mm.c:334-377 | the block is put in the list of its class before the first block that is not smaller, so ahead of its equals, and the order of everything else stays; all views still agree, and no payload word in use changes |
| Mm.Allocator.Unlink | malloclab/malloclab/src/mm.c:383-386 | memory after the unlinking is memory with the node spliced out, and nothing else |
| Mm.Allocator.DeleteFreeBlock | malloclab/malloclab/src/mm.c:380-387 | the lists are as before without the block, the others in their order; all views still agree, and no payload word in use changes |
| Mm.Allocator.FindFit | malloclab/malloclab/src/mm.c:390-402 | global best fit: null exactly when every listed block is too small, otherwise a smallest block that fits, and the first of its list that does |
| Mm.Allocator.PrevBlkp | malloclab/malloclab/src/mm.c:44 | the footer before a block leads to the block before it; before the first block the prologue counts as allocated |
| Mm.Allocator.NextBlkp | malloclab/malloclab/src/mm.c:43 | the header after a block is that of the next block, or the epilogue, which counts as allocated |
| Mm.Allocator.Neighbours | malloclab/malloclab/src/mm.c:406-408 | the two allocated bits read around a free block delimit its run of free blocks |
| Mm.Allocator.JoinNext | malloclab/malloclab/src/mm.c:412-418 | Case 2 of coalesce: one free block in place of two, both out of the lists, everything in use untouched |
| Mm.Allocator.JoinPrev | malloclab/malloclab/src/mm.c:420-427 | Case 3 of coalesce likewise, with the footer found through the header that is about to change |
| Mm.Allocator.JoinBoth | malloclab/malloclab/src/mm.c:429-437 | Case 4 of coalesce likewise, for three blocks |
| Mm.Allocator.Coalesce | malloclab/malloclab/src/mm.c:405-440 | the whole run of free blocks around the freed one becomes one block, listed where its size belongs, while the others keep their order; the blocks in use stay |
| Mm.Allocator.InsertAndCoalesce | malloclab/malloclab/src/mm.c:456-458 | listing and coalescing a freed block comes to this: its run becomes one block, the blocks of the run leave the lists, and the joined one is listed by its size; no two free blocks are left adjacent |
| Mm.Allocator.AddBlock | malloclab/malloclab/src/mm.c:452-455 | the new tags, written over the old epilogue, and the new epilogue extend the tiling by one free block, not yet listed |
| Mm.Allocator.ExtendHeap | malloclab/malloclab/src/mm.c:443-459 | grows the heap by exactly the words asked for, made even, and returns a listed block that ends at the new break and starts where the free block before the old break did, or at the old break, with blocks and lists exactly as that leaves them; or fails with every byte unchanged, exactly when the arena is too small |
| Mm.Allocator.ExtendFor | malloclab/malloclab/src/mm.c:116-122 | the end of mm_malloc: null with nothing changed exactly when the arena cannot grow by max(asize, 4096); otherwise the break has moved by that many bytes and the new block is the front, or all, of the joined last block |
| Mm.Allocator.PlaceFront | malloclab/malloclab/src/mm.c:469-477 | the front of the block is in use, its rest free, joined with a free block after it and listed by its size; no payload in use changes |
| Mm.Allocator.PlaceWhole | malloclab/malloclab/src/mm.c:478-482 | the whole block is in use, and the lists are as before without it; no payload in use changes |
| Mm.Allocator.Place | malloclab/malloclab/src/mm.c:462-484 | a free block becomes one in use of the size asked for, or whole when less than 16 bytes would be left, with blocks and lists exactly as that leaves them; no other payload changes |
| Mm.Allocator.InitLayout | malloclab/malloclab/src/mm.c:78-84 | padding, null roots, prologue and epilogue make a consistent heap without blocks |
| Mm.Allocator.MmInit | malloclab/malloclab/src/mm.c:75-88 | an empty arena becomes a consistent heap of 4208 bytes, of which 4096 are one free block |
| Mm.Allocator.MmMalloc | malloclab/malloclab/src/mm.c:94-123 | null if and only if the request is for 0 bytes, or nothing fits and the arena cannot grow by max(asize, 4096), and then nothing at all changes; otherwise one new block in use wasting 8 to 23 bytes: if something fits, with the break where it was, the first of the smallest blocks that fit in the order of the lists, else the joined last block after growth by exactly max(asize, 4096), and of it exactly asize bytes if at least 16 are left, else all; blocks and lists are exactly as this leaves them; no payload word in use changes; tiling, lists and compactness are kept |
| Mm.Allocator.TagFree | malloclab/malloclab/src/mm.c:141-143 | exactly the tags of the block now say free; it is the only free block not listed, and no other payload changes |
| Mm.Allocator.MmFree | malloclab/malloclab/src/mm.c:129-147 | exactly the freed block leaves the blocks in use: it and its free neighbours become one block, which is listed by its size ahead of its equals, while the others keep their order; null and free blocks change nothing; no other payload word changes; tiling, lists and compactness are kept |
| Mm.Allocator.Trim | malloclab/malloclab/src/mm.c:189-203 | Case 1: a block that is large enough stays with its payload; at least 16 bytes too many, and it is cut to exactly the adjusted size, otherwise nothing changes |
| Mm.Allocator.Shrink | malloclab/malloclab/src/mm.c:194-202 | Case 1.2: the block stays where it is with its payload, and is cut to exactly asize bytes; its tail is freed, joined with a free block after it, and listed by its size |
| Mm.Allocator.MovePayload | malloclab/malloclab/src/mm.c:245 | the words of the payload are at the lower address, and nothing outside the region to be rebuilt changes |
| Mm.Allocator.GrowNext | malloclab/malloclab/src/mm.c:209-234 | Case 2.1 grows the block in place exactly when it and the next one are together larger than wanted; otherwise nothing changes |
| Mm.Allocator.GrowPrev | malloclab/malloclab/src/mm.c:238-264 | Case 2.2 moves the block down exactly when it and the one before are together larger than wanted; otherwise nothing changes |
| Mm.Allocator.GrowNextSplit | malloclab/malloclab/src/mm.c:213-224 | Case 2.1.1: the block grows in place to exactly asize bytes over the front of the next one, whose rest is freed, joined and listed; payload and all other blocks kept, heap compact |
| Mm.Allocator.GrowNextWhole | malloclab/malloclab/src/mm.c:225-233 | Case 2.1.2: the block takes in the whole next one, with the same guarantees |
| Mm.Allocator.GrowPrevSplit | malloclab/malloclab/src/mm.c:242-253 | Case 2.2.1: the payload moves down with its contents into a block of exactly asize bytes, and the tail is listed but not joined; the heap stays compact if and only if the block after is in use |
| Mm.Allocator.GrowPrevWhole | malloclab/malloclab/src/mm.c:254-263 | Case 2.2.2: the payload moves down and the block takes in the whole one before it |
| Mm.Allocator.GrowBoth | malloclab/malloclab/src/mm.c:271-283 | Case 2.3.1: the block and both neighbours become one region with the payload at its front, in a block of exactly asize bytes, and a listed free tail |
| Mm.Allocator.GrowAround | malloclab/malloclab/src/mm.c:265-295 | Case 2.3 as a whole, which is reached when each neighbour alone makes exactly the size wanted: only its first branch is ever taken |
| Mm.Allocator.GrowInPlace | malloclab/malloclab/src/mm.c:205-295 | Cases 2.1 to 2.3: which of them is taken and what it leaves of blocks, lists and payloads; otherwise nothing has changed |
| Mm.Allocator.CopyAway | malloclab/malloclab/src/mm.c:301 | the old payload is in the new block, and no other payload changes |
| Mm.Allocator.MoveAway | malloclab/malloclab/src/mm.c:298-304 | Case 2.4: payload copied to a new block and the old one freed, or null with everything unchanged; the new block is where mm_malloc puts it: a first smallest fit with the break where it was, and only if nothing fits at the top of a heap grown by max(asize, 4096) |
| Mm.Allocator.Grow | malloclab/malloclab/src/mm.c:205-304 | Case 2 as a whole: which of its cases is taken, where the block ends up, in place or where mm_malloc puts it, and what each leaves of blocks, lists and payloads |
| Mm.Allocator.MmRealloc | malloclab/malloclab/src/mm.c:163-305 | for safe calls: the first min(old payload, new payload) bytes are at the result, every other payload in use is untouched, the waste stays within 8 to 23 bytes, the result is where the cases say, and blocks and lists are exactly as they leave them; a block that has to move, or a null pointer, is served where mm_malloc would: a first smallest fit without growth, or else the top of a heap grown by max(asize, 4096); null if and only if such a block is needed, nothing fits and the arena cannot grow, and then nothing changes; tiling and lists are kept, and compactness is kept if and only if the call is not one that leaves a gap |
| Guards.TakenRegion | malloclab/malloclab/src/mm.c:209-295 | the region in which a growing block is rebuilt consists of whole blocks |
| Guards.WholeBlockLeft | malloclab/malloclab/src/mm.c:265-294 | when Case 2.3 is reached by a safe call, the whole next block is left over, so Case 2.3.2 is dead |
| Guards.TooSmall | malloclab/malloclab/src/mm.c:213-224 | if the region is smaller than the block wanted, no tiling of the heap has the tags that are stored |
| Guards.SafeExactly | malloclab/malloclab/src/mm.c:209-295 | a growing call is safe if and only if it goes elsewhere or stores the tags of some tiling |
| Guards.TargetTaken | malloclab/malloclab/src/mm.c:209-295 | where a safe growing call puts the block is the front of the region its branch rebuilds, or elsewhere |
| Witness.ReachWrap | malloclab/malloclab/src/mm.c:213 | a run from mm_init to a consistent heap and a live block whose next reallocation passes a comparison only because the difference wraps |
| Witness.ReachGap | malloclab/malloclab/src/mm.c:242-253 | a run from mm_init, with safe calls only, after which two free blocks are adjacent |
| Layout.LayoutDetermined | malloclab/malloclab/src/mm.c:405-440 | two heaps of the same extent with the same blocks in use, and no adjacent free blocks, have the same layout: the order of calls leaves no trace |
| Layout.Conservation | malloclab/malloclab/src/mm.c:75-88 | bytes in use, bytes free and the 112 bytes of roots and prologue add up to the heap size |
| Layout.WalkExact | malloclab/malloclab/src/mm.c:37-44 | a walk by headers, footers and epilogue, which asks for more than mm_check does, succeeds if and only if memory records a tiling with no adjacent free blocks |
| Layout.TurnExact | malloclab/malloclab/src/mm.c:533-558 | on a heap whose views agree one turn of the block loop of mm_check reports something exactly when the block at hand and the next are both free: a free block is always found in its list |
| Layout.CheckExact | malloclab/malloclab/src/mm.c:532-566 | on a heap whose views agree the block loop of mm_check, which reads headers only, ends, and reports something if and only if two free blocks are adjacent |
| Layout.ReachedIsFree | malloclab/malloclab/src/mm.c:567-577 | whatever chasing links from a root reaches is a free block of that class, linked back to where it was reached from, and no larger than the next |
| Layout.FreeIsReached | malloclab/malloclab/src/mm.c:534-552 | every free block is reached from the root of the class of its size |
| Layout.ReachedOnce | malloclab/malloclab/src/mm.c:334-387 | no block is reached twice, from one root or from two: the lists are disjoint and acyclic |
| Layout.EverythingFreed | malloclab/malloclab/src/mm.c:129-147 | once nothing is in use the heap is a single free block of heap size - 112, the only element of the lists |
| RoundTrip.MallocThenFree | malloclab/malloclab/src/mm.c:94-147 | freeing what was just allocated restores every block of a compact heap and all eleven lists with their order, unless the heap had to grow; no payload in use changes |
| RoundTrip.FreeThenMalloc | malloclab/malloclab/src/mm.c:94-147 | freeing a block between blocks in use and asking for its size again returns the same address, whatever else of that size is free, and restores every block and every list; no other payload changes |
| RoundTrip.FreedAllotted | malloclab/malloclab/src/mm.c:94-147 | on values: mm_free undoes what mm_malloc does with a first fit in a compact heap |
| RoundTrip.AllottedFreed | malloclab/malloclab/src/mm.c:94-147 | on values: a freed block between blocks in use is the first fit for its size, and taking it undoes the free |
| Ranges.TripsExactly | malloclab/malloclab/src/mdriver.c:410-411 | the overlap test finds an overlap if and only if the new range does not strictly enclose the old one |
| Ranges.EnclosingRangeMissed | malloclab/malloclab/src/mdriver.c:410-411 | two overlapping ranges that the test lets pass |
| Ranges.RangeList.AddRange | malloclab/malloclab/src/mdriver.c:382-430 | 1 with the range recorded in front exactly when it is aligned, inside the heap and trips no record; otherwise 0 and nothing recorded |
| Ranges.RangeList.RemoveRange | malloclab/malloclab/src/mdriver.c:435-450 | takes out the first record that starts at the address, and no other |
| Ranges.WithoutFirst | malloclab/malloclab/src/mdriver.c:435-450 | what is taken out is the range at the first position whose start is the address, and nothing if there is none |
| Ranges.RangeList.ClearRanges | malloclab/malloclab/src/mdriver.c:455-465 | the list is empty |
| Mdriver.MisreadExactly | malloclab/malloclab/src/mdriver.c:656-657 | a fill byte read back through a signed char equals the index byte if and only if that is below 128 |
| Mdriver.NewRangeClear | malloclab/malloclab/src/mdriver.c:408-418 | a payload in a block of its own trips none of the recorded ranges |
| Mdriver.Driver.NewRange | malloclab/malloclab/src/mdriver.c:618-619 | for a payload the allocator handed out, add_range never returns 0 |
| Mdriver.Driver.Prepare | malloclab/malloclab/src/mdriver.c:588-599 | mm_init succeeds on the reset arena, and no request is live |
| Mdriver.Driver.Remember | malloclab/malloclab/src/mdriver.c:626-630 | filling a payload and noting it in the arrays restores the agreement with the live requests, and spoils no other payload |
| Mdriver.Driver.DoAlloc | malloclab/malloclab/src/mdriver.c:605-631 | passes every check if and only if a free block fits or the arena can grow; then the range list, the arrays and the fill bytes again describe exactly the live requests, and otherwise nothing has changed |
| Mdriver.Driver.DoRealloc | malloclab/malloclab/src/mdriver.c:633-668 | for calls in which no comparison wraps, growing ones included: returns 0 if and only if the block has to move and there is no room, or the low byte of the index is 128 or more; otherwise every check passes and the requests are described again |
| Mdriver.Driver.DoFree | malloclab/malloclab/src/mdriver.c:670-676 | a freed request leaves the range list and the blocks in use, and nothing else does |
| Mdriver.Driver.CheckBytes | malloclab/malloclab/src/mdriver.c:656-662 | true if and only if every byte of the range, read as a signed char, has the value |
| Mdriver.Driver.BytesSurvived | malloclab/malloclab/src/mdriver.c:653-662 | on a payload that kept its fill bytes the comparison succeeds if and only if the low byte of the index is below 128 |
| Mdriver.Driver.Step | malloclab/malloclab/src/mdriver.c:605-682 | the outcome of an operation is the one its state decides: an allocation fails exactly for want of room, a reallocation exactly for want of room or for its fill byte, and the model stops exactly at a reallocation in which a comparison wraps; what fails for want of room changes nothing |
| Mdriver.Driver.NothingHeld | malloclab/malloclab/src/mdriver.c:670-676 | when no request is live and no reallocation has left a gap, the heap is one free block, alone in the lists |
| Mdriver.Driver.EvalMmValid | malloclab/malloclab/src/mdriver.c:578-686 | every well-formed trace, with growing reallocations, is accepted unless an operation finds neither a fitting block nor room to grow, or is a reallocation of an index whose low byte is 128 or more, or (where the model stops) wraps a comparison; no alignment, extent or overlap check ever fails; the operation it stops at is the first such, and unless its bytes were misread the heap before it is still there; if every request has been freed and no gap was left the heap is one free block |
| Mdriver.MisreadTrace | malloclab/malloclab/src/mdriver.c:656-661 | the trace that allocates and reallocates index 128 is rejected at its second operation, although the block kept its byte |
| Mdriver.Decided | malloclab/malloclab/src/mdriver.c:605-682 | a trace operation that asks for no larger a block stays inside the model, and one for whose growth the arena has room is met |
| Mutil.RequestsFit | malloclab/malloclab/src/mdriver.c:714-735 | the live requests together fit in the heap beside its 112 bytes of roots and prologue |
| Mutil.Accounted | malloclab/malloclab/src/mdriver.c:729-769 | what each kind of operation, growing reallocations included, does to total_size is what it does to the sum of the live requests |
| Mutil.HighWaterBounds | malloclab/malloclab/src/mdriver.c:731-770 | the total after any operation is at most the high-water mark, although it is not updated by frees |
| Mutil.HighWaterAttained | malloclab/malloclab/src/mdriver.c:731-770 | the high-water mark is the total after some operation |
| Mutil.Accountant.Serve | malloclab/malloclab/src/mdriver.c:717-775 | an operation is served, gives up or leaves the model exactly as the heap before it decides |
| Mutil.Accountant.Step | malloclab/malloclab/src/mdriver.c:717-775 | after an operation that is served total_size is the sum of the live requests, and max_total_size its maximum so far; any other leaves the state as it was |
| Mutil.Accountant.EvalMmUtil | malloclab/malloclab/src/mdriver.c:699-779 | for every well-formed trace that is served to its end, max_total_size is at least the sum of live requests after every operation, equal to it after some operation, and never exceeds the final heap size less 112; otherwise the first operation that is not served is named, with the heap before it |
| RwLock.InitInv | proxylab/proxylab/cache.c:22-24 | the invariant holds when no thread has started |
| RwLock.OneHolder | proxylab/proxylab/proxy.c:145-164 | at most one thread is between P and V of the mutex |
| RwLock.StepInv | proxylab/proxylab/proxy.c:145-193 | every step of every thread keeps the invariant that ties the semaphores and readcnt to where the threads are |
| RwLock.RunInv | proxylab/proxylab/proxy.c:145-193 | the invariant holds in every state of every interleaving |
| RwLock.Counters | proxylab/proxylab/proxy.c:145-193 | in every state of every interleaving readcnt is the number of registered readers, and both semaphores are 0 or 1 |
| RwLock.Exclusion | proxylab/proxylab/proxy.c:145-193 | in every state of every interleaving: while a thread is in the writer section no other is, and none is searching the cache |
| RwLock.HolderProgress | proxylab/proxylab/proxy.c:145-164 | a thread that holds the mutex can go on, or waits for a writer that can |
| RwLock.Progress | proxylab/proxylab/proxy.c:145-193 | as long as some thread is unfinished, some thread can take a step |
| RwLock.RunBounded | proxylab/proxylab/proxy.c:145-193 | n threads take at most 14 n steps |
| RwLock.MaximalRunFinishes | proxylab/proxylab/proxy.c:145-193 | a run that cannot be continued has served every client |
| RwLock.WriterMissed | proxylab/proxylab/proxy.c:145-193 | in every interleaving a thread that waits for the writer section, or is in it, has searched before without success |
| RwLock.HitNeverWrites | proxylab/proxylab/proxy.c:145-193 | in every interleaving a thread whose search succeeded never reaches the writer section |
| RwLock.AfterLeft | proxylab/proxylab/proxy.c:162-193 | a thread that has left the search can go on to the writer section if and only if it did not find its page |
| Cache.CachedItem.constructor | proxylab/proxylab/cache.c:47-69 | the fields are those given, and the size counts the terminator |
| Cache.SameLetter | proxylab/proxylab/cache.c:96-101 | characters are taken for the same exactly when they are equal or the two cases of one letter |
| Cache.List.constructor | proxylab/proxylab/cache.c:17-21 | an empty list |
| Cache.List.RemoveLRU | proxylab/proxylab/cache.c:27-45 | exactly the least recently used item goes; list, total size and count stay right |
| Cache.List.UnlinkHead | proxylab/proxylab/cache.c:32-41 | the links are those of the list without its first item, which is returned |
| Cache.List.MakeRoom | proxylab/proxylab/cache.c:74-76 | the loop ends with room for the object, having evicted the fewest oldest items |
| Cache.List.LinkLast | proxylab/proxylab/cache.c:77-88 | the new node is the last of a doubly linked list |
| Cache.List.InsertCache | proxylab/proxylab/cache.c:70-93 | an object of more than 102400 bytes changes nothing; any other becomes the most recent after the fewest oldest items whose eviction keeps the total within 1049000 bytes |
| Cache.EvictedFewest | proxylab/proxylab/cache.c:74-76 | evicting fewer of the oldest items would not make room; evicting that many does |
| Cache.TouchOrder | proxylab/proxylab/cache.c:111-131 | moving an item to the end keeps the list in order of last use, and its total size |
| Cache.List.Relink | proxylab/proxylab/cache.c:122-129 | the six stores take an inner item to the end of a doubly linked list |
| Cache.List.MoveToEnd | proxylab/proxylab/cache.c:111-131 | an item that is not the head of two or more moves to the end; for the head, `head` stays in front of nothing |
| Cache.LastMatch | proxylab/proxylab/cache.c:96-110 | the position of the most recently used item whose host and path are both those asked for, letter case aside and whatever its port, or -1 |
| Cache.List.Locate | proxylab/proxylab/cache.c:103-108 | the walk from the tail ends at that item |
| Cache.List.FindCache | proxylab/proxylab/cache.c:102-110 | null exactly when no item has both that host and that path, letter case aside, with nothing changed; otherwise the most recently used item that has, now last in the order of use; the links form a list again if the match was not the head of two or more items, and otherwise no sequence of items is the list |
| Cache.HeadHit | proxylab/proxylab/cache.c:111-121 | a run of two insertions and one hit after which no sequence of items is the list |
| Cache.WrongPort | proxylab/proxylab/cache.c:96-110 | a page cached for one port answers a request for another |
| Cache.OtherPage | proxylab/proxylab/cache.c:96-110 | a run in which a page of a host does not answer a request for another page of it |
| Cache.OtherHost | proxylab/proxylab/cache.c:96-110 | nor a page of the same path at another host |
| Cache.OtherCase | proxylab/proxylab/cache.c:96-110 | a run in which a page answers a request that writes its host in the other case |
| Cache.ServeAll | proxylab/proxylab/cache.c:27-131 | over any run of insertions of new items and of searches, none of which hits the head of two or more items, the list stays a list, and its items are those of the run on values: order of use, fewest evictions |
| Rio.RioBuf.constructor | proxylab/proxylab/csapp.c:826-831 | nothing buffered: what is unread is what the descriptor will bring |
| Rio.RioBuf.Read | proxylab/proxylab/csapp.c:799-800 | one read call: a piece of the coming bytes, an interruption, a failure, or end of file for ever |
| Rio.RioBuf.Refill | proxylab/proxylab/csapp.c:798-809 | interruptions are retried; the loop ends with bytes in the buffer, at the end of file, or at a failure, and loses no byte |
| Rio.RioBuf.CopyOut | proxylab/proxylab/csapp.c:811-818 | the copied bytes move from the unread ones to the caller's buffer, and nothing else in it changes |
| Rio.RioBuf.RioRead | proxylab/proxylab/csapp.c:794-819 | delivers a prefix of the unread bytes, empty only at the end of file or for n = 0, and leaves exactly the rest unread |
| Rio.RioBuf.RioReadnb | proxylab/proxylab/csapp.c:838-853 | delivers min(n, remaining) bytes in order whatever the pieces; fails if and only if a failure comes before n bytes |
| Rio.RioBuf.StoreLine | proxylab/proxylab/csapp.c:865-879 | the loop stores the line, or ends at the end of file or at a failure |
| Rio.RioBuf.RioReadlineb | proxylab/proxylab/csapp.c:860-882 | delivers the line through its first newline, cut at maxlen - 1 and terminated, and writes nothing behind the terminator; 0 at the end of file with the buffer untouched; fails if and only if a failure comes before a whole line |
| Rio.LineExactly | proxylab/proxylab/csapp.c:860-882 | a prefix is the line if and only if it stops at the first newline, at the limit or at the end |
| Rio.Serve | proxylab/proxylab/csapp.c:838-882 | over any mix of reads, the bytes delivered followed by the unread ones are the bytes that were to come |
| MemList.List.constructor | linklab/linklab/utils/memlist.c:18-42 | an empty list behind its dummy node |
| MemList.List.Seek | linklab/linklab/utils/memlist.c:71-75 | the scan stops where the address is recorded, or would have to be, with the node before it |
| MemList.List.LinkIn | linklab/linklab/utils/memlist.c:77-91 | the node is linked in at that place |
| MemList.List.Alloc | linklab/linklab/utils/memlist.c:55-95 | a new address is recorded in its place, a known one takes the new size and one more reference; the list stays strictly ascending |
| MemList.List.Dealloc | linklab/linklab/utils/memlist.c:97-113 | exactly the entry of the address loses a reference; null exactly when there is none |
| MemList.List.Find | linklab/linklab/utils/memlist.c:115-126 | the ordered scan that stops early returns the very node the plain scan of dealloc finds |
| MemList.AllocatedEntry | linklab/linklab/utils/memlist.c:71-92 | what is recorded afterwards about every address, the one recorded and any other |
| MemList.DeallocatedEntry | linklab/linklab/utils/memlist.c:103-112 | what is recorded afterwards about every address |
| MemTrace.Tracer.constructor | linklab/linklab/bonus/memtrace.c:39-50 | the book of no calls |
| MemTrace.Tracer.Malloc | linklab/linklab/bonus/memtrace.c:92-110 | the book after the call, and its two log entries: the underlying call, then the line; the call counted once and its bytes once |
| MemTrace.Tracer.Calloc | linklab/linklab/bonus/memtrace.c:111-128 | the same, for nmemb * size bytes |
| MemTrace.Tracer.Realloc | linklab/linklab/bonus/memtrace.c:129-178 | the book and the log after the call, for live, never seen and already freed addresses |
| MemTrace.Tracer.Free | linklab/linklab/bonus/memtrace.c:181-207 | the book and the log after the call; illegal and double frees reach neither the list nor the allocator |
| MemTrace.Tracer.LogUnfreed | linklab/linklab/bonus/memtrace.c:74-79 | the second walk logs exactly the entries with a reference left, in order |
| MemTrace.Tracer.Fini | linklab/linklab/bonus/memtrace.c:55-89 | the statistics, and the leak report if and only if some block is left; no report at all if and only if the program made no allocation call |
| MemTrace.TookAgrees | linklab/linklab/bonus/memtrace.c:92-110 | recording a block keeps the book equal to the hand-kept record of blocks if and only if it was not live |
| MemTrace.GaveAgrees | linklab/linklab/bonus/memtrace.c:181-207 | giving a block back keeps the book equal to the hand-kept record, and the byte counters balanced |
| MemTrace.StepExactly | linklab/linklab/bonus/memtrace.c:92-207 | one call keeps the book right if and only if the allocator answered, not with NULL, and not with a live block; in the hand-kept record NULL is no block and a failed reallocation leaves its block |
| MemTrace.RunAgrees | linklab/linklab/bonus/memtrace.c:92-207 | after any run whose answers are blocks that were not live the entries are the live blocks and the freed ones, and n_allocb - n_freeb is the sum of the live sizes |
| MemTrace.RunExactly | linklab/linklab/bonus/memtrace.c:92-207 | over a run that is never given a live block the book is right if and only if no answer was NULL: it never recovers from one |
| MemTrace.RunTotals | linklab/linklab/bonus/memtrace.c:92-178 | over every run the requests counted are the calls that ask for memory, and n_allocb is the sum of the bytes they ask for |
| MemTrace.RunFreed | linklab/linklab/bonus/memtrace.c:129-207 | in every run of RunAgrees n_freeb is the sum of the sizes of the live blocks given back |
| MemTrace.SoundExactly | linklab/linklab/bonus/memtrace.c:92-207 | one call keeps every cnt at 0 or 1 and n_allocb - n_freeb at the sum of the sizes with cnt 1 if and only if the answer, be it NULL, was not recorded with a reference |
| MemTrace.RunSound | linklab/linklab/bonus/memtrace.c:92-207 | so it is after every run, illegal and double frees and NULL answers included, in which no answer was recorded as live |
| MemTrace.Diagnosis | linklab/linklab/bonus/memtrace.c:129-207 | in every run of RunAgrees only live blocks are passed to the allocator, addresses never handed out are reported as illegal and freed ones as double frees |
| MemTrace.NullIsIllegal | linklab/linklab/bonus/memtrace.c:159-195 | freeing NULL and reallocating it, which are legal, are logged as illegal frees |
| MemTrace.FailedRealloc | linklab/linklab/bonus/memtrace.c:139-153 | a run with a reallocation that fails: its block is still live, but the report names NULL instead of it, and freeing it is logged as a double free and not done |
| MemTrace.LeakReport | linklab/linklab/bonus/memtrace.c:61-79 | in every run of RunAgrees the report names exactly the live blocks with their sizes, in strictly ascending order of address |
| MemTrace.Trace | linklab/linklab/bonus/memtrace.c:92-207 | a whole program under the tracer ends with the book and the log of its calls, to which the statements about runs apply |
| Fcyc.SortedSorts | malloclab/malloclab/src/fcyc.c:82-87 | insertion gives a sorted permutation of the samples |
| Fcyc.BestAreSmallest | malloclab/malloclab/src/fcyc.c:67-88 | the kept values are sorted, come from the samples, and no sample left out is smaller |
| Fcyc.BestAppend | malloclab/malloclab/src/fcyc.c:70-76 | how the k smallest change with one sample: a value not below the last is dropped, any other replaces it |
| Fcyc.ConvergedExactly | malloclab/malloclab/src/fcyc.c:93-98 | the samples have converged if and only if at least k of them are within a factor of 1 + epsilon of the least |
| Fcyc.Sampler.InitSampler | malloclab/malloclab/src/fcyc.c:50-62 | no samples |
| Fcyc.Sampler.AddSample | malloclab/malloclab/src/fcyc.c:67-88 | the array holds the k smallest of all samples so far, in order |
| Fcyc.Sampler.SiftDown | malloclab/malloclab/src/fcyc.c:82-87 | the swaps put a new last value in its place among the sorted ones |
| Fcyc.Sampler.HasConverged | malloclab/malloclab/src/fcyc.c:93-98 | whether the k smallest samples seen are within epsilon of each other |
| Fcyc.Sampler.Sample | malloclab/malloclab/src/fcyc.c:129-153 | the loop samples at most max(1, maxsamples) times, stops early only when converged, and never samples again after that |
| Fcyc.Sampler.FCyc | malloclab/malloclab/src/fcyc.c:129-168 | returns the minimum of all samples taken, at most max(1, maxsamples) of them, fewer only if converged, and never one more after converging |
| Tsh.TokensOfLine | shlab/shlab/tsh.c:205-241 | writing words, quoted or plain, with any spaces, and scanning them gives the texts back |
| Tsh.Reading | shlab/shlab/tsh.c:205-241 | every line is such a list of words, followed by spaces or by a quote that is never closed, so the arguments of every line are the texts of its words |
| Tsh.ParsesBack | shlab/shlab/tsh.c:213-241 | typed words with their newline parse to what they were |
| Tsh.QuotingInverts | shlab/shlab/tsh.c:205-241 | quoting each of any list of quote-free arguments is undone by the tokenizer |
| Tsh.Shell.CopyLine | shlab/shlab/tsh.c:213-214 | the buffer holds the line with its last character turned into a space, and a terminator |
| Tsh.Shell.StrChr | shlab/shlab/tsh.c:222 | the first occurrence before the terminator, or null |
| Tsh.Shell.NextArgument | shlab/shlab/tsh.c:232-241 | the next argument of the line lies between the two pointers found, and there is none if the second is null |
| Tsh.Shell.Terminate | shlab/shlab/tsh.c:229-230 | overwriting the delimiter makes a C string of the argument, and spoils no earlier one and nothing ahead |
| Tsh.Shell.BuildList | shlab/shlab/tsh.c:219-242 | the list holds every argument of the line, in order |
| Tsh.Shell.ParseLine | shlab/shlab/tsh.c:205-253 | argv holds exactly the arguments of the line as C strings and then null, without a last one that is not empty and starts with an ampersand, which is reported as background; a blank line reports background |
| Tsh.Shell.ParseWords | shlab/shlab/tsh.c:205-253 | parsing a line typed as words gives argv their texts, without a last one that starts with an ampersand, which is reported as background |
| Tsh.Shell.ParseQuoted | shlab/shlab/tsh.c:205-253 | parseline inverts quoting: the line that quotes each argument comes back in argv as those arguments, with the same exception for the last |

## Left out

- Mm.Allocator.MmRealloc: calls outside `ReallocSafe`, where a comparison wraps, are not modelled; `Guards.SafeExactly` says exactly which these are.
- Mm.Allocator.MmMalloc: requests above 2^32 - 16, where the adjusted size wraps to 0 or 8, are not modelled; `Heap.AdjustedSizeFits` gives the bound.
- Mm.Allocator.MmFree: an address that is neither a block's nor has a clear allocated bit before it is not modelled; the messages printed for ignored frees are left out.
- Mm.Allocator.InsertFreeBlock: the separate branch for an empty list (mm.c:337-342) is not a branch of the model; it makes the stores of the general path, in the same order.
- MemLib.Memory.Memmove: only copies downwards or between disjoint ranges, of whole words when words are to be followed, which are the ones that occur; memcpy is the same operation.
- Mm.Allocator.Grow: the same; a growing call outside `ReallocSafe` is not modelled.
- MemLib.Memory.Sbrk: a wrapping sum is in the contract, but what the allocator does after one is not modelled: `MmMalloc` and `MmRealloc` ask that growth they need stays inside the address space.
- Ranges.RangeList.AddRange: the linked records are a sequence in a field, so their nodes, and malloc and free for them, are not modelled; error messages are left out.
- Mdriver.Driver.EvalMmValid: nothing is said of what happens after a reallocation in which a comparison wraps; the returned 1 and 0 are the outcomes Passed and Failed.
- Mutil.Accountant.EvalMmUtil: the quotient of the two results is floating point and is left out.
- Cache.CachedItem.constructor: null strings and the conversion of the port by atoi are left out; the port is a number.
- Cache.List.FindCache: one thread at a time; the code relinks the list under a lock that admits several readers (proxy.c:151), and what two concurrent hits do to the links is not modelled.
- RwLock.Exclusion: find_cache and insert_cache are single steps of the protocol; the semaphores are the blocking counters of sem_wait and sem_post without failures.
- Rio.RioBuf.RioRead: the read system call is a list of events fixed beforehand: pieces of data, interruptions and failures, and then end of file.
- MemTrace.Tracer.Calloc: the counters are unbounded, so neither the product nor the counters wrap; call sites (callinfo) are left out.
- Fcyc.Sampler.FCyc: samples are reals supplied by a clock function, so rounding is not modelled; clearing the cache and the choice of counter are left out.
- Tsh.Shell.ParseLine: lines must be non-empty, shorter than MAXLINE and have fewer than MAXARGS arguments, none of which the code checks.
- Layout.CheckExact: what mm_check does on a heap whose views disagree is not modelled.
- Mutil.Accountant.Step: nothing is said of a reallocation in which a comparison wraps.
- Mdriver.Driver.Step: the same.
- Mdriver.Driver.NothingHeld: once a reallocation has left a gap, how many free blocks remain is not stated.
- The list loop of mm_check, which reads the word before each root, that nothing ever sets, and the printing helpers.
- Trace files, timing, scoring, command lines and all printing of mdriver.c; clock.c, ftimer.c and fsecs.c.
- Sockets, headers, URIs and the response copy loop of the proxy; create_CI beyond the size it computes; freeing of evicted items.
- Process control, signal handlers and the job table of the shell.
- The tracers of parts 1 to 3, dlsym and the lookup of call sites.
- The kernel modules of kernellab.
