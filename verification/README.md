# Explicit-list allocator with boundary tags, in Dafny

This project models `mm.c`, a malloc/free/realloc package written for a
simulated arena (`memlib`: `mem_sbrk`, `mem_heap_lo`, `mem_heap_hi`).
Every block of the arena carries a 24-byte header (prev link, next link,
size word) and an 8-byte footer naming its header. The size word holds the
payload size, a multiple of 8, with the free tag in its lowest bit. Two
sentinel headers at the low end of the arena anchor two circular doubly
linked lists: the allocated list at offset 0 and the free list at offset 24.

- `mm_init` lays out the two self-circular sentinels and one free block of
  payload 0.
- `mm_malloc` rounds the request up to 8 and walks the free list for the
  first block whose payload reaches it.
  - It splits that block when the remainder can hold a block of payload 8,
    carving the new block from the tail.
  - Otherwise it hands out the whole block.
  - When nothing fits, `sbrkBlk` either grows a free last block in place or
    appends a new block at the old break.
- `mm_free` unlinks the block and merges it with a free physical successor,
  then into a free physical predecessor (`mm_coalesce`). The survivor goes
  to the end of the free list. mm.c tags it free only when its payload is
  nonzero; the model tags it always (see Findings).
- `mm_realloc` is `mm_malloc`, a copy of the smaller of the old payload and
  the request, and `mm_free`.

The heap is a record (`HeapState.Heap`): the break, the header words and
footer words written so far keyed by offset, and a separate map of payload
bytes. Each C function is a pure transition on it that performs the same
writes in the same order (`Steps`, `Lists`, `Navigator`). `Invariant.Inv`
states what a well-formed heap looks like over three ghost views:
- the blocks tile the arena from the sentinels to the break;
- every block has an aligned payload and a footer naming its header;
- no two adjacent blocks are both tagged free;
- each block is on exactly one of the two rings, tagged as its ring says
  (allocated blocks untagged, free blocks tagged), so no two adjacent
  blocks are both on the free list.

`Invariant.Valid` is `Inv` on the views read off the heap itself. The proof
modules show that `mm_init` establishes it and that every entry point keeps
it. They also prove what each entry point returns.

Module layout follows the program: `Layout` (the macros and constants),
`HeapState` (the words and `mem_sbrk`), `Navigator` (getPrevPhyBlk,
getNextPhyBlk), `Lists` (removeFromList, addToAllocList, addToFreeList),
`Steps` (mm_init, sbrkBlk, the scan, split, coalesce, free, memcpy),
`Invariant`, `Frame`, the proof modules `InitProofs`, `MallocProofs`,
`SplitProofs`, `ExtendProofs`, `FreeProofs`, `Allocator` (the entry
points), and `FreeAsWritten` (mm_free's relink as mm.c writes it).

## Model

| member | source | states |
|---|---|---|
| Layout.Align | mm.c:52-53 | ALIGN gives a multiple of 8 that is at least n and less than n + 8 |
| Layout.AlignIsLeast | mm.c:52-53 | ALIGN gives the least multiple of 8 not below n |
| Layout.AlignDown | mm.c:54 | ALIGN_DOWN gives the greatest multiple of 8 not above n |
| Layout.AlignWrapped | mm.c:53 | ALIGN evaluated on a 64-bit size_t gives an aligned value that fits in size_t |
| Layout.AlignWrappedAgrees | mm.c:53 | for n up to SIZE_MAX − 7 the size_t ALIGN equals the exact rounding |
| Layout.AlignWrappedDrops | mm.c:53 | for n above SIZE_MAX − 7 the size_t ALIGN wraps to 0, below the request, as mm_malloc's first line computes it |
| Layout.BlockSpanWrapped | mm.c:199 | sbrkBlk's append request, evaluated on size_t, is aligned and fits in size_t |
| Layout.BlockSpanWraps | mm.c:199 | for req = SIZE_MAX − 15 sbrkBlk asks mem_sbrk for 16 bytes, fewer than the block it then describes |
| Layout.Untag | mm.c:66 | `size & ~1` is even and differs from the size word only in the tag bit |
| Layout.Tag | mm.c:339-340 | `size \| 1` carries the free tag and keeps the payload size |
| Layout.UntagAddEven | mm.c:312 | mm_coalesce's `+=` of an even span keeps the tag and adds to the payload |
| Invariant.NextPhysIsSuccessor | mm.c:65-71 | carries Navigator.NextPhysBlock: on a tiled heap getNextPhyBlk returns the next block, and none after the last one |
| Invariant.PrevPhysIsPredecessor | mm.c:59-63 | carries Navigator.PrevPhysBlock: on a tiled heap getPrevPhyBlk returns the previous block, and none for the first one |
| Invariant.LastFooter | mm.c:184-185 | the footer at ALIGN_DOWN(mem_heap_hi()) belongs to the last physical block and names it |
| Lists.Unlink | mm.c:98-101 | removeFromList writes only link words: no size word or footer changes and the break stays |
| Lists.UnlinkMember | mm.c:98-101 | unlinking the i-th member leaves the ring without it; only its two neighbours' links change |
| Lists.UnlinkTwice | mm.c:98-101 | after removeFromList the block is spliced out, so a second removeFromList changes nothing |
| Lists.LinkBefore | mm.c:122-134 | addToAllocList/addToFreeList write only link words and give b a header |
| Lists.LinkEffect | mm.c:122-134 | the four writes: b points back to the old last member and on to the sentinel, which both point to b |
| Lists.LinkAppends | mm.c:122-134 | carries Lists.LinkAllocated and Lists.LinkFree: linking a block on no list appends it to the end of the ring and changes no size word |
| Lists.WalkFromSentinel | mm.c:266 | following next links from the sentinel's next yields the ring in order |
| Steps.Copy | mm.c:361 | memcpy makes the k bytes at dst read as the k bytes at src did, and leaves every other byte alone |
| InitProofs.InitLayout | mm.c:144-166 | carries Steps.Init: mm_init obtains 80 bytes, writes exactly the three headers, and lays out both sentinels and a tagged free block of payload 0 whose footer at 72 names it |
| InitProofs.InitValid | mm.c:144-166 | carries Steps.Init: the heap mm_init builds is valid: one free block, no allocated block |
| MallocProofs.FirstFitIsFirst | mm.c:266-269 | carries Steps.FirstFit: the scan returns nothing exactly when every free block is too small, and otherwise the first fitting block in list order |
| MallocProofs.TakeWholeKeeps | mm.c:292-296 | carries Steps.TakeWhole: the whole-block branch moves the block from its place on the free list to the end of the allocated list, untagged, with its payload; the invariant holds |
| SplitProofs.SplitKeeps | mm.c:271-290 | carries Steps.SplitBlock: the split branch leaves b on the free list, tagged, with payload reduced by size + 32, and appends the carved block, physically right after b, to the allocated list with payload size; the invariant holds and the break stays |
| SplitProofs.SplitSparesAllocated | mm.c:278-290 | the split branch writes no allocated block's size word |
| ExtendProofs.AppendSpan | mm.c:199 | for an aligned request, on unbounded integers, sbrkBlk obtains exactly payload plus overhead |
| ExtendProofs.AppendKeeps | mm.c:198-204 | the append branch puts a block of payload req at the old break, last in the arena and on the allocated list, and moves the break past its footer |
| ExtendProofs.GrowKeeps | mm.c:188-196 | the reuse branch moves the free last block to the end of the allocated list, untagged with payload req, and grows the break by what it lacked |
| ExtendProofs.NoFitAllowsExtend | mm.c:186-190 | when nothing fits, a tagged last block is on the free list and smaller than the request, so `req_size - current_size` does not wrap |
| ExtendProofs.ExtendKeeps | mm.c:182-205 | carries Steps.ExtendHeap: sbrkBlk keeps the invariant on both branches and returns an allocated block with payload exactly req |
| ExtendProofs.ExtendSpares | mm.c:182-205 | sbrkBlk writes no size word but the returned block's |
| FreeProofs.ForwardKeeps | mm.c:306-332 | carries Steps.Coalesce in its forward use: merging with a free successor keeps the in-free invariant, grows the block over the successor's span and drops the swallowed blocks |
| FreeProofs.CoalesceSpares | mm.c:306-317 | carries Steps.Coalesce's frame: mm_coalesce keeps the surviving block and writes no size word but its own |
| FreeProofs.BackwardKeeps | mm.c:333-336 | carries Steps.Coalesce in its backward use: merging into a free predecessor keeps the in-free invariant and the predecessor survives |
| FreeProofs.RelinkKeeps | mm.c:338-341 | carries the corrected Steps.FreeRelink: the survivor goes last on the free list, tagged free whatever its payload, and the invariant holds again |
| FreeProofs.FreeKeeps | mm.c:324-342 | carries Steps.FreeBlock: mm_free leaves a valid heap, removes d from the allocated list, and leaves the survivor last on the free list, tagged free, covering d's old span |
| FreeProofs.FreeMembership | mm.c:324-342 | after mm_free the blocks are the old ones minus those inside the survivor, and the free list is the survivor plus the old free blocks still standing |
| FreeProofs.FreeSpares | mm.c:324-342 | mm_free writes no size word but the freed block's and the surviving block's; hence every untagged block other than the freed one keeps its size word |
| Allocator.ScanFuel | mm.c:266 | the free list is never longer than the break, so the scan's step bound is never reached |
| Allocator.NoFitExtendSafe | mm.c:184-190 | when the scan finds nothing, sbrkBlk's reads are defined and its unsigned difference does not wrap |
| Allocator.ScanFindsFirstFit | mm.c:266-269 | on a valid heap the scan lands on the first fitting free block |
| Allocator.Malloc | mm.c:258-301 | mm_malloc leaves the payload byte map as it was |
| Allocator.MallocSplit | mm.c:271-290 | when the first fit is worth splitting, the granted block is carved from its tail with payload exactly ALIGN(n) |
| Allocator.MallocWhole | mm.c:292-296 | when the first fit is not worth splitting, that block itself is granted with its whole payload |
| Allocator.MallocExtend | mm.c:299-300 | when nothing fits, the arena grows and the granted block has payload exactly ALIGN(n) |
| Allocator.MallocKeeps | mm.c:258-301 | mm_malloc keeps the heap valid and appends the granted block to the allocated list; the pointer is live, aligned, and has payload at least ALIGN(n) |
| Allocator.MallocPlacement | mm.c:258-301 | the block lies inside the first fitting free block and is that block exactly when no split happens; the arena grows exactly when nothing fits |
| Allocator.MallocSpares | mm.c:258-301 | mm_malloc writes no already-allocated block's size word |
| Allocator.AllocatedAligned | mm.c:290-299 | allocated blocks, and so the returned payload addresses, are 8-aligned |
| Allocator.AllocatedApart | mm.c:8-9 | two different allocated blocks do not overlap |
| Allocator.FreeSafe | mm.c:329-335 | mm_free's merge into a predecessor reads a successor that exists |
| Allocator.FreeBlockValid | mm.c:324-342 | freeing a live pointer keeps the heap valid, removes its block from the allocated list, and the pointer is no longer live |
| Allocator.FreeBlockSurvivor | mm.c:324-342 | the survivor is last on the free list, starts at or below the freed block and covers its old span |
| Allocator.Free | mm.c:324-342 | mm_free keeps the heap valid, takes the block off the allocated list, puts a survivor covering it last on the free list, writes no other allocated size word, and leaves no two adjacent blocks both on the free list |
| Allocator.FreeApart | mm.c:321 | coalescing by list membership: on a valid heap no two physically adjacent blocks are both on the free list |
| FreeAsWritten.UntaggedNeighbour | mm.c:339-341 | with the relink as written, mm_init; mm_malloc(8); mm_malloc(0); mm_free of both leaves blocks 48 and 88 adjacent and both on the free ring, 88 untagged; the corrected relink tags 88 |
| Allocator.CopyLength | mm.c:358-360 | the copy length is the request or the size word below the pointer, whichever is smaller |
| Allocator.ReallocSafe | mm.c:355-361 | after mm_realloc's mm_malloc the old pointer is still live, its size word is the old payload size, and the copy runs between disjoint payloads |
| Allocator.MallocKeepsOld | mm.c:355-358 | mm_realloc's mm_malloc grants a block other than ptr's, and ptr stays live with its size word unchanged |
| Allocator.ReallocLength | mm.c:358-361 | mm_realloc copies min(request, old payload) bytes, between non-overlapping payloads |
| Allocator.Realloc | mm.c:349-364 | mm_realloc leaves a valid heap in which the returned pointer is live and the old pointer is not |
| Allocator.ReallocKeeps | mm.c:349-364 | mm_realloc keeps the heap valid; the new pointer is live, aligned, with payload at least ALIGN(n); the old one is not; the allocated blocks are the old ones with the old block traded for the new |
| Allocator.ReallocCopies | mm.c:358-362 | after mm_realloc the first min(request, old payload) bytes at the new pointer are the old payload's, and every other payload byte is as it was |

## Left out

- Lists.Unlink: the `h_next == 0` branch of removeFromList (mm.c:102-106) is not modelled. Offsets start at 0, which is the allocated-list sentinel, so NULL has no value of its own here. On a well-formed heap every listed block's next link names a header (a member or a sentinel), never NULL, so none of the modelled operations reaches that branch.
- HeapState.Sbrk: mem_sbrk never fails. mm.c never checks its result (mm.c:145, 191, 199), so the arena running out, and the `(void *)-1` it would return, are not modelled. The allocation-failure results that a growth failure should give are left out with it.
- Allocator.Realloc: Malloc always grants a block, so the `newptr == NULL` branch at mm.c:356-357 never runs in the model. In mm.c, mm_malloc never returns NULL either.
- HeapState.HeapHi: mem_heap_hi() is taken to be the break minus one, and mem_heap_lo() to be offset 0. memlib is not part of this model.
- HeapState.Heap: payload bytes are kept in a map apart from the header and footer words. A metadata write neither removes nor changes an entry of that map.
- Allocator.Malloc: the frame `g.heap.bytes == h.bytes` speaks of that payload byte map, not of raw memory. The split branch writes a footer at c − 8 and a header at c inside the chosen free block's former payload (mm.c:282-289), and in C those bytes change.
- Allocator.MallocKeeps: the same byte-map frame as Malloc, with the same limit.
- Allocator.ReallocCopies: "every other payload byte is as it was" is likewise about the byte map. The header and footer words that mm_realloc's malloc and free write are not reflected in it.
- Allocator.Malloc: requests are unbounded integers and use the exact Align. C's ALIGN wraps in size_t for n > SIZE_MAX − 7 (mm.c:260). `size + HEADER_SIZE + FOOTER_SIZE` (mm.c:271) and `req_size + FOOTER_SIZE + HEADER_SIZE` (mm.c:199) wrap near SIZE_MAX as well. The wrapping is modelled on its own in Layout and recorded under Findings.
- Layout.Align: stated over unbounded integers; its size_t evaluation is Layout.AlignWrapped.
- Allocator.Malloc: a request of 0 bytes gets a block of payload 0, as mm.c:260 computes. The documented intent of a minimum payload of one alignment unit is not what the code does, and the model follows the code.
- Steps.FreeRelink: tags the survivor free whatever its payload. mm.c:339-341 tags it only when the payload is nonzero. The as-written relink is Steps.FreeRelinkAsWritten, and FreeAsWritten.UntaggedNeighbour shows where it leads (see Findings).
- Invariant.ListTags: demands the tag on every free-list block, as mm_check does (mm.c:216-222). mm.c as written breaks this: after mm_init; a = mm_malloc(8); b = mm_malloc(0); mm_free(b) the free block 88 carries size word 0, untagged. The model holds this invariant only because of the corrected relink.
- Invariant.Coalesced: stated over tags. With the relink as written, the same calls followed by mm_free(a) leave blocks 48 and 88 adjacent and both on the free list, unmerged. The model's statement by list membership, Allocator.FreeApart, holds only because of the corrected relink.
- Steps.FirstFit, Lists.Walk: the walks carry a step bound of the break. Allocator.ScanFuel shows it is never reached on a valid heap.
- Pointer width: addresses are unbounded offsets from the low end of the arena, and 64-bit pointer wrap-around is not modelled.
- The commented-out debugging helpers (memdump, isAddressOnAllocList), the `team` record and all I/O are not modelled.

## Findings

| source | as written | input that shows it | evidently intended | confidence | as-written member | corrected member |
|---|---|---|---|---|---|---|
| mm.c:53, 260 | `size = ALIGN(size)` on a size_t wraps to 0 for size > SIZE_MAX − 7 | on a fresh heap, `mm_malloc(SIZE_MAX)` rounds to 0 and the whole-block branch hands out the free block of payload 0 | a request is never rounded below itself, or it fails | not executed; the arithmetic is proved | Layout.AlignWrappedDrops | Layout.Align |
| mm.c:199 | `mem_sbrk(ALIGN(req_size+FOOTER_SIZE+HEADER_SIZE))` wraps when req_size is near SIZE_MAX | after `mm_init` and `mm_malloc(8)` the last block is allocated; `mm_malloc(SIZE_MAX - 15)` then asks mem_sbrk for 16 bytes and writes a header claiming a payload of SIZE_MAX − 15 | the arena grows by the whole block, payload plus 32 bytes | not executed; the arithmetic is proved | Layout.BlockSpanWraps | ExtendProofs.AppendSpan |
| mm.c:339-341 | `if (thisBlk->h_size & ~1)` skips the free tag when the freed block's payload is 0 | mm_init; a = mm_malloc(8); b = mm_malloc(0); mm_free(b); mm_free(a) leaves blocks 48 and 88 physically adjacent, both on the free list, unmerged, with 88 untagged | every free-list block is tagged, as mm_check demands, so that adjacent free blocks always merge | not executed; the trace is proved | FreeAsWritten.UntaggedNeighbour | Allocator.FreeApart |
