/**
 * The allocator's operations below the public entry points, each a pure
 * transition on the heap record that performs the same reads and writes,
 * in the same order, as the corresponding C function.
 */
module Steps {
  import opened Layout
  import opened HeapState
  import opened Opt
  import opened Lists
  import opened Navigator

  /** A heap together with the header of the block an operation settled on. */
  datatype BlockStep = BlockStep(heap: Heap, blk: nat)

  /** A heap together with the payload address handed back to the caller. */
  datatype Grant = Grant(heap: Heap, ptr: nat)

  /** An arena before mm_init: nothing obtained yet, no metadata word written. */
  predicate FreshArena(a: Heap) {
    a.brk == 0 && a.hdr == map[] && a.ftr == map[]
  }

  /**
   * mm_init, first part: obtain two sentinel headers plus one header/footer
   * pair from the arena provider, make both sentinels self-circular, tag
   * the third header free with payload 0 and point its footer at it.
   */
  function Prologue(a: Heap): Heap {
    var p := a.brk;
    var h1 := Sbrk(a, 3 * HeaderSize + FooterSize);
    var h2 := SelfLoop(h1, p);
    var freeBase := p + HeaderSize;
    var h3 := SelfLoop(h2, freeBase);
    var freeHeader := freeBase + HeaderSize;
    var h4 := SetSize(h3, freeHeader, EmptyFree);
    SetFooter(h4, freeHeader + HeaderSize, freeHeader)
  }

  /** mm_init: the prologue, then the first free block goes on the free list. */
  function Init(a: Heap): Heap {
    LinkFree(Prologue(a), a.brk + 2 * HeaderSize)
  }

  /** The header named by the footer word at ALIGN_DOWN(mem_heap_hi()). */
  function LastBlock(h: Heap): nat
    requires h.brk > 0
  {
    Ft(h, AlignDown(HeapHi(h)))
  }

  /**
   * sbrkBlk: if the last physical block is tagged free, reuse it grown to
   * the request; otherwise append a new allocated block at the old break.
   * The caller guarantees that a tagged last block is not larger than the
   * request (mm_malloc's scan has already skipped it), so the unsigned
   * difference the first branch computes does not wrap.
   */
  function ExtendHeap(h: Heap, req: nat): (s: BlockStep)
    requires h.brk > 0
    requires Tagged(h, LastBlock(h)) ==> PayloadSize(h, LastBlock(h)) <= req
  {
    var last := LastBlock(h);
    if Tagged(h, last) then BlockStep(GrowLast(h, last, req), last)
    else BlockStep(AppendBlock(h, req), h.brk)
  }

  /**
   * sbrkBlk's first branch: take the free last block off the free list,
   * obtain the bytes it lacks, give it payload req, write its footer at the
   * new end of the arena and put it on the allocated list.
   */
  function GrowLast(h: Heap, last: nat, req: nat): Heap
    requires h.brk > 0 && PayloadSize(h, last) <= req
  {
    GrowTail(Unlink(h, last), last, req, NeededSize(req, PayloadSize(h, last)))
  }

  /**
   * The reuse branch once b is off the free list: obtain grow more bytes,
   * give b payload req, write its footer at ALIGN_DOWN(mem_heap_hi()) and
   * put it on the allocated list.
   */
  function GrowTail(h: Heap, b: nat, req: nat, grow: nat): Heap
    requires h.brk + grow > 0
  {
    var h3 := SetSize(Sbrk(h, grow), b, req);
    LinkAllocated(SetFooter(h3, AlignDown(HeapHi(h3)), b), b)
  }

  /** `req_size - current_size`: what the free last block lacks; the caller ensures it does not wrap. */
  function NeededSize(req: nat, current: nat): (n: nat)
    requires current <= req
    ensures current + n == req
  {
    req - current
  }

  /**
   * sbrkBlk's second branch: obtain a whole aligned block at the old break,
   * give it payload req, put it on the allocated list and write its footer.
   */
  function AppendBlock(h: Heap, req: nat): Heap {
    var blk := h.brk;
    var h1 := Sbrk(h, Align(req + FooterSize + HeaderSize));
    var h2 := SetSize(h1, blk, req);
    var h3 := LinkAllocated(h2, blk);
    SetFooter(h3, blk + HeaderSize + req, blk)
  }

  /**
   * mm_malloc's scan: follow next links from cur until the free-list
   * sentinel and stop at the first block whose untagged payload is at least
   * size. The fuel bounds the walk; it is never exhausted on a well-formed heap.
   */
  function FirstFit(h: Heap, cur: nat, size: nat, fuel: nat): Option<nat>
    decreases fuel
  {
    if fuel == 0 || cur == FreeBase then None
    else if PayloadSize(h, cur) < size then FirstFit(h, Hd(h, cur).next, size, fuel - 1)
    else Some(cur)
  }

  /** mm_malloc's split test, `chunkSize + minFreeSize <= currentFreeSize`. */
  predicate SplitWorthwhile(payload: nat, size: nat) {
    size + Overhead + MinFreeSize <= payload + Overhead
  }

  /**
   * The first half of mm_malloc's split branch: the free block b gives up
   * chunkSize bytes, then gets its free tag back.
   */
  function ShrinkFree(h: Heap, b: nat, chunkSize: nat): Heap
    requires chunkSize <= Untag(Hd(h, b).size)
  {
    var h1 := SetSize(h, b, Untag(Hd(h, b).size) - chunkSize);
    SetSize(h1, b, Tag(Hd(h1, b).size))
  }

  /**
   * The second half: the allocated block at chunk joins the allocated list,
   * gets payload size, and the footers of both it and the free block below
   * it (whose header is at freeHeader) are written.
   */
  function PlaceChunk(h: Heap, chunk: nat, size: nat, freeHeader: nat): Heap
    requires chunk >= FooterSize
  {
    var chunkFooter := chunk + HeaderSize + size;
    var freeFooter := chunk - FooterSize;
    var h1 := LinkAllocated(h, chunk);
    var h2 := SetSize(h1, chunk, size);
    var h3 := SetFooter(h2, freeFooter, freeHeader);
    SetFooter(h3, chunkFooter, chunk)
  }

  /** `(void*)this + currentFreeSize - chunkSize`: the header of the carved block, at the tail of b's span. */
  function ChunkHeader(b: nat, currentFreeSize: nat, chunkSize: nat): nat
    requires chunkSize <= currentFreeSize
  {
    b + currentFreeSize - chunkSize
  }

  /**
   * mm_malloc's split branch: shrink the free block b in place (it stays on
   * the free list, re-tagged), and carve an allocated block of payload size
   * from the tail of its span.
   */
  function SplitBlock(h: Heap, b: nat, size: nat): (g: Grant)
    requires SplitWorthwhile(PayloadSize(h, b), size)
  {
    var chunkSize := size + Overhead;
    var currentFreeSize := PayloadSize(h, b) + Overhead;
    var chunk := ChunkHeader(b, currentFreeSize, chunkSize);
    Grant(PlaceChunk(ShrinkFree(h, b, chunkSize), chunk, size, b), chunk + HeaderSize)
  }

  /** mm_malloc's whole-block branch: move b to the allocated list and clear its tag. */
  function TakeWhole(h: Heap, b: nat): (g: Grant) {
    var h1 := Unlink(h, b);
    var h2 := LinkAllocated(h1, b);
    var h3 := SetSize(h2, b, Untag(Hd(h2, b).size));
    Grant(h3, b + HeaderSize)
  }

  /** mm_coalesce after its two unlinks: kept's size word grows by next's span, and a footer naming kept ends it. */
  function Absorb(h: Heap, kept: nat, next: nat): Heap {
    var h3 := SetSize(h, kept, Hd(h, kept).size + HeaderSize + PayloadSize(h, next) + FooterSize);
    SetFooter(h3, kept + HeaderSize + PayloadSize(h3, kept), kept)
  }

  /**
   * mm_coalesce: unlink kept and its physical successor, grow kept's size
   * word by the successor's whole span (its tag bit is left as it was), and
   * write a footer naming kept at the new end.
   */
  function Coalesce(h: Heap, kept: nat): (s: BlockStep)
    requires NextPhysBlock(h, kept).Some?
  {
    var next := NextPhysBlock(h, kept).value;
    BlockStep(Absorb(Unlink(Unlink(h, kept), next), kept, next), kept)
  }

  /** mm_free, merging with the physical successor when it is tagged free. */
  function FreeForward(h: Heap, b: nat): (s: BlockStep) {
    var next := NextPhysBlock(h, b);
    if next.Some? && Tagged(h, next.value) then Coalesce(h, b) else BlockStep(h, b)
  }

  /** The condition under which mm_free may coalesce into the predecessor of s.blk. */
  predicate BackwardMergeable(s: BlockStep) {
    var prev := PrevPhysBlock(s.heap, s.blk);
    prev.Some? && Tagged(s.heap, prev.value)
  }

  /** mm_coalesce on the predecessor reads that predecessor's successor, which must exist. */
  predicate BackwardSafe(s: BlockStep) {
    BackwardMergeable(s) ==> NextPhysBlock(s.heap, PrevPhysBlock(s.heap, s.blk).value).Some?
  }

  /** mm_free, merging into the physical predecessor when it is tagged free. */
  function FreeBackward(s: BlockStep): (r: BlockStep)
    requires BackwardSafe(s)
  {
    if BackwardMergeable(s) then Coalesce(s.heap, PrevPhysBlock(s.heap, s.blk).value) else s
  }

  /**
   * mm_free's last step, corrected: put the survivor on the free list and
   * tag it free whatever its payload (mm.c skips the tag on payload 0; see
   * FreeRelinkAsWritten).
   */
  function FreeRelink(s: BlockStep): (h: Heap) {
    var h1 := LinkFree(s.heap, s.blk);
    SetSize(h1, s.blk, Tag(Hd(h1, s.blk).size))
  }

  /** mm_free's last step as mm.c writes it: the tag is set only on a nonzero payload. */
  function FreeRelinkAsWritten(s: BlockStep): (h: Heap) {
    var h1 := LinkFree(s.heap, s.blk);
    if Untag(Hd(h1, s.blk).size) != 0 then SetSize(h1, s.blk, Tag(Hd(h1, s.blk).size)) else h1
  }

  /**
   * mm_free on the header d: leave the allocated list, merge forward, merge
   * backward, relink. The result names the block that went on the free list.
   */
  function FreeBlock(h: Heap, d: nat): (s: BlockStep)
    requires BackwardSafe(FreeForward(Unlink(h, d), d))
  {
    var s2 := FreeBackward(FreeForward(Unlink(h, d), d));
    BlockStep(FreeRelink(s2), s2.blk)
  }

  /** mm_free on the header d, with the relink as mm.c writes it. */
  function FreeBlockAsWritten(h: Heap, d: nat): (s: BlockStep)
    requires BackwardSafe(FreeForward(Unlink(h, d), d))
  {
    var s2 := FreeBackward(FreeForward(Unlink(h, d), d));
    BlockStep(FreeRelinkAsWritten(s2), s2.blk)
  }

  /**
   * after reads as before, except that the k bytes from dst on read as the
   * k bytes from src on did in before.
   */
  ghost predicate CopiedWindow(before: map<nat, byte>, after: map<nat, byte>, dst: nat, src: nat, k: nat) {
    && (forall a :: dst <= a < dst + k ==> (a in after <==> src + (a - dst) in before))
    && (forall a :: dst <= a < dst + k && a in after && src + (a - dst) in before ==> after[a] == before[src + (a - dst)])
    && (forall a :: (a < dst || dst + k <= a) ==> (a in after <==> a in before))
    && (forall a :: (a < dst || dst + k <= a) && a in after && a in before ==> after[a] == before[a])
  }

  /** memcpy(dst, src, n) on payload bytes; a source byte of unknown value leaves its copy unknown. */
  function Copy(bytes: map<nat, byte>, dst: nat, src: nat, n: nat): (r: map<nat, byte>)
    requires dst + n <= src || src + n <= dst
    ensures CopiedWindow(bytes, r, dst, src, n)
  {
    var outside := set a | a in bytes && (a < dst || dst + n <= a);
    var copied := set k | k in bytes && src <= k < src + n :: dst + (k - src);
    map a | a in outside + copied :: if dst <= a < dst + n then bytes[src + (a - dst)] else bytes[a]
  }
}
