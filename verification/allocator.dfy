/**
 * The allocator's public entry points, mm_malloc, mm_free and mm_realloc,
 * on a heap that mm_init built and that only these operations have changed
 * since (Valid), with what each of them promises.
 */
module Allocator {
  import opened Layout
  import opened HeapState
  import opened Opt
  import opened Seqs
  import opened Lists
  import opened Invariant
  import opened Frame
  import opened Steps
  import opened MallocProofs
  import opened SplitProofs
  import opened ExtendProofs
  import opened FreeProofs

  /** The free list is never longer than the break, so the scan's fuel bound is never reached. */
  lemma ScanFuel(h: Heap)
    requires Valid(h)
    ensures |FreeOrder(h)| <= h.brk
  {
    TilesOrdered(h, Blocks(h));
  }

  /** When mm_malloc's scan finds nothing, sbrkBlk's reads and its unsigned difference are defined. */
  lemma NoFitExtendSafe(h: Heap, size: nat)
    requires Valid(h) && FirstFit(h, Hd(h, FreeBase).next, size, h.brk).None?
    ensures h.brk > 0 && (Tagged(h, LastBlock(h)) ==> PayloadSize(h, LastBlock(h)) <= size)
  {
    ScanFuel(h);
    FirstFitIsFirst(h, FreeOrder(h), size, h.brk);
    NoFitAllowsExtend(h, Blocks(h), FreeOrder(h), AllocOrder(h), size);
  }

  /**
   * mm_malloc: round the request up to the alignment, take the first free
   * block in list order whose payload reaches it (splitting it when the
   * remainder is worth keeping), otherwise grow the arena.
   */
  function Malloc(h: Heap, n: nat): (g: Grant)
    requires Valid(h)
    ensures g.heap.bytes == h.bytes
  {
    var size := Align(n);
    var fit := FirstFit(h, Hd(h, FreeBase).next, size, h.brk);
    if fit.Some? then
      if SplitWorthwhile(PayloadSize(h, fit.value), size) then SplitBlock(h, fit.value, size)
      else TakeWhole(h, fit.value)
    else
      NoFitExtendSafe(h, size);
      var s := ExtendHeap(h, size);
      Grant(s.heap, s.blk + HeaderSize)
  }

  /** The scan lands on the first fitting free block, when there is one. */
  lemma ScanFindsFirstFit(h: Heap, size: nat, j: nat, b: nat)
    requires Valid(h) && IsFirstFit(h, FreeOrder(h), size, j) && FreeOrder(h)[j] == b
    ensures FirstFit(h, Hd(h, FreeBase).next, size, h.brk) == Some(b)
  {
    ScanFuel(h);
    FirstFitIsFirst(h, FreeOrder(h), size, h.brk);
    var r := FirstFit(h, Hd(h, FreeBase).next, size, h.brk);
    if r.Some? {
      var k := IndexOf(FreeOrder(h), r.value);
      assert IsFirstFit(h, FreeOrder(h), size, k);
      assert !(k < j) && !(j < k);
    }
  }

  /** The split branch's grant, stated on SplitBlock itself. */
  lemma SplitGrant(h: Heap, n: nat, b: nat)
    requires Valid(h) && b in FreeOrder(h)
    requires SplitWorthwhile(PayloadSize(h, b), Align(n))
    ensures var g, c := SplitBlock(h, b, Align(n)), Carved(h, b, Align(n));
      && g.ptr == c + HeaderSize
      && Valid(g.heap)
      && AllocOrder(g.heap) == AllocOrder(h) + [c]
      && PayloadSize(g.heap, c) == Align(n)
      && b < c && c + Align(n) + Overhead == BlockEnd(h, b)
      && g.heap.brk == h.brk
  {
    var bs := Blocks(h);
    assert b in bs;
    var i := IndexOf(bs, b);
    SplitKeeps(h, bs, FreeOrder(h), AllocOrder(h), i, b, Align(n));
    ViewsUnique(SplitBlock(h, b, Align(n)).heap, InsertAt(bs, i + 1, Carved(h, b, Align(n))),
                FreeOrder(h), AllocOrder(h) + [Carved(h, b, Align(n))]);
  }

  /** mm_malloc's split branch: the granted block c is carved from the tail of the first fitting block b. */
  lemma MallocSplit(h: Heap, n: nat, j: nat, b: nat) returns (c: nat)
    requires Valid(h) && IsFirstFit(h, FreeOrder(h), Align(n), j) && FreeOrder(h)[j] == b
    requires SplitWorthwhile(PayloadSize(h, b), Align(n))
    ensures var g := Malloc(h, n);
      && g.ptr == c + HeaderSize
      && Valid(g.heap)
      && AllocOrder(g.heap) == AllocOrder(h) + [c]
      && PayloadSize(g.heap, c) == Align(n)
      && b < c && c + Align(n) + Overhead == BlockEnd(h, b)
      && g.heap.brk == h.brk
  {
    ScanFindsFirstFit(h, Align(n), j, b);
    SplitGrant(h, n, b);
    c := Carved(h, b, Align(n));
  }

  /** mm_malloc's whole-block branch: the first fitting block b itself is granted. */
  lemma MallocWhole(h: Heap, n: nat, j: nat, b: nat)
    requires Valid(h) && IsFirstFit(h, FreeOrder(h), Align(n), j) && FreeOrder(h)[j] == b
    requires !SplitWorthwhile(PayloadSize(h, b), Align(n))
    ensures var g := Malloc(h, n);
      && g.ptr == b + HeaderSize
      && Valid(g.heap)
      && AllocOrder(g.heap) == AllocOrder(h) + [b]
      && PayloadSize(g.heap, b) == PayloadSize(h, b) >= Align(n)
      && g.heap.brk == h.brk
  {
    ScanFindsFirstFit(h, Align(n), j, b);
    TakeWholeKeeps(h, Blocks(h), FreeOrder(h), AllocOrder(h), j);
    ViewsUnique(TakeWhole(h, b).heap, Blocks(h), RemoveAt(FreeOrder(h), j), AllocOrder(h) + [b]);
  }

  /** mm_malloc's growth branch: no free block fits, so the arena grows and the granted block b has payload exactly Align(n). */
  lemma MallocExtend(h: Heap, n: nat) returns (b: nat)
    requires Valid(h)
    requires forall m :: 0 <= m < |FreeOrder(h)| ==> PayloadSize(h, FreeOrder(h)[m]) < Align(n)
    ensures var g := Malloc(h, n);
      && g.ptr == b + HeaderSize
      && Valid(g.heap)
      && AllocOrder(g.heap) == AllocOrder(h) + [b]
      && PayloadSize(g.heap, b) == Align(n)
      && g.heap.brk > h.brk
  {
    ScanFuel(h);
    FirstFitIsFirst(h, FreeOrder(h), Align(n), h.brk);
    var bs, fl, al := Blocks(h), FreeOrder(h), AllocOrder(h);
    ExtendKeeps(h, bs, fl, al, Align(n));
    var last := bs[|bs| - 1];
    b := ExtendHeap(h, Align(n)).blk;
    if Tagged(h, last) {
      ViewsUnique(ExtendHeap(h, Align(n)).heap, bs, RemoveAt(fl, IndexOf(fl, last)), al + [last]);
    } else {
      ViewsUnique(ExtendHeap(h, Align(n)).heap, bs + [h.brk], fl, al + [h.brk]);
    }
  }

  /** Allocated blocks start on aligned offsets, and so do their payloads. */
  lemma AllocatedAligned(h: Heap, b: nat)
    requires Valid(h) && b in AllocOrder(h)
    ensures Aligned(b) && Aligned(b + HeaderSize)
  {
    TilesOrdered(h, Blocks(h));
    assert b in Blocks(h);
    AlignedAdd(b, HeaderSize);
  }

  /** mm_malloc on each of its three branches, gathered: the granted block b and what holds of it. */
  lemma MallocBranches(h: Heap, n: nat) returns (b: nat)
    requires Valid(h)
    ensures var g := Malloc(h, n);
      && g.ptr == b + HeaderSize
      && Valid(g.heap)
      && AllocOrder(g.heap) == AllocOrder(h) + [b]
      && Align(n) <= PayloadSize(g.heap, b)
    ensures var g, fl := Malloc(h, n), FreeOrder(h);
      forall j: nat :: IsFirstFit(h, fl, Align(n), j) ==>
        && g.heap.brk == h.brk
        && fl[j] <= b < BlockEnd(h, fl[j])
        && (b == fl[j] <==> !SplitWorthwhile(PayloadSize(h, fl[j]), Align(n)))
    ensures var g, fl := Malloc(h, n), FreeOrder(h);
      (forall m :: 0 <= m < |fl| ==> PayloadSize(h, fl[m]) < Align(n)) ==> g.heap.brk > h.brk
  {
    var fl := FreeOrder(h);
    ScanFuel(h);
    FirstFitIsFirst(h, fl, Align(n), h.brk);
    var r := FirstFit(h, Hd(h, FreeBase).next, Align(n), h.brk);
    if r.Some? {
      var j := IndexOf(fl, r.value);
      var f := r.value;
      if SplitWorthwhile(PayloadSize(h, f), Align(n)) {
        b := MallocSplit(h, n, j, f);
      } else {
        MallocWhole(h, n, j, f);
        b := f;
      }
      forall k: nat | IsFirstFit(h, fl, Align(n), k) ensures k == j {
        assert !(k < j) && !(j < k);
      }
    } else {
      b := MallocExtend(h, n);
    }
  }

  /**
   * mm_malloc keeps the heap valid and grants an aligned payload of at
   * least the aligned request, from a block b appended to the allocated
   * list; payload bytes are untouched.
   */
  lemma MallocKeeps(h: Heap, n: nat) returns (b: nat)
    requires Valid(h)
    ensures var g := Malloc(h, n);
      && g.ptr == b + HeaderSize
      && Valid(g.heap)
      && AllocOrder(g.heap) == AllocOrder(h) + [b]
      && Live(g.heap, g.ptr)
      && Align(n) <= PayloadSize(g.heap, b)
      && Aligned(g.ptr)
      && g.heap.bytes == h.bytes
  {
    b := MallocBranches(h, n);
    AllocatedAligned(Malloc(h, n).heap, b);
  }

  /**
   * Where mm_malloc's block comes from: the first free block in list order
   * whose payload reaches the request, or that block's tail when the
   * remainder is worth keeping; only when no free block fits does the
   * arena grow.
   */
  lemma MallocPlacement(h: Heap, n: nat) returns (b: nat)
    requires Valid(h)
    ensures Malloc(h, n).ptr == b + HeaderSize
    ensures var g, fl := Malloc(h, n), FreeOrder(h);
      forall j: nat :: IsFirstFit(h, fl, Align(n), j) ==>
        && g.heap.brk == h.brk
        && fl[j] <= b < BlockEnd(h, fl[j])
        && (b == fl[j] <==> !SplitWorthwhile(PayloadSize(h, fl[j]), Align(n)))
    ensures var g, fl := Malloc(h, n), FreeOrder(h);
      (forall m :: 0 <= m < |fl| ==> PayloadSize(h, fl[m]) < Align(n)) ==> g.heap.brk > h.brk
  {
    b := MallocBranches(h, n);
  }

  /** mm_malloc does not touch the size word of any block that was already allocated. */
  lemma MallocSpares(h: Heap, n: nat)
    requires Valid(h)
    ensures forall x :: x in AllocOrder(h) ==> Hd(Malloc(h, n).heap, x).size == Hd(h, x).size
  {
    var bs, fl, al := Blocks(h), FreeOrder(h), AllocOrder(h);
    ScanFuel(h);
    FirstFitIsFirst(h, fl, Align(n), h.brk);
    var r := FirstFit(h, Hd(h, FreeBase).next, Align(n), h.brk);
    if r.Some? {
      var f := r.value;
      if SplitWorthwhile(PayloadSize(h, f), Align(n)) {
        assert f in bs;
        SplitSparesAllocated(h, bs, fl, al, IndexOf(bs, f), f, Align(n));
      } else {
        TakeWholeSpares(h, f);
      }
    } else {
      NoFitExtendSafe(h, Align(n));
      ExtendKeeps(h, bs, fl, al, Align(n));
      ExtendSpares(h, Align(n));
      TilesOrdered(h, bs);
      forall x | x in al ensures x != ExtendHeap(h, Align(n)).blk {
        assert x in bs;
      }
    }
  }

  /** mm_free's coalescing reads are defined on a live block of a valid heap. */
  lemma FreeSafe(h: Heap, d: nat)
    requires Valid(h) && d in AllocOrder(h)
    ensures BackwardSafe(FreeForward(Unlink(h, d), d))
  {
    FreeKeeps(h, Blocks(h), FreeOrder(h), AllocOrder(h), IndexOf(AllocOrder(h), d), d);
  }

  /** mm_free's step on the block of a live ptr keeps the heap valid and unlists the block. */
  lemma FreeBlockValid(h: Heap, ptr: nat)
    requires Valid(h) && Live(h, ptr)
    ensures BackwardSafe(FreeForward(Unlink(h, HeaderOf(ptr)), HeaderOf(ptr)))
    ensures Valid(FreeBlock(h, HeaderOf(ptr)).heap)
    ensures AllocOrder(FreeBlock(h, HeaderOf(ptr)).heap) == RemoveAt(AllocOrder(h), IndexOf(AllocOrder(h), HeaderOf(ptr)))
    ensures !Live(FreeBlock(h, HeaderOf(ptr)).heap, ptr)
  {
    var d, al := HeaderOf(ptr), AllocOrder(h);
    var i := IndexOf(al, d);
    FreeKeeps(h, Blocks(h), FreeOrder(h), al, i, d);
    RemoveAtMembership(al, i, d);
  }

  /** mm_free's step on the block of a live ptr leaves a survivor, last on the free list, covering it. */
  lemma FreeBlockSurvivor(h: Heap, ptr: nat)
    requires Valid(h) && Live(h, ptr)
    ensures BackwardSafe(FreeForward(Unlink(h, HeaderOf(ptr)), HeaderOf(ptr)))
    ensures var r, d := FreeBlock(h, HeaderOf(ptr)).heap, HeaderOf(ptr);
      && |FreeOrder(r)| > 0 && FreeOrder(r)[|FreeOrder(r)| - 1] <= d
      && BlockEnd(h, d) <= BlockEnd(r, FreeOrder(r)[|FreeOrder(r)| - 1])
      && r.brk == h.brk && r.bytes == h.bytes
  {
    var d, al := HeaderOf(ptr), AllocOrder(h);
    FreeKeeps(h, Blocks(h), FreeOrder(h), al, IndexOf(al, d), d);
  }

  /** mm_free's step on the block of a live ptr writes no other allocated block's size word. */
  lemma FreeBlockSpares(h: Heap, ptr: nat)
    requires Valid(h) && Live(h, ptr)
    ensures BackwardSafe(FreeForward(Unlink(h, HeaderOf(ptr)), HeaderOf(ptr)))
    ensures forall x :: x in AllocOrder(h) && x != HeaderOf(ptr) ==>
      Hd(FreeBlock(h, HeaderOf(ptr)).heap, x).size == Hd(h, x).size
  {
    var d := HeaderOf(ptr);
    FreeSafe(h, d);
    FreeSpares(h, d);
    forall x | x in AllocOrder(h) ensures !Tagged(h, x) {
      AllocMemberUntagged(h, FreeOrder(h), AllocOrder(h), x);
    }
  }

  /**
   * mm_free: the block whose payload starts at ptr leaves the allocated
   * list, merges with whichever physical neighbours are free, and the
   * result goes on the free list, last. The heap stays valid (so, in
   * particular, no two physically adjacent blocks are both free), exactly
   * ptr's block leaves the allocated list, the block put on the free list
   * covers the freed span, and no other allocated block, the break or any
   * payload byte changes.
   */
  function Free(h: Heap, ptr: nat): (r: Heap)
    requires Valid(h) && Live(h, ptr)
    ensures Valid(r)
    ensures AllocOrder(r) == RemoveAt(AllocOrder(h), IndexOf(AllocOrder(h), HeaderOf(ptr)))
    ensures !Live(r, ptr)
    ensures |FreeOrder(r)| > 0 && FreeOrder(r)[|FreeOrder(r)| - 1] <= HeaderOf(ptr)
    ensures BlockEnd(h, HeaderOf(ptr)) <= BlockEnd(r, FreeOrder(r)[|FreeOrder(r)| - 1])
    ensures forall x :: x in AllocOrder(h) && x != HeaderOf(ptr) ==> Hd(r, x).size == Hd(h, x).size
    ensures r.brk == h.brk && r.bytes == h.bytes
    ensures forall i :: 0 <= i < |Blocks(r)| - 1 ==> !(Blocks(r)[i] in FreeOrder(r) && Blocks(r)[i + 1] in FreeOrder(r))
  {
    FreeBlockValid(h, ptr);
    FreeBlockSurvivor(h, ptr);
    FreeBlockSpares(h, ptr);
    FreeApart(FreeBlock(h, HeaderOf(ptr)).heap);
    FreeBlock(h, HeaderOf(ptr)).heap
  }

  /**
   * Coalescing, stated by list membership: on a valid heap no two
   * physically adjacent blocks are both on the free list.
   */
  lemma FreeApart(h: Heap)
    requires Valid(h)
    ensures forall i :: 0 <= i < |Blocks(h)| - 1 ==> !(Blocks(h)[i] in FreeOrder(h) && Blocks(h)[i + 1] in FreeOrder(h))
  {
  }

  /** Writing payload bytes changes neither the blocks nor the lists, so validity survives it. */
  lemma SameWords(h: Heap, h2: Heap)
    requires Valid(h) && h2.brk == h.brk && h2.hdr == h.hdr && h2.ftr == h.ftr
    ensures Valid(h2)
    ensures Blocks(h2) == Blocks(h) && FreeOrder(h2) == FreeOrder(h) && AllocOrder(h2) == AllocOrder(h)
  {
    var bs, fl, al := Blocks(h), FreeOrder(h), AllocOrder(h);
    PhysicalFrame(h, h2, bs);
    CoalescedFrame(h, h2, bs);
    ShapeLists(h, bs, fl, al);
    HeadersKeepLists(h, h2, fl, al);
    assert ListTags(h2, fl, al);
    InvFromParts(h2, bs, fl, al);
    ViewsUnique(h2, bs, fl, al);
  }

  /** Two different allocated blocks of a valid heap do not overlap. */
  lemma AllocatedApart(h: Heap, x: nat, y: nat)
    requires Valid(h) && x in AllocOrder(h) && y in AllocOrder(h) && x != y
    ensures BlockEnd(h, x) <= y || BlockEnd(h, y) <= x
  {
    var bs := Blocks(h);
    TilesOrdered(h, bs);
    assert x in bs && y in bs;
    var i, j := IndexOf(bs, x), IndexOf(bs, y);
    assert i != j;
  }

  /** An allocated block's size word is its payload size: it carries no tag. */
  lemma AllocatedUntagged(h: Heap, x: nat)
    requires Valid(h) && x in AllocOrder(h)
    ensures Hd(h, x).size == PayloadSize(h, x)
  {
    var al := AllocOrder(h);
    var i := IndexOf(al, x);
    assert !Tagged(h, al[i]);
  }

  /**
   * mm_realloc's copy length: the size word 8 bytes below ptr (the old
   * block's payload size), capped at the request.
   */
  function CopyLength(h: Heap, ptr: nat, n: nat): (k: nat)
    requires ptr >= HeaderSize
    ensures k <= n && k <= Hd(h, HeaderOf(ptr)).size
    ensures k == n || k == Hd(h, HeaderOf(ptr)).size
  {
    var recorded := Hd(h, HeaderOf(ptr)).size;
    if n < recorded then n else recorded
  }

  /**
   * What mm_realloc relies on after its mm_malloc: the heap is still valid,
   * ptr is still live, the copy runs between two non-overlapping payloads,
   * and the size word it reads is the old block's own.
   */
  lemma ReallocSafe(h: Heap, ptr: nat, n: nat)
    requires Valid(h) && Live(h, ptr)
    ensures var g := Malloc(h, n);
      && Valid(g.heap) && Live(g.heap, ptr) && g.ptr != ptr
      && Hd(g.heap, HeaderOf(ptr)).size == PayloadSize(h, HeaderOf(ptr))
      && (g.ptr + CopyLength(g.heap, ptr, n) <= ptr || ptr + CopyLength(g.heap, ptr, n) <= g.ptr)
  {
    var b := MallocKeepsOld(h, ptr, n);
    AllocatedUntagged(Malloc(h, n).heap, HeaderOf(ptr));
    AllocatedApart(Malloc(h, n).heap, HeaderOf(ptr), b);
  }

  /** mm_malloc leaves a live block d live, with its size word, and grants a block other than d. */
  lemma MallocKeepsOld(h: Heap, ptr: nat, n: nat) returns (b: nat)
    requires Valid(h) && Live(h, ptr)
    ensures var g := Malloc(h, n);
      && g.ptr == b + HeaderSize && Valid(g.heap)
      && b in AllocOrder(g.heap) && b != HeaderOf(ptr) && Live(g.heap, ptr)
      && Hd(g.heap, HeaderOf(ptr)).size == PayloadSize(h, HeaderOf(ptr))
      && Align(n) <= PayloadSize(g.heap, b)
  {
    var d := HeaderOf(ptr);
    var al := AllocOrder(h);
    assert d in al;
    AllocatedUntagged(h, d);
    b := MallocKeeps(h, n);
    MallocSpares(h, n);
    var al2 := al + [b];
    assert al2[IndexOf(al, d)] == d && al2[|al|] == b;
  }

  /** The heap mm_realloc hands to mm_free: the heap after its mm_malloc, with the payload copied. */
  function Moved(h: Heap, ptr: nat, n: nat): (r: Heap)
    requires Valid(h) && Live(h, ptr)
    ensures Valid(r) && Live(r, ptr)
    ensures r.hdr == Malloc(h, n).heap.hdr && r.ftr == Malloc(h, n).heap.ftr && r.brk == Malloc(h, n).heap.brk
  {
    ReallocSafe(h, ptr, n);
    var m := Malloc(h, n);
    var r := m.heap.(bytes := Copy(m.heap.bytes, m.ptr, ptr, CopyLength(m.heap, ptr, n)));
    SameWords(m.heap, r);
    r
  }

  /**
   * mm_realloc: obtain a new block through mm_malloc, copy the smaller of
   * the old payload size and the request into it, free the old block.
   */
  function Realloc(h: Heap, ptr: nat, n: nat): (g: Grant)
    requires Valid(h) && Live(h, ptr)
    ensures Valid(g.heap) && Live(g.heap, g.ptr) && !Live(g.heap, ptr)
  {
    ReallocOutcome(h, ptr, n);
    Grant(Free(Moved(h, ptr, n), ptr), Malloc(h, n).ptr)
  }


  /** Trading d for b on a list without repeats: what is left is b and the others. */
  lemma TradeMembers(al: seq<nat>, b: nat, d: nat, rest: seq<nat>)
    requires d in al && Distinct(al + [b])
    requires rest == RemoveAt(al + [b], IndexOf(al + [b], d))
    ensures forall x :: x in rest <==> x == b || (x in al && x != d)
  {
    var al2 := al + [b];
    assert al2[IndexOf(al, d)] == d && al2[|al|] == b;
    var i := IndexOf(al2, d);
    forall x ensures x in rest <==> x in al2 && x != d {
      RemoveAtMembership(al2, i, x);
    }
  }

  /** mm_realloc's outcome, stated on the free that ends it. */
  lemma ReallocResult(h: Heap, ptr: nat, n: nat) returns (b: nat)
    requires Valid(h) && Live(h, ptr)
    ensures var r, p := Free(Moved(h, ptr, n), ptr), Malloc(h, n).ptr;
      && p == b + HeaderSize
      && Valid(r)
      && !Live(r, ptr)
      && Aligned(p)
      && Align(n) <= PayloadSize(r, b)
  {
    var d := HeaderOf(ptr);
    assert d in AllocOrder(h);
    b := MallocKeeps(h, n);
    ReallocSafe(h, ptr, n);
    SameWords(Malloc(h, n).heap, Moved(h, ptr, n));
    assert b in AllocOrder(Moved(h, ptr, n));
    assert b != HeaderOf(ptr);
    assert Hd(Free(Moved(h, ptr, n), ptr), b).size == Hd(Moved(h, ptr, n), b).size;
  }

  /** After mm_realloc's free the heap is valid, the new pointer is live and the old one is not. */
  lemma ReallocOutcome(h: Heap, ptr: nat, n: nat)
    requires Valid(h) && Live(h, ptr)
    ensures var r, p := Free(Moved(h, ptr, n), ptr), Malloc(h, n).ptr;
      Valid(r) && Live(r, p) && !Live(r, ptr)
  {
    var b := ReallocResult(h, ptr, n);
    var b2 := ReallocMembers(h, ptr, n);
  }

  /** mm_realloc's allocated blocks, stated on the free that ends it: ptr's block traded for the new one. */
  lemma ReallocMembers(h: Heap, ptr: nat, n: nat) returns (b: nat)
    requires Valid(h) && Live(h, ptr)
    ensures Malloc(h, n).ptr == b + HeaderSize
    ensures forall x :: x in AllocOrder(Free(Moved(h, ptr, n), ptr)) <==> x == b || (x in AllocOrder(h) && x + HeaderSize != ptr)
  {
    var d := HeaderOf(ptr);
    assert d in AllocOrder(h);
    b := MallocKeeps(h, n);
    SameWords(Malloc(h, n).heap, Moved(h, ptr, n));
    TradeMembers(AllocOrder(h), b, d, AllocOrder(Free(Moved(h, ptr, n), ptr)));
  }

  /**
   * mm_realloc keeps the heap valid and grants a new aligned payload; the
   * allocated blocks afterwards are the old ones but ptr's, plus the new one.
   */
  lemma ReallocKeeps(h: Heap, ptr: nat, n: nat) returns (b: nat)
    requires Valid(h) && Live(h, ptr)
    ensures var g := Realloc(h, ptr, n);
      && g.ptr == b + HeaderSize
      && Valid(g.heap)
      && Live(g.heap, g.ptr) && !Live(g.heap, ptr)
      && Aligned(g.ptr)
      && Align(n) <= PayloadSize(g.heap, b)
      && (forall x :: x in AllocOrder(g.heap) <==> x == b || (x in AllocOrder(h) && x + HeaderSize != ptr))
  {
    b := ReallocResult(h, ptr, n);
    var b2 := ReallocMembers(h, ptr, n);
  }

  /** The size word mm_realloc reads after its mm_malloc is still the old payload size. */
  lemma ReallocLength(h: Heap, ptr: nat, n: nat)
    requires Valid(h) && Live(h, ptr)
    ensures var p := PayloadSize(h, HeaderOf(ptr));
      CopyLength(Malloc(h, n).heap, ptr, n) == if n < p then n else p
    ensures var q, k := Malloc(h, n).ptr, CopyLength(Malloc(h, n).heap, ptr, n);
      q + k <= ptr || ptr + k <= q
  {
    ReallocSafe(h, ptr, n);
  }

  /** The copy, stated on the heap before mm_realloc's free. */
  lemma MovedCopies(h: Heap, ptr: nat, n: nat)
    requires Valid(h) && Live(h, ptr)
    ensures var p := PayloadSize(h, HeaderOf(ptr));
      CopiedWindow(h.bytes, Moved(h, ptr, n).bytes, Malloc(h, n).ptr, ptr, if n < p then n else p)
  {
    ReallocLength(h, ptr, n);
  }

  /**
   * mm_realloc's copy: the first min(n, old payload size) bytes of the new
   * payload read as the old payload did, and every byte outside that window
   * is as it was before the call.
   */
  lemma ReallocCopies(h: Heap, ptr: nat, n: nat)
    requires Valid(h) && Live(h, ptr)
    ensures var g, p := Realloc(h, ptr, n), PayloadSize(h, HeaderOf(ptr));
      CopiedWindow(h.bytes, g.heap.bytes, g.ptr, ptr, if n < p then n else p)
  {
    MovedCopies(h, ptr, n);
  }
}
