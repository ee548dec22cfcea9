/**
 * mm_free's relink as mm.c writes it tags the survivor only when its
 * payload is nonzero. A free block of payload 0 then sits on the free list
 * untagged, the coalescing test does not see it as free, and two
 * physically adjacent blocks stay on the free list unmerged. The model's
 * Steps.FreeRelink tags unconditionally; this module follows one run of
 * calls through the relink as written.
 */
module FreeAsWritten {
  import opened Layout
  import opened HeapState
  import opened Opt
  import opened Navigator
  import opened Lists
  import opened Invariant
  import opened Steps
  import opened InitProofs
  import opened Allocator

  /** mm_malloc(8) on mm_init's heap: nothing fits, so sbrkBlk grows the free last block 48 to payload 8. */
  lemma MallocEight(h0: Heap)
    requires Valid(h0) && h0.brk == 80
    requires Hd(h0, AllocBase) == Header(AllocBase, AllocBase, 0)
    requires Hd(h0, FreeBase) == Header(48, 48, 0)
    requires Hd(h0, 48) == Header(FreeBase, FreeBase, 1)
    requires Ft(h0, 72) == 48
    ensures var g := Malloc(h0, 8);
      && g.ptr == 72
      && g.heap.brk == 88
      && Hd(g.heap, AllocBase) == Header(48, 48, 0)
      && Hd(g.heap, FreeBase) == Header(FreeBase, FreeBase, 0)
      && Hd(g.heap, 48) == Header(AllocBase, AllocBase, 8)
      && Ft(g.heap, 80) == 48
  {
    assert Align(8) == 8;
    assert FirstFit(h0, 48, 8, 80) == None;
    assert AlignDown(79) == 72;
    var u := Unlink(h0, 48);
    assert Hd(u, FreeBase) == Header(FreeBase, FreeBase, 0);
    assert NeededSize(8, 0) == 8;
    assert AlignDown(87) == 80;
  }

  /** mm_malloc(0) next: the free list is empty and the last block is allocated, so a block is appended at 88. */
  lemma MallocZero(h1: Heap)
    requires Valid(h1) && h1.brk == 88
    requires Hd(h1, AllocBase) == Header(48, 48, 0)
    requires Hd(h1, FreeBase) == Header(FreeBase, FreeBase, 0)
    requires Hd(h1, 48) == Header(AllocBase, AllocBase, 8)
    requires Ft(h1, 80) == 48
    ensures var g := Malloc(h1, 0);
      && g.ptr == 112
      && g.heap.brk == 120
      && Hd(g.heap, AllocBase) == Header(88, 48, 0)
      && Hd(g.heap, 48) == Header(AllocBase, 88, 8)
      && Hd(g.heap, 88) == Header(48, AllocBase, 0)
      && Hd(g.heap, FreeBase) == Header(FreeBase, FreeBase, 0)
      && Ft(g.heap, 80) == 48
  {
    assert Align(0) == 0;
    assert FirstFit(h1, FreeBase, 0, 88) == None;
    assert AlignDown(87) == 80;
    assert Align(0 + FooterSize + HeaderSize) == 32;
  }

  /**
   * mm_free on block 88 (payload 0, no free neighbour): as written it goes
   * on the free list with size word 0, untagged; the corrected relink tags it.
   */
  lemma FreeZero(h2: Heap)
    requires h2.brk == 120
    requires Hd(h2, AllocBase) == Header(88, 48, 0)
    requires Hd(h2, 48) == Header(AllocBase, 88, 8)
    requires Hd(h2, 88) == Header(48, AllocBase, 0)
    requires Hd(h2, FreeBase) == Header(FreeBase, FreeBase, 0)
    requires Ft(h2, 80) == 48
    ensures BackwardSafe(FreeForward(Unlink(h2, 88), 88))
    ensures var h3 := FreeBlockAsWritten(h2, 88).heap;
      && h3.brk == 120
      && Hd(h3, AllocBase) == Header(48, 48, 0)
      && Hd(h3, 48) == Header(AllocBase, AllocBase, 8)
      && Hd(h3, FreeBase) == Header(88, 88, 0)
      && Hd(h3, 88) == Header(FreeBase, FreeBase, 0)
    ensures Tagged(FreeBlock(h2, 88).heap, 88)
  {
    var u := Unlink(h2, 88);
    assert BlockEnd(u, 88) == 120;
    assert NextPhysBlock(u, 88) == None;
    assert PrevPhysBlock(u, 88) == Some(48);
    assert !Tagged(u, 48);
  }

  /**
   * mm_free on block 48 next: its successor 88 is untagged, so no merge
   * happens, and 48 joins 88 on the free list.
   */
  lemma FreeEight(h3: Heap)
    requires h3.brk == 120
    requires Hd(h3, AllocBase) == Header(48, 48, 0)
    requires Hd(h3, 48) == Header(AllocBase, AllocBase, 8)
    requires Hd(h3, FreeBase) == Header(88, 88, 0)
    requires Hd(h3, 88) == Header(FreeBase, FreeBase, 0)
    ensures BackwardSafe(FreeForward(Unlink(h3, 48), 48))
    ensures var h4 := FreeBlockAsWritten(h3, 48).heap;
      && NextPhysBlock(h4, 48) == Some(88)
      && Hd(h4, FreeBase).next == 88 && Hd(h4, 88).next == 48 && Hd(h4, 48).next == FreeBase
      && Tagged(h4, 48) && !Tagged(h4, 88)
  {
    var u := Unlink(h3, 48);
    assert Hd(u, 88) == Hd(h3, 88);
    assert Hd(u, 48).size == 8;
    assert NextPhysBlock(u, 48) == Some(88);
    assert !Tagged(u, 88);
    assert FreeForward(u, 48) == BlockStep(u, 48);
    assert PrevPhysBlock(u, 48) == None;
    assert FreeBackward(FreeForward(u, 48)) == BlockStep(u, 48);
  }

  /**
   * mm_init; a = mm_malloc(8); b = mm_malloc(0); mm_free(b); mm_free(a),
   * with mm_free's relink as written: blocks 48 and 88 end up physically
   * adjacent and both on the free ring, unmerged, and 88 is untagged,
   * which mm_check treats as an error. The corrected relink tags 88 at
   * mm_free(b), so mm_free(a) would merge the two.
   */
  lemma UntaggedNeighbour(a: Heap)
    requires FreshArena(a)
    ensures Valid(Init(a))
    ensures var g1 := Malloc(Init(a), 8);
      && g1.ptr == 72 && Valid(g1.heap)
      && var g2 := Malloc(g1.heap, 0);
      && g2.ptr == 112 && HeaderOf(g2.ptr) == 88
      && BackwardSafe(FreeForward(Unlink(g2.heap, 88), 88))
      && Tagged(FreeBlock(g2.heap, 88).heap, 88)
      && var h3 := FreeBlockAsWritten(g2.heap, 88).heap;
      && BackwardSafe(FreeForward(Unlink(h3, 48), 48))
      && var h4 := FreeBlockAsWritten(h3, 48).heap;
      && NextPhysBlock(h4, 48) == Some(88)
      && Hd(h4, FreeBase).next == 88 && Hd(h4, 88).next == 48 && Hd(h4, 48).next == FreeBase
      && Tagged(h4, 48) && !Tagged(h4, 88)
  {
    var h0 := Init(a);
    InitValid(a);
    InitLayout(a);
    MallocEight(h0);
    var b1 := MallocKeeps(h0, 8);
    var h1 := Malloc(h0, 8).heap;
    MallocZero(h1);
    var h2 := Malloc(h1, 0).heap;
    FreeZero(h2);
    FreeEight(FreeBlockAsWritten(h2, 88).heap);
  }
}
