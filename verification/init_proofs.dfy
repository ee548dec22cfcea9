/** What mm_init leaves behind. */
module InitProofs {
  import opened Layout
  import opened HeapState
  import opened Seqs
  import opened Lists
  import opened Invariant
  import opened Steps

  /** The header slots written so far are exactly those in xs. */
  ghost predicate WrittenExactly(h: Heap, xs: set<nat>) {
    forall x :: x in h.hdr <==> x in xs
  }

  /** Both sentinels written and self-circular; nothing else written yet. */
  lemma SentinelsWritten(a: Heap)
    requires FreshArena(a)
    ensures var h := SelfLoop(SelfLoop(Sbrk(a, 3 * HeaderSize + FooterSize), AllocBase), FreeBase);
      && h.brk == 3 * HeaderSize + FooterSize && h.ftr == map[]
      && WrittenExactly(h, {AllocBase, FreeBase})
      && Hd(h, AllocBase) == Header(AllocBase, AllocBase, 0)
      && Hd(h, FreeBase) == Header(FreeBase, FreeBase, 0)
      && Hd(h, EndOfPrologue) == Unwritten
  {
    var h2 := SelfLoop(Sbrk(a, 3 * HeaderSize + FooterSize), AllocBase);
    assert WrittenExactly(h2, {AllocBase});
  }

  /** The third header gets the free tag over payload 0, and its footer names it. */
  lemma FirstBlockWritten(h: Heap)
    requires WrittenExactly(h, {AllocBase, FreeBase}) && Hd(h, EndOfPrologue) == Unwritten
    ensures var r := SetFooter(SetSize(h, EndOfPrologue, EmptyFree), EndOfPrologue + HeaderSize, EndOfPrologue);
      && r.brk == h.brk
      && WrittenExactly(r, {AllocBase, FreeBase, EndOfPrologue})
      && Hd(r, AllocBase) == Hd(h, AllocBase) && Hd(r, FreeBase) == Hd(h, FreeBase)
      && Hd(r, EndOfPrologue) == Header(0, 0, 1)
      && Ft(r, EndOfPrologue + HeaderSize) == EndOfPrologue
  {
  }

  /** The 80 bytes mm_init writes before it links the first free block. */
  lemma PrologueLayout(a: Heap)
    requires FreshArena(a)
    ensures var h := Prologue(a);
      && h.brk == 3 * HeaderSize + FooterSize
      && WrittenExactly(h, {AllocBase, FreeBase, EndOfPrologue})
      && Hd(h, AllocBase) == Header(AllocBase, AllocBase, 0)
      && Hd(h, FreeBase) == Header(FreeBase, FreeBase, 0)
      && Hd(h, EndOfPrologue) == Header(0, 0, 1)
      && Ft(h, EndOfPrologue + HeaderSize) == EndOfPrologue
  {
    var h3 := SelfLoop(SelfLoop(Sbrk(a, 3 * HeaderSize + FooterSize), AllocBase), FreeBase);
    SentinelsWritten(a);
    FirstBlockWritten(h3);
    assert Prologue(a) == SetFooter(SetSize(h3, EndOfPrologue, EmptyFree), EndOfPrologue + HeaderSize, EndOfPrologue);
  }

  /** Linking the one block into the empty free ring adds no header slot. */
  lemma FirstLinkKeys(h: Heap)
    requires WrittenExactly(h, {AllocBase, FreeBase, EndOfPrologue}) && Hd(h, FreeBase).prev == FreeBase
    ensures WrittenExactly(LinkFree(h, EndOfPrologue), {AllocBase, FreeBase, EndOfPrologue})
  {
    LinkEffect(h, EndOfPrologue, FreeBase);
  }

  /**
   * mm_init lays out an 80-byte arena: the allocated-list sentinel at 0,
   * self-circular; the free-list sentinel at 24; a free block with payload 0
   * and the free tag at 48, whose footer at 72 names it, and which is the
   * only member of the free list.
   */
  lemma InitLayout(a: Heap)
    requires FreshArena(a)
    ensures var h := Init(a);
      && h.brk == 3 * HeaderSize + FooterSize
      && WrittenExactly(h, {AllocBase, FreeBase, EndOfPrologue})
      && Hd(h, AllocBase) == Header(AllocBase, AllocBase, 0)
      && Hd(h, FreeBase) == Header(EndOfPrologue, EndOfPrologue, 0)
      && Hd(h, EndOfPrologue) == Header(FreeBase, FreeBase, 1)
      && PayloadSize(h, EndOfPrologue) == 0 && Tagged(h, EndOfPrologue)
      && Ft(h, EndOfPrologue + HeaderSize) == EndOfPrologue
  {
    var h5 := Prologue(a);
    PrologueLayout(a);
    LinkEffect(h5, EndOfPrologue, FreeBase);
    FirstLinkKeys(h5);
  }

  /** The invariant holds on any heap with mm_init's layout: one free block, no allocated ones. */
  lemma OneFreeBlock(h: Heap)
    requires h.brk == 3 * HeaderSize + FooterSize
    requires WrittenExactly(h, {AllocBase, FreeBase, EndOfPrologue})
    requires Hd(h, AllocBase).prev == AllocBase && Hd(h, AllocBase).next == AllocBase
    requires Hd(h, FreeBase).prev == EndOfPrologue && Hd(h, FreeBase).next == EndOfPrologue
    requires Hd(h, EndOfPrologue) == Header(FreeBase, FreeBase, 1)
    requires Ft(h, EndOfPrologue + HeaderSize) == EndOfPrologue
    ensures Inv(h, [EndOfPrologue], [EndOfPrologue], [])
    ensures Valid(h)
    ensures Blocks(h) == [EndOfPrologue]
    ensures FreeOrder(h) == [EndOfPrologue] && AllocOrder(h) == []
  {
    assert PayloadSize(h, EndOfPrologue) == 0;
    assert BlockEnd(h, EndOfPrologue) == h.brk;
    assert Distinct([EndOfPrologue]);
    assert Physical(h, [EndOfPrologue]);
    assert ListOk(h, FreeBase, [EndOfPrologue]);
    assert ListOk(h, AllocBase, []);
    ViewsUnique(h, [EndOfPrologue], [EndOfPrologue], []);
  }

  /** The heap mm_init builds satisfies the invariant: one free block, no allocated ones. */
  lemma InitValid(a: Heap)
    requires FreshArena(a)
    ensures Inv(Init(a), [EndOfPrologue], [EndOfPrologue], [])
    ensures Valid(Init(a))
    ensures Blocks(Init(a)) == [EndOfPrologue]
    ensures FreeOrder(Init(a)) == [EndOfPrologue] && AllocOrder(Init(a)) == []
  {
    InitLayout(a);
    OneFreeBlock(Init(a));
  }
}
