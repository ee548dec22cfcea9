/** sbrkBlk: growing the arena when no free block fits. */
module ExtendProofs {
  import opened Layout
  import opened HeapState
  import opened Seqs
  import opened Lists
  import opened Invariant
  import opened Frame
  import opened Steps

  /** The append branch leaves both rings intact and adds the new block at the end of the allocated one. */
  lemma AppendLists(h: Heap, fl: seq<nat>, al: seq<nat>, req: nat)
    requires TwoLists(h, fl, al) && h.brk !in fl && h.brk !in al && h.brk >= EndOfPrologue
    ensures TwoLists(AppendBlock(h, req), fl, al + [h.brk])
  {
    var grow := Align(req + FooterSize + HeaderSize);
    GrowThenSize(h, fl, al, grow, h.brk, req);
    LinkThenFooter(SetSize(Sbrk(h, grow), h.brk, req), fl, al, h.brk, h.brk + HeaderSize + req);
  }

  /** Moving the break and then writing one size word leaves both rings as they were. */
  lemma GrowThenSize(h: Heap, fl: seq<nat>, al: seq<nat>, grow: nat, a: nat, v: nat)
    requires TwoLists(h, fl, al)
    ensures TwoLists(SetSize(Sbrk(h, grow), a, v), fl, al)
  {
    HeadersKeepLists(h, Sbrk(h, grow), fl, al);
    SizeWriteKeepsLists(Sbrk(h, grow), fl, al, a, v);
  }

  /** Linking b as allocated and then writing a footer word naming it appends b to the allocated ring. */
  lemma LinkThenFooter(h: Heap, fl: seq<nat>, al: seq<nat>, b: nat, a: nat)
    requires TwoLists(h, fl, al) && b !in fl && b !in al && b != AllocBase && b != FreeBase
    ensures TwoLists(SetFooter(LinkAllocated(h, b), a, b), fl, al + [b])
  {
    LinkToAlloc(h, fl, al, b);
    HeadersKeepLists(LinkAllocated(h, b), SetFooter(LinkAllocated(h, b), a, b), fl, al + [b]);
  }

  /** The words the append branch writes, in terms of the heap before it. */
  lemma AppendWords(h: Heap, req: nat)
    ensures var r := AppendBlock(h, req);
      && r.brk == h.brk + Align(req + FooterSize + HeaderSize) && r.bytes == h.bytes
      && h.hdr.Keys + {h.brk} <= r.hdr.Keys
      && Hd(r, h.brk).size == req
      && (forall x :: x != h.brk ==> Hd(r, x).size == Hd(h, x).size)
      && Ft(r, h.brk + HeaderSize + req) == h.brk
      && (forall a :: a != h.brk + HeaderSize + req ==> Ft(r, a) == Ft(h, a))
  {
  }

  /** After the append, the new block follows the old last one and ends at the new break. */
  lemma AppendLayout(h: Heap, r: Heap, bs: seq<nat>, req: nat)
    requires Physical(h, bs) && Coalesced(h, bs) && Aligned(req)
    requires r.brk == h.brk + req + Overhead
    requires h.hdr.Keys + {h.brk} <= r.hdr.Keys
    requires Hd(r, h.brk).size == req
    requires forall x :: x != h.brk ==> Hd(r, x).size == Hd(h, x).size
    requires Ft(r, h.brk + HeaderSize + req) == h.brk
    requires forall a :: a != h.brk + HeaderSize + req ==> Ft(r, a) == Ft(h, a)
    ensures Physical(r, bs + [h.brk]) && Coalesced(r, bs + [h.brk])
    ensures !Tagged(r, h.brk) && PayloadSize(r, h.brk) == req
  {
    AlignedUntagged(req);
    AppendTiles(h, r, bs, req);
    AppendSlots(h, r, bs, req);
    AppendCoalesced(h, r, bs, req);
  }

  /** The appended block starts where the old last block ended and ends at the new break. */
  lemma AppendTiles(h: Heap, r: Heap, bs: seq<nat>, req: nat)
    requires Physical(h, bs) && Aligned(req)
    requires r.brk == h.brk + req + Overhead
    requires Hd(r, h.brk).size == req
    requires forall x :: x != h.brk ==> Hd(r, x).size == Hd(h, x).size
    ensures Tiles(r, bs + [h.brk])
  {
    BreakNotBlock(h, bs);
    SizesOffBlocks(h, r, bs, h.brk);
    SizedEnd(r, h.brk, req);
    TilesSnoc(h, r, bs, h.brk);
  }

  /** A block whose size word is an aligned req ends req plus the overhead past its header. */
  lemma SizedEnd(r: Heap, b: nat, req: nat)
    requires Hd(r, b).size == req && Aligned(req)
    ensures BlockEnd(r, b) == b + req + Overhead && !Tagged(r, b)
  {
    AlignedUntagged(req);
  }

  /** Rewriting one size word with an untagged value creates no tag. */
  lemma NoNewTag(h: Heap, r: Heap, b: nat, req: nat)
    requires Hd(r, b).size == req && Aligned(req)
    requires forall x :: x != b ==> Hd(r, x).size == Hd(h, x).size
    ensures forall x :: Tagged(r, x) ==> Tagged(h, x)
  {
    AlignedUntagged(req);
  }

  /** Every block of the grown arena has a header, an aligned payload and a footer naming it. */
  lemma AppendSlots(h: Heap, r: Heap, bs: seq<nat>, req: nat)
    requires Physical(h, bs) && Aligned(req)
    requires h.hdr.Keys + {h.brk} <= r.hdr.Keys
    requires Hd(r, h.brk).size == req
    requires forall x :: x != h.brk ==> Hd(r, x).size == Hd(h, x).size
    requires Ft(r, h.brk + HeaderSize + req) == h.brk
    requires forall a :: a != h.brk + HeaderSize + req ==> Ft(r, a) == Ft(h, a)
    ensures forall k :: 0 <= k < |bs| + 1 ==> (bs + [h.brk])[k] in r.hdr
    ensures forall k :: 0 <= k < |bs| + 1 ==> Aligned(PayloadSize(r, (bs + [h.brk])[k]))
    ensures forall k :: 0 <= k < |bs| + 1 ==> Ft(r, FooterAddr(r, (bs + [h.brk])[k])) == (bs + [h.brk])[k]
  {
    TilesOrdered(h, bs);
    AlignedUntagged(req);
    var s := bs + [h.brk];
    assert h.brk !in bs;
    forall k | 0 <= k < |s|
      ensures s[k] in r.hdr && Aligned(PayloadSize(r, s[k])) && Ft(r, FooterAddr(r, s[k])) == s[k]
    {
      if k < |bs| {
        assert s[k] == bs[k] && FooterAddr(r, bs[k]) == FooterAddr(h, bs[k]);
      }
    }
  }

  /** The appended block is untagged, so it has no free neighbour to clash with. */
  lemma AppendCoalesced(h: Heap, r: Heap, bs: seq<nat>, req: nat)
    requires Physical(h, bs) && Coalesced(h, bs) && Aligned(req)
    requires Hd(r, h.brk).size == req
    requires forall x :: x != h.brk ==> Hd(r, x).size == Hd(h, x).size
    ensures Coalesced(r, bs + [h.brk])
  {
    SizedEnd(r, h.brk, req);
    NoNewTag(h, r, h.brk, req);
    CoalescedFrame(h, r, bs);
    CoalescedSnoc(r, bs, h.brk);
  }

  /** Tags still agree with the lists once an untagged block joins the allocated list. */
  lemma AppendTags(h: Heap, r: Heap, fl: seq<nat>, al: seq<nat>, b: nat)
    requires ListTags(h, fl, al) && b !in fl && b !in al && !Tagged(r, b)
    requires forall x :: x != b ==> Hd(r, x).size == Hd(h, x).size
    ensures ListTags(r, fl, al + [b])
  {
    var al' := al + [b];
    forall k | 0 <= k < |al'| ensures !Tagged(r, al'[k]) {
      if k < |al| { assert al'[k] == al[k]; }
    }
  }

  /**
   * sbrkBlk's append branch keeps the invariant: a block with payload req
   * starts at the old break, becomes the last physical block and the last
   * member of the allocated list, and the break moves past its footer.
   */
  lemma AppendKeeps(h: Heap, bs: seq<nat>, fl: seq<nat>, al: seq<nat>, req: nat)
    requires Inv(h, bs, fl, al) && Aligned(req)
    ensures var r := AppendBlock(h, req);
      && Inv(r, bs + [h.brk], fl, al + [h.brk])
      && r.brk == h.brk + req + Overhead
      && PayloadSize(r, h.brk) == req
      && r.bytes == h.bytes
  {
    AppendSpan(req);
    ShapeLists(h, bs, fl, al);
    TilesOrdered(h, bs);
    assert h.brk !in fl && h.brk !in al;
    AppendLists(h, fl, al, req);
    AppendWords(h, req);
    AppendLayout(h, AppendBlock(h, req), bs, req);
    AppendTags(h, AppendBlock(h, req), fl, al, h.brk);
    InvFromParts(AppendBlock(h, req), bs + [h.brk], fl, al + [h.brk]);
  }

  /** For an aligned request the append branch's sbrk asks for exactly the block: payload plus overhead. */
  lemma AppendSpan(req: nat)
    requires Aligned(req)
    ensures Align(req + FooterSize + HeaderSize) == req + Overhead
  {
    AlignedAdd(req, Overhead);
    AlignAligned(req + Overhead);
  }

  /** Once the aligned last block b ends at brk with payload req, ALIGN_DOWN(brk - 1) is its footer. */
  lemma GrownEnd(b: nat, req: nat, brk: nat)
    requires Aligned(b) && Aligned(req) && brk == b + HeaderSize + req + FooterSize
    ensures AlignDown(brk - 1) == b + HeaderSize + req
  {
    AlignedAdd(b, req);
    AlignedAdd(b + req, HeaderSize + FooterSize);
    AlignDownBelow(brk);
  }

  /** After the reuse branch, the last footer slot is the one right after b's new payload. */
  lemma GrownFooterAddr(h: Heap, r: Heap, bs: seq<nat>, b: nat, req: nat)
    requires Physical(h, bs) && b == bs[|bs| - 1]
    requires Aligned(req) && PayloadSize(h, b) <= req
    requires r.brk == h.brk + req - PayloadSize(h, b)
    ensures AlignDown(HeapHi(r)) == b + HeaderSize + req
  {
    TilesOrdered(h, bs);
    assert Aligned(b);
    assert r.brk == b + HeaderSize + req + FooterSize;
    GrownEnd(b, req, r.brk);
  }

  /** The reuse branch moves b from the free ring to the end of the allocated ring. */
  lemma GrowLists(h: Heap, fl: seq<nat>, al: seq<nat>, j: nat, b: nat, req: nat)
    requires TwoLists(h, fl, al) && Distinct(fl) && j < |fl| && fl[j] == b
    requires h.brk > 0 && PayloadSize(h, b) <= req
    ensures TwoLists(GrowLast(h, b, req), RemoveAt(fl, j), al + [b])
  {
    UnlinkThenGrow(h, fl, al, j, b, req);
  }

  /** GrowLists, stated on the unlink followed by GrowTail. */
  lemma UnlinkThenGrow(h: Heap, fl: seq<nat>, al: seq<nat>, j: nat, b: nat, req: nat)
    requires TwoLists(h, fl, al) && Distinct(fl) && j < |fl| && fl[j] == b
    requires h.brk > 0 && PayloadSize(h, b) <= req
    ensures TwoLists(GrowTail(Unlink(h, b), b, req, NeededSize(req, PayloadSize(h, b))), RemoveAt(fl, j), al + [b])
  {
    UnlinkFromFree(h, fl, al, j);
    assert b !in RemoveAt(fl, j) by { RemoveAtMembership(fl, j, b); }
    GrowUnlinked(Unlink(h, b), RemoveAt(fl, j), al, b, req, NeededSize(req, PayloadSize(h, b)));
  }

  /** The rest of the reuse branch, once b is on neither ring. */
  lemma GrowUnlinked(h: Heap, fl: seq<nat>, al: seq<nat>, b: nat, req: nat, grow: nat)
    requires TwoLists(h, fl, al) && b !in fl && b !in al && b != AllocBase && b != FreeBase
    ensures h.brk + grow > 0 ==> TwoLists(GrowTail(h, b, req, grow), fl, al + [b])
  {
    HeadersKeepLists(h, Sbrk(h, grow), fl, al);
    SizeWriteKeepsLists(Sbrk(h, grow), fl, al, b, req);
    if Sbrk(h, grow).brk > 0 {
      GrowFooterKeepsLists(SetSize(Sbrk(h, grow), b, req), fl, al, b);
      LinkToAlloc(SetFooter(SetSize(Sbrk(h, grow), b, req), AlignDown(HeapHi(SetSize(Sbrk(h, grow), b, req))), b), fl, al, b);
    }
  }

  /** Writing the last footer word changes no header. */
  lemma GrowFooterKeepsLists(h: Heap, fl: seq<nat>, al: seq<nat>, b: nat)
    requires TwoLists(h, fl, al) && h.brk > 0
    ensures TwoLists(SetFooter(h, AlignDown(HeapHi(h)), b), fl, al)
  {
    HeadersKeepLists(h, SetFooter(h, AlignDown(HeapHi(h)), b), fl, al);
  }

  /** The reuse branch moves the break by what b lacked and leaves the payload bytes alone. */
  lemma GrowBreak(h: Heap, b: nat, req: nat)
    requires h.brk > 0 && PayloadSize(h, b) <= req
    ensures var r := GrowLast(h, b, req);
      && r.brk == h.brk + req - PayloadSize(h, b) && r.bytes == h.bytes
      && h.hdr.Keys <= r.hdr.Keys
  {
  }

  /** The reuse branch writes only b's size word. */
  lemma GrowSizes(h: Heap, b: nat, req: nat)
    requires h.brk > 0 && PayloadSize(h, b) <= req
    ensures var r := GrowLast(h, b, req);
      && Hd(r, b).size == req
      && (forall x :: x != b ==> Hd(r, x).size == Hd(h, x).size)
  {
    GrowSizeOfLast(h, b, req);
    GrowSizesOfOthers(h, b, req);
  }

  lemma GrowSizeOfLast(h: Heap, b: nat, req: nat)
    requires h.brk > 0 && PayloadSize(h, b) <= req
    ensures Hd(GrowLast(h, b, req), b).size == req
  {
    var h1 := Unlink(h, b);
    var h3 := SetSize(Sbrk(h1, NeededSize(req, PayloadSize(h, b))), b, req);
    assert Hd(h3, b).size == req;
  }

  lemma GrowSizesOfOthers(h: Heap, b: nat, req: nat)
    requires h.brk > 0 && PayloadSize(h, b) <= req
    ensures forall x :: x != b ==> Hd(GrowLast(h, b, req), x).size == Hd(h, x).size
  {
    var h1 := Unlink(h, b);
    var h3 := SetSize(Sbrk(h1, NeededSize(req, PayloadSize(h, b))), b, req);
    forall x | x != b ensures Hd(GrowLast(h, b, req), x).size == Hd(h, x).size {
      assert Hd(h3, x).size == Hd(h1, x).size == Hd(h, x).size;
    }
  }

  /** The reuse branch writes only the footer word at the new end of the arena. */
  lemma GrowFooters(h: Heap, b: nat, req: nat)
    requires h.brk > 0 && PayloadSize(h, b) <= req
    ensures var r := GrowLast(h, b, req);
      && Ft(r, AlignDown(HeapHi(r))) == b
      && (forall a :: a != AlignDown(HeapHi(r)) ==> Ft(r, a) == Ft(h, a))
  {
    var h1 := Unlink(h, b);
    var h3 := SetSize(Sbrk(h1, NeededSize(req, PayloadSize(h, b))), b, req);
    var h4 := SetFooter(h3, AlignDown(HeapHi(h3)), b);
    assert GrowLast(h, b, req) == LinkAllocated(h4, b);
    assert HeapHi(LinkAllocated(h4, b)) == HeapHi(h3);
    assert h3.ftr == h.ftr;
  }

  /** After the reuse branch the last block ends at the new break, untagged, with its footer at the end. */
  lemma GrowLayout(h: Heap, r: Heap, bs: seq<nat>, b: nat, req: nat)
    requires Physical(h, bs) && Coalesced(h, bs) && b == bs[|bs| - 1]
    requires Aligned(req) && PayloadSize(h, b) <= req
    requires r.brk == h.brk + req - PayloadSize(h, b) && h.hdr.Keys <= r.hdr.Keys
    requires Hd(r, b).size == req
    requires forall x :: x != b ==> Hd(r, x).size == Hd(h, x).size
    requires Ft(r, b + HeaderSize + req) == b
    requires forall a :: a != b + HeaderSize + req ==> Ft(r, a) == Ft(h, a)
    ensures Physical(r, bs) && Coalesced(r, bs)
    ensures !Tagged(r, b) && PayloadSize(r, b) == req
  {
    TilesOrdered(h, bs);
    AlignedUntagged(req);
    forall k | 0 <= k < |bs| - 1 ensures bs[k + 1] == BlockEnd(r, bs[k]) {
      assert bs[k] != b;
    }
    forall k | 0 <= k < |bs|
      ensures Aligned(PayloadSize(r, bs[k])) && Ft(r, FooterAddr(r, bs[k])) == bs[k]
    {
      if k < |bs| - 1 {
        assert bs[k] != b && FooterAddr(r, bs[k]) == FooterAddr(h, bs[k]);
      }
    }
    PhysicalFrameHeaders(h, r, bs);
    CoalescedFrame(h, r, bs);
  }

  /** Header slots only ever get added. */
  lemma PhysicalFrameHeaders(h: Heap, r: Heap, bs: seq<nat>)
    requires Physical(h, bs) && h.hdr.Keys <= r.hdr.Keys
    ensures forall k :: 0 <= k < |bs| ==> bs[k] in r.hdr
  {
  }

  /**
   * sbrkBlk's reuse branch keeps the invariant: the free last block b moves
   * from the free list to the end of the allocated list, untagged, with
   * payload req, and the break grows by what b lacked.
   */
  lemma GrowKeeps(h: Heap, bs: seq<nat>, fl: seq<nat>, al: seq<nat>, j: nat, b: nat, req: nat)
    requires Inv(h, bs, fl, al) && j < |fl| && fl[j] == b && b == bs[|bs| - 1]
    requires Aligned(req) && PayloadSize(h, b) <= req
    ensures var r := GrowLast(h, b, req);
      && Inv(r, bs, RemoveAt(fl, j), al + [b])
      && r.brk == h.brk + req - PayloadSize(h, b)
      && PayloadSize(r, b) == req
      && r.bytes == h.bytes
  {
    ShapeLists(h, bs, fl, al);
    LastFooter(h, bs);
    GrowLists(h, fl, al, j, b, req);
    GrowBreak(h, b, req);
    GrowSizes(h, b, req);
    GrowFooterAt(h, bs, b, req);
    GrowResult(h, GrowLast(h, b, req), bs, fl, al, j, b, req);
  }

  /** The footer the reuse branch writes sits right after b's grown payload. */
  lemma GrowFooterAt(h: Heap, bs: seq<nat>, b: nat, req: nat)
    requires Physical(h, bs) && b == bs[|bs| - 1]
    requires h.brk > 0 && Aligned(req) && PayloadSize(h, b) <= req
    ensures var r := GrowLast(h, b, req);
      && Ft(r, b + HeaderSize + req) == b
      && (forall a :: a != b + HeaderSize + req ==> Ft(r, a) == Ft(h, a))
  {
    GrowFooters(h, b, req);
    GrowBreak(h, b, req);
    GrownFooterAddr(h, GrowLast(h, b, req), bs, b, req);
  }

  /** The invariant for any heap r carrying the reuse branch's writes. */
  lemma GrowResult(h: Heap, r: Heap, bs: seq<nat>, fl: seq<nat>, al: seq<nat>, j: nat, b: nat, req: nat)
    requires Inv(h, bs, fl, al) && j < |fl| && fl[j] == b && b == bs[|bs| - 1]
    requires Aligned(req) && PayloadSize(h, b) <= req
    requires TwoLists(r, RemoveAt(fl, j), al + [b])
    requires r.brk == h.brk + req - PayloadSize(h, b) && h.hdr.Keys <= r.hdr.Keys
    requires Hd(r, b).size == req
    requires forall x :: x != b ==> Hd(r, x).size == Hd(h, x).size
    requires Ft(r, b + HeaderSize + req) == b
    requires forall a :: a != b + HeaderSize + req ==> Ft(r, a) == Ft(h, a)
    ensures Inv(r, bs, RemoveAt(fl, j), al + [b])
  {
    GrowLayout(h, r, bs, b, req);
    MoveToAllocTags(h, r, fl, al, j);
    MoveToAllocMembers(bs, fl, al, j);
    InvFromParts(r, bs, RemoveAt(fl, j), al + [b]);
  }

  /**
   * When no free block reaches req, sbrkBlk may be called: a tagged last
   * block is on the free list, so it is smaller than req and the unsigned
   * difference the reuse branch computes does not wrap.
   */
  lemma NoFitAllowsExtend(h: Heap, bs: seq<nat>, fl: seq<nat>, al: seq<nat>, req: nat)
    requires Inv(h, bs, fl, al)
    requires forall m :: 0 <= m < |fl| ==> PayloadSize(h, fl[m]) < req
    ensures h.brk > 0 && LastBlock(h) == bs[|bs| - 1]
    ensures Tagged(h, LastBlock(h)) ==> LastBlock(h) in fl && PayloadSize(h, LastBlock(h)) < req
  {
    LastFooter(h, bs);
    TilesOrdered(h, bs);
    var last := bs[|bs| - 1];
    if Tagged(h, last) {
      if last in al {
        AllocMemberUntagged(h, fl, al, last);
      }
      var j := IndexOf(fl, last);
    }
  }

  /**
   * sbrkBlk keeps the invariant. If the last block is free it is reused:
   * it leaves the free list, the break grows by what it lacked, and the
   * block list is unchanged. Otherwise a new block is appended at the old
   * break. Either way the returned block is allocated, last on the
   * allocated list, with payload exactly req.
   */
  lemma ExtendKeeps(h: Heap, bs: seq<nat>, fl: seq<nat>, al: seq<nat>, req: nat)
    requires Inv(h, bs, fl, al) && Aligned(req)
    requires forall m :: 0 <= m < |fl| ==> PayloadSize(h, fl[m]) < req
    ensures h.brk > 0 && (Tagged(h, LastBlock(h)) ==> PayloadSize(h, LastBlock(h)) <= req)
    ensures var s, last := ExtendHeap(h, req), bs[|bs| - 1];
      && PayloadSize(s.heap, s.blk) == req && s.heap.bytes == h.bytes
      && (Tagged(h, last) ==>
            && s.blk == last && last in fl
            && Inv(s.heap, bs, RemoveAt(fl, IndexOf(fl, last)), al + [last])
            && s.heap.brk == h.brk + req - PayloadSize(h, last))
      && (!Tagged(h, last) ==>
            && s.blk == h.brk
            && Inv(s.heap, bs + [h.brk], fl, al + [h.brk])
            && s.heap.brk == h.brk + req + Overhead)
  {
    NoFitAllowsExtend(h, bs, fl, al, req);
    var last := bs[|bs| - 1];
    if Tagged(h, last) {
      GrowKeeps(h, bs, fl, al, IndexOf(fl, last), last, req);
    } else {
      AppendKeeps(h, bs, fl, al, req);
    }
  }

  /** sbrkBlk writes no size word but that of the block it returns. */
  lemma ExtendSpares(h: Heap, req: nat)
    requires h.brk > 0
    requires Tagged(h, LastBlock(h)) ==> PayloadSize(h, LastBlock(h)) <= req
    ensures var s := ExtendHeap(h, req);
      forall x :: x != s.blk ==> Hd(s.heap, x).size == Hd(h, x).size
  {
    if Tagged(h, LastBlock(h)) {
      GrowSizes(h, LastBlock(h), req);
    } else {
      AppendWords(h, req);
    }
  }
}
