/**
 * What a well-formed heap looks like, stated over ghost views: the physical
 * block sequence `bs` (header offsets in address order) and the two list
 * orders `fl` (free list) and `al` (allocated list).
 */
module Invariant {
  import opened Layout
  import opened HeapState
  import opened Opt
  import opened Seqs
  import opened Lists
  import opened Navigator

  /** The blocks bs sit back to back from the end of the sentinels up to the break. */
  ghost predicate Tiles(h: Heap, bs: seq<nat>) {
    && |bs| > 0
    && bs[0] == EndOfPrologue
    && (forall i :: 0 <= i < |bs| - 1 ==> bs[i + 1] == BlockEnd(h, bs[i]))
    && BlockEnd(h, bs[|bs| - 1]) == h.brk
  }

  /** Tiling, plus: every block has a header, an aligned payload and a footer naming its header. */
  ghost predicate Physical(h: Heap, bs: seq<nat>) {
    && Tiles(h, bs)
    && (forall i :: 0 <= i < |bs| ==> bs[i] in h.hdr)
    && (forall i :: 0 <= i < |bs| ==> Aligned(PayloadSize(h, bs[i])))
    && (forall i :: 0 <= i < |bs| ==> Ft(h, FooterAddr(h, bs[i])) == bs[i])
  }

  /**
   * No two physically adjacent blocks both carry the free tag. With
   * ListTags this means no two adjacent blocks are both on the free list
   * (Invariant.FreeApart).
   */
  ghost predicate Coalesced(h: Heap, bs: seq<nat>) {
    forall i :: 0 <= i < |bs| - 1 ==> !(Tagged(h, bs[i]) && Tagged(h, bs[i + 1]))
  }

  /** Tags agree with lists, as mm_check demands: allocated blocks are untagged, free blocks tagged. */
  ghost predicate ListTags(h: Heap, fl: seq<nat>, al: seq<nat>) {
    && (forall i :: 0 <= i < |al| ==> !Tagged(h, al[i]))
    && (forall i :: 0 <= i < |fl| ==> Tagged(h, fl[i]))
  }

  /** What holds between operations and in the middle of mm_free alike. */
  ghost predicate Shape(h: Heap, bs: seq<nat>, fl: seq<nat>, al: seq<nat>) {
    && Physical(h, bs)
    && Coalesced(h, bs)
    && ListOk(h, FreeBase, fl)
    && ListOk(h, AllocBase, al)
    && ListTags(h, fl, al)
    && (forall x :: x in fl ==> x !in al)
  }

  /** The heap invariant: every block is on exactly one of the two lists. */
  ghost predicate Inv(h: Heap, bs: seq<nat>, fl: seq<nat>, al: seq<nat>) {
    && Shape(h, bs, fl, al)
    && |fl| + |al| == |bs|
    && (forall x :: x in bs <==> x in fl || x in al)
  }

  /** The invariant while block d is on neither list (inside mm_free). */
  ghost predicate Detached(h: Heap, bs: seq<nat>, fl: seq<nat>, al: seq<nat>, d: nat) {
    && Shape(h, bs, fl, al)
    && |fl| + |al| + 1 == |bs|
    && d in bs && d !in fl && d !in al
    && (forall x :: x in bs <==> x in fl || x in al || x == d)
  }

  /** The physical blocks from b on, read off the heap by stepping over each block. */
  ghost function PhysFrom(h: Heap, b: nat): seq<nat>
    decreases h.brk - b
  {
    if b >= h.brk then [] else [b] + PhysFrom(h, BlockEnd(h, b))
  }

  /** The physical block sequence of the heap. */
  ghost function Blocks(h: Heap): seq<nat> {
    PhysFrom(h, EndOfPrologue)
  }

  /** The free list in link order, read off the heap. */
  ghost function FreeOrder(h: Heap): seq<nat> {
    Walk(h, Hd(h, FreeBase).next, FreeBase, h.brk)
  }

  /** The allocated list in link order, read off the heap. */
  ghost function AllocOrder(h: Heap): seq<nat> {
    Walk(h, Hd(h, AllocBase).next, AllocBase, h.brk)
  }

  /** A heap reachable by the allocator's operations satisfies the invariant on its own views. */
  ghost predicate Valid(h: Heap) {
    Inv(h, Blocks(h), FreeOrder(h), AllocOrder(h))
  }

  /** ptr is a payload address the allocator handed out and has not taken back. */
  ghost predicate Live(h: Heap, ptr: nat) {
    ptr >= HeaderSize && HeaderOf(ptr) in AllocOrder(h)
  }

  /** A block's end is its successor's start, or the break for the last one. */
  lemma {:induction false} TilesChain(h: Heap, bs: seq<nat>, i: nat, j: nat)
    requires Tiles(h, bs) && i < j < |bs|
    ensures BlockEnd(h, bs[i]) <= bs[j]
    decreases j - i
  {
    if j > i + 1 {
      TilesChain(h, bs, i, j - 1);
    }
  }

  /** Each block starts after the previous one, and on an aligned offset. */
  lemma {:induction false} TilesPosition(h: Heap, bs: seq<nat>, i: nat)
    requires Physical(h, bs) && i < |bs|
    ensures EndOfPrologue + i <= bs[i]
    ensures Aligned(bs[i])
  {
    if i > 0 {
      TilesPosition(h, bs, i - 1);
      AlignedAdd(bs[i - 1], Overhead);
      AlignedAdd(bs[i - 1] + Overhead, PayloadSize(h, bs[i - 1]));
      assert bs[i] == bs[i - 1] + Overhead + PayloadSize(h, bs[i - 1]);
    }
  }

  /** Every block ends at or before each later block's start. */
  lemma TilesSorted(h: Heap, bs: seq<nat>)
    requires Tiles(h, bs)
    ensures forall i, j :: 0 <= i < j < |bs| ==> BlockEnd(h, bs[i]) <= bs[j]
  {
    forall i, j | 0 <= i < j < |bs| ensures BlockEnd(h, bs[i]) <= bs[j] {
      TilesChain(h, bs, i, j);
    }
  }

  /** Blocks whose size words did not change keep their tags and their ends. */
  lemma SizesOffBlocks(h: Heap, r: Heap, bs: seq<nat>, b: nat)
    requires b !in bs
    requires forall x :: x != b ==> Hd(r, x).size == Hd(h, x).size
    ensures forall i :: 0 <= i < |bs| ==> (Tagged(r, bs[i]) <==> Tagged(h, bs[i]))
    ensures forall i :: 0 <= i < |bs| ==> BlockEnd(r, bs[i]) == BlockEnd(h, bs[i])
  {
  }

  /** A tiling extends by a block that starts at the old break and ends at the new one. */
  lemma TilesSnoc(h: Heap, r: Heap, bs: seq<nat>, b: nat)
    requires Tiles(h, bs) && b == h.brk
    requires forall i :: 0 <= i < |bs| ==> BlockEnd(r, bs[i]) == BlockEnd(h, bs[i])
    requires BlockEnd(r, b) == r.brk
    ensures Tiles(r, bs + [b])
  {
    var s := bs + [b];
    forall k | 0 <= k < |s| - 1 ensures s[k + 1] == BlockEnd(r, s[k]) {
      assert s[k] == bs[k];
      if k + 1 < |bs| { assert s[k + 1] == bs[k + 1]; }
    }
  }

  /** An untagged block appended to the end cannot clash with its predecessor. */
  lemma CoalescedSnoc(h: Heap, bs: seq<nat>, b: nat)
    requires Coalesced(h, bs) && !Tagged(h, b)
    ensures Coalesced(h, bs + [b])
  {
    var s := bs + [b];
    forall k | 0 <= k < |s| - 1 ensures !(Tagged(h, s[k]) && Tagged(h, s[k + 1])) {
      assert s[k] == bs[k];
      if k + 1 < |bs| { assert s[k + 1] == bs[k + 1]; }
    }
  }

  /** No block of a tiled arena starts at the break. */
  lemma BreakNotBlock(h: Heap, bs: seq<nat>)
    requires Physical(h, bs)
    ensures h.brk !in bs
  {
    TilesBounded(h, bs);
  }

  /** Every block lies between the end of the sentinels and the break, on an aligned offset. */
  lemma TilesBounded(h: Heap, bs: seq<nat>)
    requires Physical(h, bs)
    ensures forall i :: 0 <= i < |bs| ==> EndOfPrologue + i <= bs[i] && BlockEnd(h, bs[i]) <= h.brk
    ensures forall i :: 0 <= i < |bs| ==> Aligned(bs[i])
  {
    var last := |bs| - 1;
    forall i | 0 <= i < |bs| ensures Aligned(bs[i]) && EndOfPrologue + i <= bs[i] && BlockEnd(h, bs[i]) <= h.brk {
      TilesPosition(h, bs, i);
      if i < last { TilesChain(h, bs, i, last); }
    }
  }

  /** The consequences of tiling that the operations rely on. */
  lemma TilesOrdered(h: Heap, bs: seq<nat>)
    requires Physical(h, bs)
    ensures forall i, j :: 0 <= i < j < |bs| ==> BlockEnd(h, bs[i]) <= bs[j]
    ensures forall i :: 0 <= i < |bs| ==> EndOfPrologue <= bs[i] && BlockEnd(h, bs[i]) <= h.brk
    ensures forall i :: 0 <= i < |bs| ==> Aligned(bs[i])
    ensures Distinct(bs)
    ensures Aligned(h.brk)
    ensures |bs| <= h.brk
  {
    TilesSorted(h, bs);
    TilesBounded(h, bs);
    var last := |bs| - 1;
    TilesPosition(h, bs, last);
    AlignedAdd(bs[last], Overhead);
    AlignedAdd(bs[last] + Overhead, PayloadSize(h, bs[last]));
    assert h.brk == bs[last] + Overhead + PayloadSize(h, bs[last]);
  }

  /** Stepping over blocks from bs[k] reads back the rest of bs. */
  lemma {:induction false} PhysFromTiles(h: Heap, bs: seq<nat>, k: nat)
    requires Physical(h, bs) && k <= |bs|
    ensures PhysFrom(h, if k < |bs| then bs[k] else h.brk) == bs[k..]
    decreases |bs| - k
  {
    TilesOrdered(h, bs);
    if k < |bs| {
      PhysFromTiles(h, bs, k + 1);
      assert bs[k..] == [bs[k]] + bs[k + 1..];
    }
  }

  /** A heap satisfies the invariant on its own views if it does on any; and those views are the ones given. */
  lemma ViewsUnique(h: Heap, bs: seq<nat>, fl: seq<nat>, al: seq<nat>)
    requires Inv(h, bs, fl, al)
    ensures Blocks(h) == bs && FreeOrder(h) == fl && AllocOrder(h) == al
    ensures Valid(h)
  {
    PhysFromTiles(h, bs, 0);
    TilesOrdered(h, bs);
    assert |fl| <= |bs| <= h.brk;
    assert |al| <= |bs|;
    WalkFromSentinel(h, FreeBase, fl, h.brk);
    WalkFromSentinel(h, AllocBase, al, h.brk);
  }

  /** getNextPhyBlk returns the block that physically follows, and NULL after the last one. */
  lemma NextPhysIsSuccessor(h: Heap, bs: seq<nat>, i: nat)
    requires Physical(h, bs) && i < |bs|
    ensures NextPhysBlock(h, bs[i]) == if i + 1 < |bs| then Some(bs[i + 1]) else None
  {
    TilesOrdered(h, bs);
  }

  /** getPrevPhyBlk returns the block that physically precedes, and NULL for the first one. */
  lemma PrevPhysIsPredecessor(h: Heap, bs: seq<nat>, i: nat)
    requires Physical(h, bs) && i < |bs|
    ensures PrevPhysBlock(h, bs[i]) == if i > 0 then Some(bs[i - 1]) else None
  {
    TilesOrdered(h, bs);
  }

  /** The footer word at ALIGN_DOWN(mem_heap_hi()) belongs to the last physical block. */
  lemma LastFooter(h: Heap, bs: seq<nat>)
    requires Physical(h, bs)
    ensures AlignDown(HeapHi(h)) == FooterAddr(h, bs[|bs| - 1])
    ensures Ft(h, AlignDown(HeapHi(h))) == bs[|bs| - 1]
  {
    TilesOrdered(h, bs);
    AlignDownBelow(h.brk);
  }
}
