/** What mm_malloc's scan and its two reuse branches do to the heap. */
module MallocProofs {
  import opened Layout
  import opened HeapState
  import opened Opt
  import opened Seqs
  import opened Lists
  import opened Invariant
  import opened Frame
  import opened Steps

  /** Position j of the free list holds the first block whose payload reaches size. */
  ghost predicate IsFirstFit(h: Heap, fl: seq<nat>, size: nat, j: nat) {
    && j < |fl|
    && PayloadSize(h, fl[j]) >= size
    && forall m :: 0 <= m < j ==> PayloadSize(h, fl[m]) < size
  }

  /** The scan from position k finds the first fitting block at or after k, if any. */
  lemma {:induction false} FirstFitFrom(h: Heap, fl: seq<nat>, size: nat, k: nat, fuel: nat)
    requires ListOk(h, FreeBase, fl) && k <= |fl| && fuel >= |fl| - k
    ensures var r := FirstFit(h, if k < |fl| then fl[k] else FreeBase, size, fuel);
      && (r.None? <==> forall m :: k <= m < |fl| ==> PayloadSize(h, fl[m]) < size)
      && (r.Some? ==> exists j :: k <= j < |fl| && fl[j] == r.value && PayloadSize(h, fl[j]) >= size
                              && forall m :: k <= m < j ==> PayloadSize(h, fl[m]) < size)
    decreases |fl| - k
  {
    if k < |fl| {
      assert fl[k] != FreeBase;
      if PayloadSize(h, fl[k]) < size {
        FirstFitFrom(h, fl, size, k + 1, fuel - 1);
        assert Hd(h, fl[k]).next == (if k + 1 < |fl| then fl[k + 1] else FreeBase);
      }
    }
  }

  /**
   * mm_malloc's loop returns the first block of the free list, in list
   * order, whose untagged payload is at least size, and nothing exactly
   * when every free block is smaller.
   */
  lemma FirstFitIsFirst(h: Heap, fl: seq<nat>, size: nat, fuel: nat)
    requires ListOk(h, FreeBase, fl) && fuel >= |fl|
    ensures var r := FirstFit(h, Hd(h, FreeBase).next, size, fuel);
      && (r.None? <==> forall m :: 0 <= m < |fl| ==> PayloadSize(h, fl[m]) < size)
      && (r.Some? ==> r.value in fl && IsFirstFit(h, fl, size, IndexOf(fl, r.value)))
  {
    FirstFitFrom(h, fl, size, 0, fuel);
    var r := FirstFit(h, Hd(h, FreeBase).next, size, fuel);
    if r.Some? {
      var j :| 0 <= j < |fl| && fl[j] == r.value && PayloadSize(h, fl[j]) >= size
               && forall m :: 0 <= m < j ==> PayloadSize(h, fl[m]) < size;
      assert IndexOf(fl, r.value) == j by {
        var i := IndexOf(fl, r.value);
        assert fl[i] == fl[j];
      }
    }
  }

  /**
   * The whole-block branch: the chosen free block moves from its place in
   * the free list to the end of the allocated list, loses its tag and
   * keeps its payload; the break does not move.
   */
  lemma TakeWholeKeeps(h: Heap, bs: seq<nat>, fl: seq<nat>, al: seq<nat>, j: nat)
    requires Inv(h, bs, fl, al) && j < |fl|
    ensures var g, b := TakeWhole(h, fl[j]), fl[j];
      && Inv(g.heap, bs, RemoveAt(fl, j), al + [b])
      && g.ptr == b + HeaderSize
      && PayloadSize(g.heap, b) == PayloadSize(h, b)
      && g.heap.brk == h.brk && g.heap.bytes == h.bytes
  {
    ShapeLists(h, bs, fl, al);
    TakeWholeLists(h, fl, al, j, fl[j]);
    TakeWholeSize(h, fl[j]);
    TakeWholeSpares(h, fl[j]);
    TakeWholeTags(h, TakeWhole(h, fl[j]).heap, bs, fl, al, j);
  }

  /** Moving the block from the free list to the end of the allocated list keeps both lists well formed. */
  lemma TakeWholeLists(h: Heap, fl: seq<nat>, al: seq<nat>, j: nat, b: nat)
    requires TwoLists(h, fl, al) && j < |fl| && fl[j] == b && b != AllocBase && b != FreeBase
    ensures var r := TakeWhole(h, b).heap;
      && TwoLists(r, RemoveAt(fl, j), al + [b])
      && r.brk == h.brk && r.ftr == h.ftr && r.bytes == h.bytes && h.hdr.Keys <= r.hdr.Keys
  {
    var fl', al' := RemoveAt(fl, j), al + [b];
    var h1 := Unlink(h, b);
    UnlinkFromFree(h, fl, al, j);
    var h2 := LinkAllocated(h1, b);
    LinkToAlloc(h1, fl', al, b);
    SizeWriteKeepsLists(h2, fl', al', b, Untag(Hd(h2, b).size));
  }

  /** The taken block keeps its payload and loses its free tag. */
  lemma TakeWholeSize(h: Heap, b: nat)
    ensures var r := TakeWhole(h, b).heap;
      PayloadSize(r, b) == PayloadSize(h, b) && !Tagged(r, b)
  {
    var h2 := LinkAllocated(Unlink(h, b), b);
    assert Hd(h2, b).size == Hd(h, b).size;
  }

  /** The rest of the whole-block branch: layout, tags and membership once the lists are right. */
  lemma TakeWholeTags(h: Heap, r: Heap, bs: seq<nat>, fl: seq<nat>, al: seq<nat>, j: nat)
    requires Inv(h, bs, fl, al) && j < |fl|
    requires TwoLists(r, RemoveAt(fl, j), al + [fl[j]])
    requires r.brk == h.brk && r.ftr == h.ftr && h.hdr.Keys <= r.hdr.Keys
    requires PayloadSize(r, fl[j]) == PayloadSize(h, fl[j]) && !Tagged(r, fl[j])
    requires forall x :: x != fl[j] ==> Hd(r, x).size == Hd(h, x).size
    ensures Inv(r, bs, RemoveAt(fl, j), al + [fl[j]])
  {
    PhysicalFrame(h, r, bs);
    CoalescedFrame(h, r, bs);
    MoveToAllocTags(h, r, fl, al, j);
    MoveToAllocMembers(bs, fl, al, j);
  }

  /** The whole-block branch writes no size word but that of the block it takes. */
  lemma TakeWholeSpares(h: Heap, b: nat)
    ensures forall x :: x != b ==> Hd(TakeWhole(h, b).heap, x).size == Hd(h, x).size
  {
    var h1 := Unlink(h, b);
    var h2 := LinkAllocated(h1, b);
    var h3 := SetSize(h2, b, Untag(Hd(h2, b).size));
    assert TakeWhole(h, b).heap == h3;
    assert forall x :: x != b ==> Hd(h3, x).size == Hd(h, x).size;
  }
}
