/** mm_malloc's split branch: a free block gives up the tail of its span. */
module SplitProofs {
  import opened Layout
  import opened HeapState
  import opened Seqs
  import opened Lists
  import opened Invariant
  import opened Frame
  import opened Steps

  /**
   * The words the split branch writes, in terms of the heap before it: the
   * new allocated header c takes the last size + Overhead bytes of b's span.
   */
  lemma SplitWrites(h: Heap, fl: seq<nat>, al: seq<nat>, b: nat, size: nat)
    requires TwoLists(h, fl, al) && b in fl && b >= EndOfPrologue
    requires SplitWorthwhile(PayloadSize(h, b), size)
    requires Aligned(size) && Aligned(PayloadSize(h, b))
    requires forall x :: x in fl || x in al ==> x <= b || x >= BlockEnd(h, b)
    ensures var g, c := SplitBlock(h, b, size), Carved(h, b, size);
      && g.ptr == c + HeaderSize
      && c > b && c + size + Overhead == BlockEnd(h, b)
      && g.heap.brk == h.brk && g.heap.bytes == h.bytes
      && TwoLists(g.heap, fl, al + [c])
      && h.hdr.Keys + {c} <= g.heap.hdr.Keys
      && Hd(g.heap, b).size == PayloadSize(h, b) - size - Overhead + 1
      && Hd(g.heap, c).size == size
      && (forall x :: x != b && x != c ==> Hd(g.heap, x).size == Hd(h, x).size)
      && Ft(g.heap, c - FooterSize) == b && Ft(g.heap, c + HeaderSize + size) == c
      && (forall a :: a != c - FooterSize && a != c + HeaderSize + size ==> Ft(g.heap, a) == Ft(h, a))
  {
    SplitBlockParts(h, b, size);
    ShrinkFacts(h, fl, al, b, size);
    CarveFacts(ShrinkFree(h, b, size + Overhead), fl, al, Carved(h, b, size), size, b);
  }

  /** Where the split branch puts the header of the block it hands out. */
  function Carved(h: Heap, b: nat, size: nat): (c: nat)
    requires SplitWorthwhile(PayloadSize(h, b), size)
    ensures c >= b + MinFreeSize
    ensures c + size + Overhead == BlockEnd(h, b)
  {
    ChunkHeader(b, PayloadSize(h, b) + Overhead, size + Overhead)
  }

  /** The split branch is the shrink followed by the carve. */
  lemma SplitBlockParts(h: Heap, b: nat, size: nat)
    requires SplitWorthwhile(PayloadSize(h, b), size)
    ensures SplitBlock(h, b, size)
      == Grant(PlaceChunk(ShrinkFree(h, b, size + Overhead), Carved(h, b, size), size, b),
               Carved(h, b, size) + HeaderSize)
  {
  }

  /** Shrinking b by the chunk keeps both rings, leaves b tagged with payload reduced by the chunk, and touches no other size word. */
  lemma ShrinkFacts(h: Heap, fl: seq<nat>, al: seq<nat>, b: nat, size: nat)
    requires TwoLists(h, fl, al)
    requires SplitWorthwhile(PayloadSize(h, b), size)
    requires Aligned(size) && Aligned(PayloadSize(h, b))
    ensures var r := ShrinkFree(h, b, size + Overhead);
      && TwoLists(r, fl, al)
      && r.brk == h.brk && r.bytes == h.bytes && r.ftr == h.ftr
      && h.hdr.Keys + {b} == r.hdr.Keys
      && Hd(r, b).size == PayloadSize(h, b) - size - Overhead + 1
      && (forall x :: x != b ==> Hd(r, x).size == Hd(h, x).size)
  {
    ShrinkSize(h, b, size);
    ShrinkLists(h, fl, al, b, size + Overhead);
    ShrinkFrame(h, b, size + Overhead);
  }

  /** Rewriting b's size word twice changes no link. */
  lemma ShrinkLists(h: Heap, fl: seq<nat>, al: seq<nat>, b: nat, chunkSize: nat)
    requires TwoLists(h, fl, al) && chunkSize <= Untag(Hd(h, b).size)
    ensures TwoLists(ShrinkFree(h, b, chunkSize), fl, al)
  {
    ShrinkFrame(h, b, chunkSize);
    SameLinksKeepLists(h, ShrinkFree(h, b, chunkSize), fl, al);
  }

  /** Shrinking b writes only b's size word. */
  lemma ShrinkFrame(h: Heap, b: nat, chunkSize: nat)
    requires chunkSize <= Untag(Hd(h, b).size)
    ensures var r := ShrinkFree(h, b, chunkSize);
      && r.brk == h.brk && r.bytes == h.bytes && r.ftr == h.ftr
      && h.hdr.Keys + {b} == r.hdr.Keys
      && (forall x :: x != b ==> Hd(r, x).size == Hd(h, x).size)
      && (forall x :: Hd(r, x).prev == Hd(h, x).prev && Hd(r, x).next == Hd(h, x).next)
  {
  }

  /** The shrunk free block keeps the tag and what is left of its payload. */
  lemma ShrinkSize(h: Heap, b: nat, size: nat)
    requires SplitWorthwhile(PayloadSize(h, b), size)
    requires Aligned(size) && Aligned(PayloadSize(h, b))
    ensures Hd(ShrinkFree(h, b, size + Overhead), b).size == PayloadSize(h, b) - size - Overhead + 1
  {
    Remainder(PayloadSize(h, b), size);
    var v := Untag(Hd(h, b).size) - (size + Overhead);
    assert v == PayloadSize(h, b) - size - Overhead;
    assert Hd(SetSize(h, b, v), b).size == v;
    assert Hd(ShrinkFree(h, b, size + Overhead), b).size == Tag(Hd(SetSize(h, b, v), b).size);
  }

  /** Linking, sizing and footing the new allocated chunk at c, carved from the block at b. */
  lemma CarveFacts(h: Heap, fl: seq<nat>, al: seq<nat>, c: nat, size: nat, b: nat)
    requires TwoLists(h, fl, al) && c !in fl && c !in al && c >= EndOfPrologue
    ensures var r := PlaceChunk(h, c, size, b);
      && TwoLists(r, fl, al + [c])
      && r.brk == h.brk && r.bytes == h.bytes
      && h.hdr.Keys + {c} == r.hdr.Keys
      && Hd(r, c).size == size
      && (forall x :: x != c ==> Hd(r, x).size == Hd(h, x).size)
      && Ft(r, c - FooterSize) == b && Ft(r, c + HeaderSize + size) == c
      && (forall a :: a != c - FooterSize && a != c + HeaderSize + size ==> Ft(r, a) == Ft(h, a))
  {
    var h3 := LinkAllocated(h, c);
    LinkToAlloc(h, fl, al, c);
    var h4 := SetSize(h3, c, size);
    SizeWriteKeepsLists(h3, fl, al + [c], c, size);
    var h5 := SetFooter(h4, c - FooterSize, b);
    HeadersKeepLists(h4, h5, fl, al + [c]);
    HeadersKeepLists(h5, SetFooter(h5, c + HeaderSize + size, c), fl, al + [c]);
  }

  /** What a split leaves of an aligned payload p after carving an aligned size plus overhead. */
  lemma Remainder(p: nat, size: nat)
    requires Aligned(p) && Aligned(size) && size + Overhead + MinFreeSize <= p + Overhead
    ensures Aligned(p - size - Overhead) && p - size - Overhead >= Alignment
    ensures Tag(p - size - Overhead) == p - size - Overhead + 1
    ensures Untag(p - size - Overhead + 1) == p - size - Overhead
  {
    AlignedAdd(size, Overhead);
    AlignedSub(p, size + Overhead);
    AlignedUntagged(p - size - Overhead);
  }

  /** The carved header lies strictly inside b's span, so it is no block of the old layout. */
  lemma CarvedIsNew(h: Heap, bs: seq<nat>, i: nat, c: nat)
    requires Physical(h, bs) && i < |bs|
    requires bs[i] < c < BlockEnd(h, bs[i])
    ensures c !in bs
    ensures forall k :: 0 <= k < |bs| && k != i ==> BlockEnd(h, bs[k]) <= bs[i] || bs[k] >= BlockEnd(h, bs[i])
  {
    TilesOrdered(h, bs);
    forall k | 0 <= k < |bs| && k != i
      ensures BlockEnd(h, bs[k]) <= bs[i] || bs[k] >= BlockEnd(h, bs[i])
    {
    }
  }

  /** After the split, the blocks still tile the arena, with c right after b. */
  lemma SplitTiles(h: Heap, r: Heap, bs: seq<nat>, i: nat, size: nat)
    requires Physical(h, bs) && i < |bs|
    requires SplitWorthwhile(PayloadSize(h, bs[i]), size)
    requires r.brk == h.brk
    requires PayloadSize(r, bs[i]) == PayloadSize(h, bs[i]) - size - Overhead
    requires PayloadSize(r, Carved(h, bs[i], size)) == size
    requires forall x :: x != bs[i] && x != Carved(h, bs[i], size) ==> Hd(r, x).size == Hd(h, x).size
    ensures Tiles(r, InsertAt(bs, i + 1, Carved(h, bs[i], size)))
  {
    var b, c := bs[i], Carved(h, bs[i], size);
    TilesOrdered(h, bs);
    CarvedIsNew(h, bs, i, c);
    var s := InsertAt(bs, i + 1, c);
    assert BlockEnd(r, b) == c;
    assert BlockEnd(r, c) == BlockEnd(h, b);
    forall k | 0 <= k < |s| - 1 ensures s[k + 1] == BlockEnd(r, s[k]) {
      if k < i {
        assert s[k] == bs[k] && s[k + 1] == bs[k + 1] && bs[k] != b;
      } else if k == i + 1 {
        assert s[k + 1] == bs[i + 1];
      } else if k > i + 1 {
        assert s[k] == bs[k - 1] && s[k + 1] == bs[k] && bs[k - 1] != b;
      }
    }
    assert s[0] == EndOfPrologue by { assert s[0] == bs[0]; }
    assert BlockEnd(r, s[|s| - 1]) == r.brk by {
      if i + 1 < |bs| {
        assert s[|s| - 1] == bs[|bs| - 1] && bs[|bs| - 1] != b;
      } else {
        assert s[|s| - 1] == c;
      }
    }
  }

  /** After the split, every block's footer, b's and c's included, names its header. */
  lemma SplitFooters(h: Heap, r: Heap, bs: seq<nat>, i: nat, size: nat)
    requires Physical(h, bs) && i < |bs|
    requires SplitWorthwhile(PayloadSize(h, bs[i]), size)
    requires PayloadSize(r, bs[i]) == PayloadSize(h, bs[i]) - size - Overhead
    requires PayloadSize(r, Carved(h, bs[i], size)) == size
    requires forall x :: x != bs[i] && x != Carved(h, bs[i], size) ==> Hd(r, x).size == Hd(h, x).size
    requires Ft(r, Carved(h, bs[i], size) - FooterSize) == bs[i]
    requires Ft(r, Carved(h, bs[i], size) + HeaderSize + size) == Carved(h, bs[i], size)
    requires forall a :: a != Carved(h, bs[i], size) - FooterSize && a != Carved(h, bs[i], size) + HeaderSize + size
               ==> Ft(r, a) == Ft(h, a)
    ensures var s := InsertAt(bs, i + 1, Carved(h, bs[i], size));
      forall k :: 0 <= k < |s| ==> Ft(r, FooterAddr(r, s[k])) == s[k]
  {
    var b, c := bs[i], Carved(h, bs[i], size);
    CarvedIsNew(h, bs, i, c);
    var s := InsertAt(bs, i + 1, c);
    forall k | 0 <= k < |s| ensures Ft(r, FooterAddr(r, s[k])) == s[k] {
      if k == i {
        assert s[k] == b && FooterAddr(r, b) == c - FooterSize;
      } else if k == i + 1 {
        assert s[k] == c && FooterAddr(r, c) == c + HeaderSize + size;
      } else {
        var k' := if k < i then k else k - 1;
        assert s[k] == bs[k'];
        UntouchedFooter(h, r, bs, i, size, k');
      }
    }
  }

  /** A block other than b keeps its payload, so its footer word, which the split does not write. */
  lemma UntouchedFooter(h: Heap, r: Heap, bs: seq<nat>, i: nat, size: nat, k: nat)
    requires Physical(h, bs) && i < |bs| && k < |bs| && k != i
    requires SplitWorthwhile(PayloadSize(h, bs[i]), size)
    requires forall x :: x != bs[i] && x != Carved(h, bs[i], size) ==> Hd(r, x).size == Hd(h, x).size
    requires forall a :: a != Carved(h, bs[i], size) - FooterSize && a != Carved(h, bs[i], size) + HeaderSize + size
               ==> Ft(r, a) == Ft(h, a)
    ensures Ft(r, FooterAddr(r, bs[k])) == bs[k]
  {
    var b, c, x := bs[i], Carved(h, bs[i], size), bs[k];
    CarvedIsNew(h, bs, i, c);
    assert x != b && x != c;
    assert FooterAddr(r, x) == FooterAddr(h, x);
    assert BlockEnd(h, x) <= b || x >= BlockEnd(h, b);
    assert FooterAddr(h, x) != c - FooterSize && FooterAddr(h, x) != c + HeaderSize + size;
  }

  /** After the split, headers exist and payloads are aligned for every block. */
  lemma SplitAligned(h: Heap, r: Heap, bs: seq<nat>, i: nat, size: nat)
    requires Physical(h, bs) && i < |bs|
    requires SplitWorthwhile(PayloadSize(h, bs[i]), size) && Aligned(size)
    requires h.hdr.Keys + {Carved(h, bs[i], size)} <= r.hdr.Keys
    requires PayloadSize(r, bs[i]) == PayloadSize(h, bs[i]) - size - Overhead
    requires PayloadSize(r, Carved(h, bs[i], size)) == size
    requires forall x :: x != bs[i] && x != Carved(h, bs[i], size) ==> Hd(r, x).size == Hd(h, x).size
    ensures var s := InsertAt(bs, i + 1, Carved(h, bs[i], size));
      && (forall k :: 0 <= k < |s| ==> s[k] in r.hdr)
      && (forall k :: 0 <= k < |s| ==> Aligned(PayloadSize(r, s[k])))
  {
    var b, c := bs[i], Carved(h, bs[i], size);
    Remainder(PayloadSize(h, b), size);
    var s := InsertAt(bs, i + 1, c);
    forall k | 0 <= k < |s| ensures s[k] in r.hdr && Aligned(PayloadSize(r, s[k])) {
      if k != i + 1 {
        var x := if k <= i then bs[k] else bs[k - 1];
        assert s[k] == x && x in bs;
      }
    }
  }

  /** b keeps its tag and c has none, so no two tagged blocks become neighbours. */
  lemma SplitCoalesced(h: Heap, r: Heap, bs: seq<nat>, i: nat, c: nat)
    requires Coalesced(h, bs) && Distinct(bs) && i < |bs| && c !in bs
    requires Tagged(h, bs[i]) && !Tagged(r, c)
    requires forall x :: x != c && Tagged(r, x) ==> Tagged(h, x)
    ensures Coalesced(r, InsertAt(bs, i + 1, c))
  {
    var s := InsertAt(bs, i + 1, c);
    forall k | 0 <= k < |s| - 1 ensures !(Tagged(r, s[k]) && Tagged(r, s[k + 1])) {
      if k < i {
        assert s[k] == bs[k] && s[k + 1] == bs[k + 1];
      } else if k > i + 1 {
        assert s[k] == bs[k - 1] && s[k + 1] == bs[k];
      } else if k == i {
        assert s[k + 1] == c;
      } else {
        assert s[k] == c;
      }
    }
  }

  /** b stays on the free list with its tag, c joins the allocated list without one. */
  lemma SplitTags(h: Heap, r: Heap, fl: seq<nat>, al: seq<nat>, b: nat, c: nat)
    requires ListTags(h, fl, al) && b in fl && c !in fl && c !in al
    requires forall x :: x in fl ==> x !in al
    requires Tagged(r, b) && !Tagged(r, c)
    requires forall x :: x != b && x != c ==> Hd(r, x).size == Hd(h, x).size
    ensures ListTags(r, fl, al + [c])
  {
    var al' := al + [c];
    forall k | 0 <= k < |al'| ensures !Tagged(r, al'[k]) {
      if k < |al| { assert al'[k] == al[k] && al[k] != b; }
    }
  }

  /** After a split the blocks, c inserted right after b, are physically well-formed. */
  lemma SplitPhysical(h: Heap, r: Heap, bs: seq<nat>, i: nat, b: nat, size: nat)
    requires Physical(h, bs) && Coalesced(h, bs) && i < |bs| && bs[i] == b && Tagged(h, b)
    requires SplitWorthwhile(PayloadSize(h, b), size) && Aligned(size)
    requires r.brk == h.brk && h.hdr.Keys + {Carved(h, b, size)} <= r.hdr.Keys
    requires Hd(r, b).size == PayloadSize(h, b) - size - Overhead + 1
    requires Hd(r, Carved(h, b, size)).size == size
    requires forall x :: x != b && x != Carved(h, b, size) ==> Hd(r, x).size == Hd(h, x).size
    requires Ft(r, Carved(h, b, size) - FooterSize) == b
    requires Ft(r, Carved(h, b, size) + HeaderSize + size) == Carved(h, b, size)
    requires forall a :: a != Carved(h, b, size) - FooterSize && a != Carved(h, b, size) + HeaderSize + size
               ==> Ft(r, a) == Ft(h, a)
    ensures Physical(r, InsertAt(bs, i + 1, Carved(h, b, size)))
  {
    Remainder(PayloadSize(h, b), size);
    assert PayloadSize(r, b) == PayloadSize(h, b) - size - Overhead;
    assert PayloadSize(r, Carved(h, b, size)) == size by {
      AlignedUntagged(size);
    }
    SplitTiles(h, r, bs, i, size);
    SplitFooters(h, r, bs, i, size);
    SplitAligned(h, r, bs, i, size);
  }

  /** The layout after a split: c is inserted into the block order right after b. */
  lemma SplitLayout(h: Heap, r: Heap, bs: seq<nat>, i: nat, b: nat, size: nat)
    requires Physical(h, bs) && Coalesced(h, bs) && i < |bs| && bs[i] == b && Tagged(h, b)
    requires SplitWorthwhile(PayloadSize(h, b), size) && Aligned(size)
    requires r.brk == h.brk && h.hdr.Keys + {Carved(h, b, size)} <= r.hdr.Keys
    requires Hd(r, b).size == PayloadSize(h, b) - size - Overhead + 1
    requires Hd(r, Carved(h, b, size)).size == size
    requires forall x :: x != b && x != Carved(h, b, size) ==> Hd(r, x).size == Hd(h, x).size
    requires Ft(r, Carved(h, b, size) - FooterSize) == b
    requires Ft(r, Carved(h, b, size) + HeaderSize + size) == Carved(h, b, size)
    requires forall a :: a != Carved(h, b, size) - FooterSize && a != Carved(h, b, size) + HeaderSize + size
               ==> Ft(r, a) == Ft(h, a)
    ensures Physical(r, InsertAt(bs, i + 1, Carved(h, b, size)))
    ensures Coalesced(r, InsertAt(bs, i + 1, Carved(h, b, size)))
    ensures Tagged(r, b) && !Tagged(r, Carved(h, b, size))
    ensures PayloadSize(r, b) == PayloadSize(h, b) - size - Overhead
    ensures PayloadSize(r, Carved(h, b, size)) == size
  {
    SplitPhysical(h, r, bs, i, b, size);
    Remainder(PayloadSize(h, b), size);
    AlignedUntagged(size);
    TilesOrdered(h, bs);
    CarvedIsNew(h, bs, i, Carved(h, b, size));
    SplitCoalesced(h, r, bs, i, Carved(h, b, size));
  }

  /**
   * The split branch keeps the invariant: the chosen free block b stays on
   * the free list, tagged, with its payload reduced by size + Overhead; the
   * carved block c, which follows b physically, is appended to the
   * allocated list with payload exactly size; the break does not move.
   */
  lemma SplitKeeps(h: Heap, bs: seq<nat>, fl: seq<nat>, al: seq<nat>, i: nat, b: nat, size: nat)
    requires Inv(h, bs, fl, al) && i < |bs| && bs[i] == b && b in fl
    requires SplitWorthwhile(PayloadSize(h, b), size) && Aligned(size)
    ensures var g, c := SplitBlock(h, b, size), Carved(h, b, size);
      && Inv(g.heap, InsertAt(bs, i + 1, c), fl, al + [c])
      && g.ptr == c + HeaderSize
      && PayloadSize(g.heap, c) == size
      && b < c && c + size + Overhead == BlockEnd(h, b)
      && PayloadSize(g.heap, b) == PayloadSize(h, b) - size - Overhead
      && g.heap.brk == h.brk && g.heap.bytes == h.bytes
  {
    ShapeLists(h, bs, fl, al);
    TilesOrdered(h, bs);
    CarvedIsNew(h, bs, i, Carved(h, b, size));
    assert forall x :: x in fl || x in al ==> x <= b || x >= BlockEnd(h, b) by {
      forall x | x in fl || x in al ensures x <= b || x >= BlockEnd(h, b) {
        assert x in bs;
        var k := IndexOf(bs, x);
      }
    }
    FreeMemberTagged(h, fl, al, b);
    SplitWrites(h, fl, al, b, size);
    SplitLayout(h, SplitBlock(h, b, size).heap, bs, i, b, size);
    SplitTags(h, SplitBlock(h, b, size).heap, fl, al, b, Carved(h, b, size));
    forall x ensures x in InsertAt(bs, i + 1, Carved(h, b, size)) <==> x in fl || x in al + [Carved(h, b, size)] {
      InsertAtMembership(bs, i + 1, Carved(h, b, size), x);
    }
    InvFromParts(SplitBlock(h, b, size).heap, InsertAt(bs, i + 1, Carved(h, b, size)), fl, al + [Carved(h, b, size)]);
  }

  /** The split branch leaves every allocated block's size word alone. */
  lemma SplitSparesAllocated(h: Heap, bs: seq<nat>, fl: seq<nat>, al: seq<nat>, i: nat, b: nat, size: nat)
    requires Inv(h, bs, fl, al) && i < |bs| && bs[i] == b && b in fl
    requires SplitWorthwhile(PayloadSize(h, b), size) && Aligned(size)
    ensures forall x :: x in al ==> Hd(SplitBlock(h, b, size).heap, x).size == Hd(h, x).size
  {
    ShapeLists(h, bs, fl, al);
    TilesOrdered(h, bs);
    CarvedIsNew(h, bs, i, Carved(h, b, size));
    assert forall x :: x in fl || x in al ==> x <= b || x >= BlockEnd(h, b) by {
      forall x | x in fl || x in al ensures x <= b || x >= BlockEnd(h, b) {
        assert x in bs;
        var k := IndexOf(bs, x);
      }
    }
    SplitWrites(h, fl, al, b, size);
  }
}
