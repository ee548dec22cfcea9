/**
 * Framing facts: which parts of the invariant survive a write that leaves
 * the relevant words alone.
 */
module Frame {
  import opened Layout
  import opened HeapState
  import opened Seqs
  import opened Lists
  import opened Invariant

  /** Blocks and list members lie above the two sentinels. */
  lemma AboveSentinels(h: Heap, bs: seq<nat>, fl: seq<nat>, al: seq<nat>)
    requires Physical(h, bs)
    requires forall x :: x in fl || x in al ==> x in bs
    ensures forall x :: x in bs ==> EndOfPrologue <= x < h.brk
    ensures AllocBase !in fl && AllocBase !in al && FreeBase !in fl && FreeBase !in al
  {
    TilesOrdered(h, bs);
  }

  /** The layout survives writes that keep the break, the footers and every block's payload size. */
  lemma PhysicalFrame(h: Heap, r: Heap, bs: seq<nat>)
    requires Physical(h, bs)
    requires r.brk == h.brk && r.ftr == h.ftr
    requires forall i :: 0 <= i < |bs| ==> bs[i] in r.hdr && PayloadSize(r, bs[i]) == PayloadSize(h, bs[i])
    ensures Physical(r, bs)
  {
  }

  /** A list none of whose headers was among the (at most three) written ones is intact. */
  lemma ListUntouched(h: Heap, r: Heap, s: nat, L: seq<nat>, a: nat, b: nat, c: nat)
    requires ListOk(h, s, L)
    requires h.hdr.Keys <= r.hdr.Keys
    requires forall x :: x != a && x != b && x != c ==> Hd(r, x) == Hd(h, x)
    requires s != a && s != b && s != c && a !in L && b !in L && c !in L
    ensures ListOk(r, s, L)
  {
    forall i | 0 <= i < |L| ensures SameLinks(h, r, L[i]) {
      assert L[i] != a && L[i] != b && L[i] != c;
    }
    ListFrame(h, r, s, L);
  }

  /** Both rings are well formed, share no member, and neither holds the other's sentinel. */
  ghost predicate TwoLists(h: Heap, fl: seq<nat>, al: seq<nat>) {
    && ListOk(h, FreeBase, fl)
    && ListOk(h, AllocBase, al)
    && (forall x :: x in fl ==> x !in al)
    && AllocBase !in fl && FreeBase !in al
  }

  /** The lists of a heap in shape whose members are all blocks. */
  lemma ShapeLists(h: Heap, bs: seq<nat>, fl: seq<nat>, al: seq<nat>)
    requires Shape(h, bs, fl, al)
    requires forall x :: x in fl || x in al ==> x in bs
    ensures TwoLists(h, fl, al)
  {
    AboveSentinels(h, bs, fl, al);
  }

  /** What removeFromList and addTo*List leave alone: break, footers, bytes, size words, header slots. */
  ghost predicate LinksOnly(h: Heap, r: Heap) {
    && r.brk == h.brk && r.ftr == h.ftr && r.bytes == h.bytes
    && SameSizes(h, r)
  }

  /** Unlinking member j of the free list removes it there and leaves the allocated list alone. */
  lemma UnlinkFromFree(h: Heap, fl: seq<nat>, al: seq<nat>, j: nat)
    requires TwoLists(h, fl, al) && j < |fl|
    ensures var r := Unlink(h, fl[j]);
      && TwoLists(r, RemoveAt(fl, j), al)
      && LinksOnly(h, r) && r.hdr.Keys == h.hdr.Keys
      && Hd(r, fl[j]) == Hd(h, fl[j])
      && (forall x :: x != FreeBase && x !in fl ==> Hd(r, x) == Hd(h, x))
  {
    var r := Unlink(h, fl[j]);
    UnlinkMember(h, FreeBase, fl, j);
    var p, n := PrevIn(fl, FreeBase, j), NextIn(fl, FreeBase, j);
    assert p == FreeBase || p in fl;
    assert n == FreeBase || n in fl;
    ListUntouched(h, r, AllocBase, al, p, n, n);
    forall x ensures x in RemoveAt(fl, j) <==> x in fl && x != fl[j] {
      RemoveAtMembership(fl, j, x);
    }
  }

  /** Unlinking member i of the allocated list removes it there and leaves the free list alone. */
  lemma UnlinkFromAlloc(h: Heap, fl: seq<nat>, al: seq<nat>, i: nat)
    requires TwoLists(h, fl, al) && i < |al|
    ensures var r := Unlink(h, al[i]);
      && TwoLists(r, fl, RemoveAt(al, i))
      && LinksOnly(h, r) && r.hdr.Keys == h.hdr.Keys
      && Hd(r, al[i]) == Hd(h, al[i])
      && Spliced(r, al[i])
      && (forall x :: x != AllocBase && x !in al ==> Hd(r, x) == Hd(h, x))
  {
    var r := Unlink(h, al[i]);
    UnlinkMember(h, AllocBase, al, i);
    UnlinkTwice(h, AllocBase, al, i);
    var p, n := PrevIn(al, AllocBase, i), NextIn(al, AllocBase, i);
    assert p == AllocBase || p in al;
    assert n == AllocBase || n in al;
    ListUntouched(h, r, FreeBase, fl, p, n, n);
    forall x ensures x in RemoveAt(al, i) <==> x in al && x != al[i] {
      RemoveAtMembership(al, i, x);
    }
  }

  /** addToAllocList appends b to the allocated list and leaves the free list alone. */
  lemma LinkToAlloc(h: Heap, fl: seq<nat>, al: seq<nat>, b: nat)
    requires TwoLists(h, fl, al) && b !in fl && b !in al && b != AllocBase && b != FreeBase
    ensures var r := LinkAllocated(h, b);
      && TwoLists(r, fl, al + [b])
      && LinksOnly(h, r) && r.hdr.Keys == h.hdr.Keys + {b}
  {
    var r := LinkAllocated(h, b);
    LinkAppends(h, AllocBase, al, b);
    var t := Last(al, AllocBase);
    assert t == AllocBase || t in al;
    ListUntouched(h, r, FreeBase, fl, b, AllocBase, t);
  }

  /** addToFreeList appends b to the free list and leaves the allocated list alone. */
  lemma LinkToFree(h: Heap, fl: seq<nat>, al: seq<nat>, b: nat)
    requires TwoLists(h, fl, al) && b !in fl && b !in al && b != AllocBase && b != FreeBase
    ensures var r := LinkFree(h, b);
      && TwoLists(r, fl + [b], al)
      && LinksOnly(h, r) && r.hdr.Keys == h.hdr.Keys + {b}
  {
    var r := LinkFree(h, b);
    LinkAppends(h, FreeBase, fl, b);
    var t := Last(fl, FreeBase);
    assert t == FreeBase || t in fl;
    ListUntouched(h, r, AllocBase, al, b, FreeBase, t);
  }

  /** Writing a size word changes no link. */
  lemma SizeWriteKeepsLists(h: Heap, fl: seq<nat>, al: seq<nat>, a: nat, v: nat)
    requires TwoLists(h, fl, al)
    ensures TwoLists(SetSize(h, a, v), fl, al)
  {
    var r := SetSize(h, a, v);
    forall i | 0 <= i < |fl| ensures SameLinks(h, r, fl[i]) { }
    forall i | 0 <= i < |al| ensures SameLinks(h, r, al[i]) { }
    ListFrame(h, r, FreeBase, fl);
    ListFrame(h, r, AllocBase, al);
  }

  /** Writes that leave every prev and next word as it was, dropping no header, keep both rings. */
  lemma SameLinksKeepLists(h: Heap, r: Heap, fl: seq<nat>, al: seq<nat>)
    requires TwoLists(h, fl, al) && h.hdr.Keys <= r.hdr.Keys
    requires forall x :: Hd(r, x).prev == Hd(h, x).prev && Hd(r, x).next == Hd(h, x).next
    ensures TwoLists(r, fl, al)
  {
    forall i | 0 <= i < |fl| ensures SameLinks(h, r, fl[i]) { }
    forall i | 0 <= i < |al| ensures SameLinks(h, r, al[i]) { }
    ListFrame(h, r, FreeBase, fl);
    ListFrame(h, r, AllocBase, al);
  }

  /** Writing a footer word or moving the break changes no header. */
  lemma HeadersKeepLists(h: Heap, r: Heap, fl: seq<nat>, al: seq<nat>)
    requires TwoLists(h, fl, al) && r.hdr == h.hdr
    ensures TwoLists(r, fl, al)
  {
    forall i | 0 <= i < |fl| ensures SameLinks(h, r, fl[i]) { }
    forall i | 0 <= i < |al| ensures SameLinks(h, r, al[i]) { }
    ListFrame(h, r, FreeBase, fl);
    ListFrame(h, r, AllocBase, al);
  }

  /** No new tag appears, so no two adjacent blocks can both be tagged. */
  lemma CoalescedFrame(h: Heap, r: Heap, bs: seq<nat>)
    requires Coalesced(h, bs)
    requires forall x :: Tagged(r, x) ==> Tagged(h, x)
    ensures Coalesced(r, bs)
  {
  }

  /** Tags still agree with the lists after free-list member j loses its tag and moves to the allocated list. */
  lemma MoveToAllocTags(h: Heap, r: Heap, fl: seq<nat>, al: seq<nat>, j: nat)
    requires ListTags(h, fl, al) && j < |fl| && Distinct(fl)
    requires !Tagged(r, fl[j])
    requires forall x :: x != fl[j] ==> Hd(r, x).size == Hd(h, x).size
    ensures ListTags(r, RemoveAt(fl, j), al + [fl[j]])
  {
    var fl', al' := RemoveAt(fl, j), al + [fl[j]];
    forall i | 0 <= i < |al'| ensures !Tagged(r, al'[i]) {
      if i < |al| { assert al'[i] == al[i]; }
    }
    forall i | 0 <= i < |fl'| ensures Tagged(r, fl'[i]) {
      var k := if i < j then i else i + 1;
      assert fl'[i] == fl[k] && fl[k] != fl[j];
    }
  }

  /** Moving free-list member j to the end of the allocated list keeps every block on one list. */
  lemma MoveToAllocMembers(bs: seq<nat>, fl: seq<nat>, al: seq<nat>, j: nat)
    requires j < |fl| && Distinct(fl)
    requires forall x :: x in bs <==> x in fl || x in al
    ensures forall x :: x in bs <==> x in RemoveAt(fl, j) || x in al + [fl[j]]
  {
    forall x ensures x in RemoveAt(fl, j) <==> x in fl && x != fl[j] {
      RemoveAtMembership(fl, j, x);
    }
  }

  /** A free-list member is tagged. */
  lemma FreeMemberTagged(h: Heap, fl: seq<nat>, al: seq<nat>, b: nat)
    requires ListTags(h, fl, al) && b in fl
    ensures Tagged(h, b)
  {
    var j :| 0 <= j < |fl| && fl[j] == b;
  }

  /** An allocated-list member is untagged. */
  lemma AllocMemberUntagged(h: Heap, fl: seq<nat>, al: seq<nat>, b: nat)
    requires ListTags(h, fl, al) && b in al
    ensures !Tagged(h, b)
  {
    var i :| 0 <= i < |al| && al[i] == b;
  }

  /** The invariant, assembled from its parts. */
  lemma InvFromParts(h: Heap, bs: seq<nat>, fl: seq<nat>, al: seq<nat>)
    requires Physical(h, bs) && Coalesced(h, bs) && TwoLists(h, fl, al) && ListTags(h, fl, al)
    requires |fl| + |al| == |bs|
    requires forall x :: x in bs <==> x in fl || x in al
    ensures Inv(h, bs, fl, al)
  {
  }

  /** The in-free invariant, assembled from its parts. */
  lemma DetachedFromParts(h: Heap, bs: seq<nat>, fl: seq<nat>, al: seq<nat>, d: nat)
    requires Physical(h, bs) && Coalesced(h, bs) && TwoLists(h, fl, al) && ListTags(h, fl, al)
    requires |fl| + |al| + 1 == |bs| && d in bs && d !in fl && d !in al
    requires forall x :: x in bs <==> x in fl || x in al || x == d
    ensures Detached(h, bs, fl, al, d)
  {
  }
}
