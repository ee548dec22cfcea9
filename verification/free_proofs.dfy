/**
 * What mm_free and mm_coalesce do to the heap: the freed block leaves the
 * allocated list, swallows a free successor, is swallowed by a free
 * predecessor, and the survivor goes on the free list.
 */
module FreeProofs {
  import opened Layout
  import opened HeapState
  import opened Opt
  import opened Seqs
  import opened Lists
  import opened Navigator
  import opened Invariant
  import opened Frame
  import opened Steps

  /**
   * d is off both rings but still holds its stale links, which point at
   * allocated-list neighbours that now point at each other: unlinking d
   * again writes nothing new.
   */
  ghost predicate Unhooked(h: Heap, d: nat, al: seq<nat>) {
    && Spliced(h, d)
    && (Hd(h, d).prev == AllocBase || Hd(h, d).prev in al)
    && (Hd(h, d).next == AllocBase || Hd(h, d).next in al)
  }

  /** Tags still agree with the lists after member i leaves the allocated list, sizes untouched. */
  lemma LeaveAllocTags(h: Heap, r: Heap, fl: seq<nat>, al: seq<nat>, i: nat)
    requires ListTags(h, fl, al) && i < |al|
    requires forall x :: Hd(r, x).size == Hd(h, x).size
    ensures ListTags(r, fl, RemoveAt(al, i))
  {
    var al' := RemoveAt(al, i);
    forall k | 0 <= k < |al'| ensures !Tagged(r, al'[k]) {
      assert al'[k] == al[if k < i then k else k + 1];
    }
  }

  /** The allocated-list neighbours of member i are its neighbours in the list without it. */
  lemma AllocNeighbours(al: seq<nat>, i: nat)
    requires AllocBase !in al && Distinct(al) && i < |al|
    ensures PrevIn(al, AllocBase, i) == AllocBase || PrevIn(al, AllocBase, i) in RemoveAt(al, i)
    ensures NextIn(al, AllocBase, i) == AllocBase || NextIn(al, AllocBase, i) in RemoveAt(al, i)
  {
    var al' := RemoveAt(al, i);
    if i > 0 { assert al'[i - 1] == al[i - 1]; }
    if i + 1 < |al| { assert al'[i] == al[i + 1]; }
  }

  /**
   * mm_free's removeFromList(thisBlk): the block leaves the allocated list,
   * is on neither list afterwards, and keeps its stale links.
   */
  lemma FreeUnlinkKeeps(h: Heap, bs: seq<nat>, fl: seq<nat>, al: seq<nat>, i: nat, d: nat)
    requires Inv(h, bs, fl, al) && i < |al| && al[i] == d
    ensures var r := Unlink(h, d);
      && Detached(r, bs, fl, RemoveAt(al, i), d)
      && Unhooked(r, d, RemoveAt(al, i))
      && !Tagged(r, d)
      && r.brk == h.brk && r.bytes == h.bytes
  {
    ShapeLists(h, bs, fl, al);
    UnlinkFromAlloc(h, fl, al, i);
    PhysicalFrame(h, Unlink(h, d), bs);
    CoalescedFrame(h, Unlink(h, d), bs);
    LeaveAllocTags(h, Unlink(h, d), fl, al, i);
    AllocMemberUntagged(h, fl, al, d);
    AllocNeighbours(al, i);
    forall x ensures x in RemoveAt(al, i) <==> x in al && x != d {
      RemoveAtMembership(al, i, x);
    }
  }

  /** Absorb grows kept's payload by next's whole span and keeps kept's tag. */
  lemma AbsorbSizes(h: Heap, kept: nat, next: nat)
    ensures var r := Absorb(h, kept, next);
      && r.brk == h.brk && r.bytes == h.bytes && h.hdr.Keys <= r.hdr.Keys
      && PayloadSize(r, kept) == PayloadSize(h, kept) + Overhead + PayloadSize(h, next)
      && Tagged(r, kept) == Tagged(h, kept)
      && (forall x :: x != kept ==> Hd(r, x).size == Hd(h, x).size)
      && (forall x :: Hd(r, x).prev == Hd(h, x).prev && Hd(r, x).next == Hd(h, x).next)
  {
    UntagAddEven(Hd(h, kept).size, HeaderSize + PayloadSize(h, next) + FooterSize);
  }

  /** Absorb writes one footer word, naming kept, at the end of kept's grown payload. */
  lemma AbsorbFooter(h: Heap, kept: nat, next: nat)
    ensures var r := Absorb(h, kept, next);
      && Ft(r, FooterAddr(r, kept)) == kept
      && (forall a :: a != FooterAddr(r, kept) ==> Ft(r, a) == Ft(h, a))
  {
  }

  /** mm_coalesce is the two unlinks followed by Absorb. */
  lemma CoalesceIsAbsorb(h: Heap, kept: nat)
    requires NextPhysBlock(h, kept).Some?
    ensures var n := NextPhysBlock(h, kept).value;
      && Coalesce(h, kept).blk == kept
      && Coalesce(h, kept).heap == Absorb(Unlink(Unlink(h, kept), n), kept, n)
  {
  }

  /** After a merge of bs[k] with bs[k + 1], each remaining block still ends where the next one starts. */
  lemma MergedLink(h: Heap, r: Heap, bs: seq<nat>, k: nat, kept: nat, next: nat, m: nat)
    requires Physical(h, bs) && k + 1 < |bs| && bs[k] == kept && bs[k + 1] == next
    requires PayloadSize(r, kept) == PayloadSize(h, kept) + Overhead + PayloadSize(h, next)
    requires forall x :: x != kept ==> Hd(r, x).size == Hd(h, x).size
    requires m + 2 < |bs|
    ensures RemoveAt(bs, k + 1)[m + 1] == BlockEnd(r, RemoveAt(bs, k + 1)[m])
  {
    TilesOrdered(h, bs);
    var s := RemoveAt(bs, k + 1);
    if m < k {
      assert s[m] == bs[m] && s[m + 1] == bs[m + 1] && bs[m] != kept;
    } else if m == k {
      assert s[m] == kept && s[m + 1] == bs[k + 2];
    } else {
      assert s[m] == bs[m + 1] && s[m + 1] == bs[m + 2] && bs[m + 1] != kept;
    }
  }

  /** After a merge of bs[k] with bs[k + 1], the remaining blocks still tile the arena. */
  lemma MergedTiles(h: Heap, r: Heap, bs: seq<nat>, k: nat, kept: nat, next: nat)
    requires Physical(h, bs) && k + 1 < |bs| && bs[k] == kept && bs[k + 1] == next
    requires r.brk == h.brk
    requires PayloadSize(r, kept) == PayloadSize(h, kept) + Overhead + PayloadSize(h, next)
    requires forall x :: x != kept ==> Hd(r, x).size == Hd(h, x).size
    ensures Tiles(r, RemoveAt(bs, k + 1))
    ensures BlockEnd(r, kept) == BlockEnd(h, next)
  {
    var s := RemoveAt(bs, k + 1);
    forall m | 0 <= m < |s| - 1 ensures s[m + 1] == BlockEnd(r, s[m]) {
      MergedLink(h, r, bs, k, kept, next, m);
    }
    assert s[0] == EndOfPrologue by { assert s[0] == bs[0]; }
    MergedLast(h, r, bs, k, kept, next);
  }

  /** After a merge, the last remaining block still ends at the break. */
  lemma MergedLast(h: Heap, r: Heap, bs: seq<nat>, k: nat, kept: nat, next: nat)
    requires Physical(h, bs) && k + 1 < |bs| && bs[k] == kept && bs[k + 1] == next
    requires r.brk == h.brk
    requires PayloadSize(r, kept) == PayloadSize(h, kept) + Overhead + PayloadSize(h, next)
    requires forall x :: x != kept ==> Hd(r, x).size == Hd(h, x).size
    ensures BlockEnd(r, RemoveAt(bs, k + 1)[|bs| - 2]) == r.brk
    ensures BlockEnd(r, kept) == BlockEnd(h, next)
  {
    TilesOrdered(h, bs);
    var s := RemoveAt(bs, k + 1);
    if k + 2 < |bs| {
      assert s[|s| - 1] == bs[|bs| - 1] && bs[|bs| - 1] != kept;
    } else {
      assert s[|s| - 1] == kept;
    }
  }

  /** A block other than the two merged ones keeps its footer word. */
  lemma MergeUntouchedFooter(h: Heap, r: Heap, bs: seq<nat>, k: nat, kept: nat, next: nat, m: nat)
    requires Physical(h, bs) && k + 1 < |bs| && bs[k] == kept && bs[k + 1] == next
    requires m < |bs| && m != k && m != k + 1
    requires FooterAddr(r, kept) == FooterAddr(h, next)
    requires forall x :: x != kept ==> Hd(r, x).size == Hd(h, x).size
    requires forall a :: a != FooterAddr(r, kept) ==> Ft(r, a) == Ft(h, a)
    ensures Ft(r, FooterAddr(r, bs[m])) == bs[m]
  {
    TilesOrdered(h, bs);
    var x := bs[m];
    assert x != kept && x != next;
    assert FooterAddr(r, x) == FooterAddr(h, x);
    assert BlockEnd(h, x) <= kept || x >= BlockEnd(h, next);
  }

  /** After a merge, every remaining block's footer names its header. */
  lemma MergedFooters(h: Heap, r: Heap, bs: seq<nat>, k: nat, kept: nat, next: nat)
    requires Physical(h, bs) && k + 1 < |bs| && bs[k] == kept && bs[k + 1] == next
    requires FooterAddr(r, kept) == FooterAddr(h, next)
    requires forall x :: x != kept ==> Hd(r, x).size == Hd(h, x).size
    requires Ft(r, FooterAddr(r, kept)) == kept
    requires forall a :: a != FooterAddr(r, kept) ==> Ft(r, a) == Ft(h, a)
    ensures var s := RemoveAt(bs, k + 1);
      forall m :: 0 <= m < |s| ==> Ft(r, FooterAddr(r, s[m])) == s[m]
  {
    var s := RemoveAt(bs, k + 1);
    forall m | 0 <= m < |s| ensures Ft(r, FooterAddr(r, s[m])) == s[m] {
      if m != k {
        var m' := if m < k then m else m + 1;
        assert s[m] == bs[m'];
        MergeUntouchedFooter(h, r, bs, k, kept, next, m');
      }
    }
  }

  /** After a merge, every remaining block has a header and an aligned payload. */
  lemma MergedAligned(h: Heap, r: Heap, bs: seq<nat>, k: nat, kept: nat, next: nat)
    requires Physical(h, bs) && k + 1 < |bs| && bs[k] == kept && bs[k + 1] == next
    requires h.hdr.Keys <= r.hdr.Keys
    requires PayloadSize(r, kept) == PayloadSize(h, kept) + Overhead + PayloadSize(h, next)
    requires forall x :: x != kept ==> Hd(r, x).size == Hd(h, x).size
    ensures var s := RemoveAt(bs, k + 1);
      && (forall m :: 0 <= m < |s| ==> s[m] in r.hdr)
      && (forall m :: 0 <= m < |s| ==> Aligned(PayloadSize(r, s[m])))
  {
    AlignedAdd(PayloadSize(h, kept), Overhead);
    AlignedAdd(PayloadSize(h, kept) + Overhead, PayloadSize(h, next));
    var s := RemoveAt(bs, k + 1);
    forall m | 0 <= m < |s| ensures s[m] in r.hdr && Aligned(PayloadSize(r, s[m])) {
      assert s[m] == bs[if m <= k then m else m + 1];
    }
  }

  /** The layout after a merge of bs[k] with bs[k + 1]: one block fewer, the merged one ending where next did. */
  lemma MergedPhysical(h: Heap, r: Heap, bs: seq<nat>, k: nat, kept: nat, next: nat)
    requires Physical(h, bs) && k + 1 < |bs| && bs[k] == kept && bs[k + 1] == next
    requires r.brk == h.brk && h.hdr.Keys <= r.hdr.Keys
    requires PayloadSize(r, kept) == PayloadSize(h, kept) + Overhead + PayloadSize(h, next)
    requires forall x :: x != kept ==> Hd(r, x).size == Hd(h, x).size
    requires Ft(r, FooterAddr(r, kept)) == kept
    requires forall a :: a != FooterAddr(r, kept) ==> Ft(r, a) == Ft(h, a)
    ensures Physical(r, RemoveAt(bs, k + 1))
    ensures BlockEnd(r, kept) == BlockEnd(h, next)
  {
    MergedTiles(h, r, bs, k, kept, next);
    MergedFooters(h, r, bs, k, kept, next);
    MergedAligned(h, r, bs, k, kept, next);
  }

  /**
   * After a merge of bs[k] with bs[k + 1], no two neighbours are both tagged,
   * given that a tagged survivor has untagged neighbours.
   */
  lemma MergedCoalesced(h: Heap, r: Heap, bs: seq<nat>, k: nat, kept: nat)
    requires Coalesced(h, bs) && Distinct(bs) && k + 1 < |bs| && bs[k] == kept
    requires forall x :: x != kept ==> Tagged(r, x) == Tagged(h, x)
    requires Tagged(r, kept) && k > 0 ==> !Tagged(h, bs[k - 1])
    requires Tagged(r, kept) && k + 2 < |bs| ==> !Tagged(h, bs[k + 2])
    ensures Coalesced(r, RemoveAt(bs, k + 1))
  {
    var s := RemoveAt(bs, k + 1);
    forall m | 0 <= m < |s| - 1 ensures !(Tagged(r, s[m]) && Tagged(r, s[m + 1])) {
      if m + 1 < k {
        assert s[m] == bs[m] && s[m + 1] == bs[m + 1] && bs[m] != kept && bs[m + 1] != kept;
      } else if m + 1 == k {
        assert s[m] == bs[k - 1] && s[m + 1] == kept && bs[k - 1] != kept;
      } else if m == k {
        assert s[m] == kept && s[m + 1] == bs[k + 2] && bs[k + 2] != kept;
      } else {
        assert s[m] == bs[m + 1] && s[m + 1] == bs[m + 2] && bs[m + 1] != kept && bs[m + 2] != kept;
      }
    }
  }

  /** Tags still agree with the lists when only kept's size changed and kept is on neither list. */
  lemma MergedTags(h: Heap, r: Heap, fl: seq<nat>, al: seq<nat>, fl2: seq<nat>, kept: nat)
    requires ListTags(h, fl, al) && kept !in al
    requires forall x :: x in fl2 ==> x in fl && x != kept
    requires forall x :: x != kept ==> Hd(r, x).size == Hd(h, x).size
    ensures ListTags(r, fl2, al)
  {
    forall i | 0 <= i < |al| ensures !Tagged(r, al[i]) {
      assert al[i] != kept;
    }
    forall i | 0 <= i < |fl2| ensures Tagged(r, fl2[i]) {
      FreeMemberTagged(h, fl, al, fl2[i]);
    }
  }

  /** Unlinking a free-list block leaves a block unhooked from the allocated list unhooked. */
  lemma UnhookedFrame(h: Heap, fl: seq<nat>, al: seq<nat>, j: nat, d: nat)
    requires TwoLists(h, fl, al) && j < |fl|
    requires Unhooked(h, d, al) && d !in fl && d != FreeBase
    ensures Unhooked(Unlink(h, fl[j]), d, al)
  {
    UnlinkFromFree(h, fl, al, j);
  }

  /** The footer of the merged block lands where the absorbed block's footer was. */
  lemma AbsorbFooterAddr(h: Heap, kept: nat, next: nat)
    requires next == BlockEnd(h, kept)
    ensures FooterAddr(Absorb(h, kept, next), kept) == FooterAddr(h, next)
  {
    AbsorbSizes(h, kept, next);
  }

  /** Unlinking a free neighbour nb of d: the layout stands, nb leaves the free list, d stays unhooked. */
  lemma UnlinkFreeNeighbour(h: Heap, bs: seq<nat>, fl: seq<nat>, al: seq<nat>, j: nat, d: nat, nb: nat)
    requires Detached(h, bs, fl, al, d) && Unhooked(h, d, al) && j < |fl| && fl[j] == nb
    ensures var r := Unlink(h, nb);
      && Physical(r, bs)
      && TwoLists(r, RemoveAt(fl, j), al)
      && Unhooked(r, d, al)
      && LinksOnly(h, r)
  {
    ShapeLists(h, bs, fl, al);
    AboveSentinels(h, bs, fl, al);
    UnlinkFromFree(h, fl, al, j);
    UnhookedFrame(h, fl, al, j, d);
    PhysicalFrame(h, Unlink(h, nb), bs);
  }

  /** Absorbing bs[k + 1] into bs[k]: one block fewer, no link touched. */
  lemma AbsorbSuccessor(h: Heap, bs: seq<nat>, fl: seq<nat>, al: seq<nat>, k: nat, kept: nat, next: nat)
    requires Physical(h, bs) && TwoLists(h, fl, al)
    requires k + 1 < |bs| && bs[k] == kept && bs[k + 1] == next
    ensures var r := Absorb(h, kept, next);
      && Physical(r, RemoveAt(bs, k + 1))
      && BlockEnd(r, kept) == BlockEnd(h, next)
      && TwoLists(r, fl, al)
  {
    AbsorbSizes(h, kept, next);
    AbsorbFooter(h, kept, next);
    AbsorbFooterAddr(h, kept, next);
    MergedPhysical(h, Absorb(h, kept, next), bs, k, kept, next);
    SameLinksKeepLists(h, Absorb(h, kept, next), fl, al);
  }

  /** Absorb writes no link, so an unhooked block stays unhooked. */
  lemma AbsorbKeepsUnhooked(h: Heap, kept: nat, next: nat, d: nat, al: seq<nat>)
    requires Unhooked(h, d, al)
    ensures Unhooked(Absorb(h, kept, next), d, al)
  {
    AbsorbSizes(h, kept, next);
  }

  /** The layout and lists after d swallows its free successor n (free-list member jn). */
  lemma ForwardMergeLayout(h: Heap, bs: seq<nat>, fl: seq<nat>, al: seq<nat>, k: nat, jn: nat, d: nat, n: nat)
    requires Detached(h, bs, fl, al, d) && Unhooked(h, d, al)
    requires k + 1 < |bs| && bs[k] == d && bs[k + 1] == n && jn < |fl| && fl[jn] == n
    ensures var r := Absorb(Unlink(h, n), d, n);
      && Physical(r, RemoveAt(bs, k + 1))
      && BlockEnd(r, d) == BlockEnd(h, n)
      && TwoLists(r, RemoveAt(fl, jn), al)
      && Unhooked(r, d, al)
  {
    UnlinkFreeNeighbour(h, bs, fl, al, jn, d, n);
    AbsorbSuccessor(Unlink(h, n), bs, RemoveAt(fl, jn), al, k, d, n);
    AbsorbKeepsUnhooked(Unlink(h, n), d, n, d, al);
  }

  /** The size words after u is unlinked and kept swallows next: only kept's changes, and kept keeps its tag. */
  lemma MergeSizes(h: Heap, u: nat, kept: nat, next: nat)
    ensures var r := Absorb(Unlink(h, u), kept, next);
      && Tagged(r, kept) == Tagged(h, kept)
      && PayloadSize(r, kept) == PayloadSize(h, kept) + Overhead + PayloadSize(h, next)
      && (forall x :: x != kept ==> Hd(r, x).size == Hd(h, x).size)
      && r.brk == h.brk && r.bytes == h.bytes
  {
    AbsorbSizes(Unlink(h, u), kept, next);
  }

  /** Whatever heap r the merge of d with n produced, the in-free invariant holds with n gone. */
  lemma MergeNextResult(h: Heap, r: Heap, bs: seq<nat>, fl: seq<nat>, al: seq<nat>, k: nat, jn: nat, d: nat, n: nat)
    requires Detached(h, bs, fl, al, d) && !Tagged(h, d) && Tagged(h, n)
    requires k + 1 < |bs| && bs[k] == d && bs[k + 1] == n && jn < |fl| && fl[jn] == n
    requires Physical(r, RemoveAt(bs, k + 1)) && TwoLists(r, RemoveAt(fl, jn), al)
    requires Tagged(r, d) == Tagged(h, d)
    requires forall x :: x != d ==> Hd(r, x).size == Hd(h, x).size
    ensures Detached(r, RemoveAt(bs, k + 1), RemoveAt(fl, jn), al, d)
    ensures k + 2 < |bs| ==> !Tagged(r, bs[k + 2])
  {
    TilesOrdered(h, bs);
    MergeNextCounts(bs, fl, al, k, jn, d, n);
    var fl' := RemoveAt(fl, jn);
    forall x ensures x in fl' ==> x in fl && x != d {
      RemoveAtMembership(fl, jn, x);
    }
    MergedCoalesced(h, r, bs, k, d);
    MergedTags(h, r, fl, al, fl', d);
    DetachedFromParts(r, RemoveAt(bs, k + 1), fl', al, d);
    if k + 2 < |bs| {
      assert bs[k + 2] != d;
    }
  }

  /** Dropping n from both the blocks and the free list leaves d the one block on neither list. */
  lemma MergeNextCounts(bs: seq<nat>, fl: seq<nat>, al: seq<nat>, k: nat, jn: nat, d: nat, n: nat)
    requires |fl| + |al| + 1 == |bs| && d !in fl && d !in al
    requires forall x :: x in bs <==> x in fl || x in al || x == d
    requires forall x :: x in fl ==> x !in al
    requires Distinct(bs) && Distinct(fl)
    requires k + 1 < |bs| && bs[k] == d && bs[k + 1] == n && jn < |fl| && fl[jn] == n
    ensures var bs', fl' := RemoveAt(bs, k + 1), RemoveAt(fl, jn);
      && |fl'| + |al| + 1 == |bs'| && d in bs' && d !in fl'
      && forall x :: x in bs' <==> x in fl' || x in al || x == d
  {
    var bs', fl' := RemoveAt(bs, k + 1), RemoveAt(fl, jn);
    forall x ensures x in bs' <==> x in bs && x != n {
      RemoveAtMembership(bs, k + 1, x);
    }
    forall x ensures x in fl' <==> x in fl && x != n {
      RemoveAtMembership(fl, jn, x);
    }
    assert d == bs'[k];
    assert n in fl && n !in al;
  }

  /** When d's successor n is tagged free, mm_free's forward step is the merge of n into d. */
  lemma ForwardMergeStep(h: Heap, d: nat, n: nat)
    requires Spliced(h, d) && NextPhysBlock(h, d) == Some(n) && Tagged(h, n)
    ensures FreeForward(h, d) == BlockStep(Absorb(Unlink(h, n), d, n), d)
  {
    CoalesceIsAbsorb(h, d);
    UnlinkSplicedIsNoop(h, d);
  }

  /** A tagged block on neither the allocated list nor d is on the free list. */
  lemma TaggedIsFreeMember(h: Heap, bs: seq<nat>, fl: seq<nat>, al: seq<nat>, d: nat, n: nat)
    requires Detached(h, bs, fl, al, d) && n in bs && n != d && Tagged(h, n)
    ensures n in fl
  {
    if n in al {
      AllocMemberUntagged(h, fl, al, n);
    }
  }

  /** Dropping bs[k + 1] from the blocks removes exactly the block start inside the merged span. */
  lemma MergedMembers(h: Heap, bs: seq<nat>, k: nat, d: nat, n: nat)
    requires Physical(h, bs) && k + 1 < |bs| && bs[k] == d && bs[k + 1] == n
    ensures forall x :: x in RemoveAt(bs, k + 1) <==> x in bs && !(d < x < BlockEnd(h, n))
  {
    TilesOrdered(h, bs);
    forall x ensures x in RemoveAt(bs, k + 1) <==> x in bs && !(d < x < BlockEnd(h, n)) {
      RemoveAtMembership(bs, k + 1, x);
      if x in bs && x != n {
        var m :| 0 <= m < |bs| && bs[m] == x;
        assert m <= k || m >= k + 2;
      }
    }
  }

  /** The merge branch of mm_free's forward step, stated on the merged heap. */
  lemma ForwardMergeCase(h: Heap, bs: seq<nat>, fl: seq<nat>, al: seq<nat>, k: nat, d: nat, n: nat)
    returns (bs2: seq<nat>, fl2: seq<nat>)
    requires Detached(h, bs, fl, al, d) && Unhooked(h, d, al) && !Tagged(h, d)
    requires k + 1 < |bs| && bs[k] == d && bs[k + 1] == n && Tagged(h, n)
    ensures var r := Absorb(Unlink(h, n), d, n);
      && Detached(r, bs2, fl2, al, d) && Unhooked(r, d, al) && !Tagged(r, d)
      && k < |bs2| && bs2[k] == d
      && (k + 1 < |bs2| ==> !Tagged(r, bs2[k + 1]))
      && r.brk == h.brk && r.bytes == h.bytes
      && BlockEnd(r, d) == BlockEnd(h, n)
      && (forall x :: x in bs2 <==> x in bs && !(d < x < BlockEnd(h, n)))
      && (forall x :: x in fl2 <==> x in fl && x != n)
  {
    TaggedIsFreeMember(h, bs, fl, al, d, n);
    var jn := IndexOf(fl, n);
    ForwardMergeLayout(h, bs, fl, al, k, jn, d, n);
    MergeSizes(h, n, d, n);
    MergeNextResult(h, Absorb(Unlink(h, n), d, n), bs, fl, al, k, jn, d, n);
    MergedMembers(h, bs, k, d, n);
    bs2, fl2 := RemoveAt(bs, k + 1), RemoveAt(fl, jn);
    if k + 1 < |bs2| {
      assert bs2[k + 1] == bs[k + 2];
    }
    forall x ensures x in fl2 <==> x in fl && x != n {
      RemoveAtMembership(fl, jn, x);
    }
  }

  /**
   * mm_free's first coalescing step on the detached block d = bs[k]: it
   * swallows its successor when that is tagged free; either way d keeps its
   * place, the in-free invariant holds, and the block after d is untagged.
   */
  lemma ForwardKeeps(h: Heap, bs: seq<nat>, fl: seq<nat>, al: seq<nat>, k: nat, d: nat)
    returns (bs2: seq<nat>, fl2: seq<nat>)
    requires Detached(h, bs, fl, al, d) && Unhooked(h, d, al) && !Tagged(h, d)
    requires k < |bs| && bs[k] == d
    ensures FreeForward(h, d).blk == d
    ensures Detached(FreeForward(h, d).heap, bs2, fl2, al, d)
    ensures Unhooked(FreeForward(h, d).heap, d, al) && !Tagged(FreeForward(h, d).heap, d)
    ensures k < |bs2| && bs2[k] == d
    ensures k + 1 < |bs2| ==> !Tagged(FreeForward(h, d).heap, bs2[k + 1])
    ensures FreeForward(h, d).heap.brk == h.brk && FreeForward(h, d).heap.bytes == h.bytes
    ensures BlockEnd(h, d) <= BlockEnd(FreeForward(h, d).heap, d)
    ensures forall x :: x in bs2 <==> x in bs && !(d < x < BlockEnd(FreeForward(h, d).heap, d))
    ensures forall x :: x in fl2 <==> x in fl && x in bs2
  {
    NextPhysIsSuccessor(h, bs, k);
    if k + 1 < |bs| && Tagged(h, bs[k + 1]) {
      var n := bs[k + 1];
      ForwardMergeStep(h, d, n);
      bs2, fl2 := ForwardMergeCase(h, bs, fl, al, k, d, n);
    } else {
      TilesOrdered(h, bs);
      bs2, fl2 := bs, fl;
    }
  }

  /** Whatever heap r the merge of d into its free predecessor p produced, the in-free invariant holds with p detached. */
  lemma MergePrevResult(h: Heap, r: Heap, bs: seq<nat>, fl: seq<nat>, al: seq<nat>, k: nat, jp: nat, d: nat, p: nat)
    requires Detached(h, bs, fl, al, d) && !Tagged(h, d) && Tagged(h, p)
    requires 0 < k < |bs| && bs[k - 1] == p && bs[k] == d && jp < |fl| && fl[jp] == p
    requires k + 1 < |bs| ==> !Tagged(h, bs[k + 1])
    requires Physical(r, RemoveAt(bs, k)) && TwoLists(r, RemoveAt(fl, jp), al)
    requires Tagged(r, p)
    requires forall x :: x != p ==> Hd(r, x).size == Hd(h, x).size
    ensures Detached(r, RemoveAt(bs, k), RemoveAt(fl, jp), al, p)
  {
    TilesOrdered(h, bs);
    MergePrevCounts(bs, fl, al, k, jp, d, p);
    var fl' := RemoveAt(fl, jp);
    forall x ensures x in fl' ==> x in fl && x != p {
      RemoveAtMembership(fl, jp, x);
    }
    MergePrevCoalesced(h, r, bs, k, p);
    MergedTags(h, r, fl, al, fl', p);
    DetachedFromParts(r, RemoveAt(bs, k), fl', al, p);
  }

  /** d's predecessor p swallowing d leaves no two tagged blocks side by side. */
  lemma MergePrevCoalesced(h: Heap, r: Heap, bs: seq<nat>, k: nat, p: nat)
    requires Coalesced(h, bs) && Distinct(bs) && Tagged(h, p)
    requires 0 < k < |bs| && bs[k - 1] == p
    requires k + 1 < |bs| ==> !Tagged(h, bs[k + 1])
    requires forall x :: x != p ==> Hd(r, x).size == Hd(h, x).size
    ensures Coalesced(r, RemoveAt(bs, k))
  {
    MergePrevNeighbours(h, r, bs, k, p);
    MergedCoalesced(h, r, bs, k - 1, p);
  }

  /** Dropping d from the blocks and p from the free list leaves p as the one block on neither list. */
  lemma MergePrevCounts(bs: seq<nat>, fl: seq<nat>, al: seq<nat>, k: nat, jp: nat, d: nat, p: nat)
    requires |fl| + |al| + 1 == |bs| && d !in fl && d !in al
    requires forall x :: x in bs <==> x in fl || x in al || x == d
    requires forall x :: x in fl ==> x !in al
    requires Distinct(bs) && Distinct(fl)
    requires 0 < k < |bs| && bs[k - 1] == p && bs[k] == d && jp < |fl| && fl[jp] == p
    ensures var bs', fl' := RemoveAt(bs, k), RemoveAt(fl, jp);
      && |fl'| + |al| + 1 == |bs'| && p in bs' && p !in fl' && p !in al
      && forall x :: x in bs' <==> x in fl' || x in al || x == p
  {
    var bs', fl' := RemoveAt(bs, k), RemoveAt(fl, jp);
    forall x ensures x in bs' <==> x in bs && x != d {
      RemoveAtMembership(bs, k, x);
    }
    forall x ensures x in fl' <==> x in fl && x != p {
      RemoveAtMembership(fl, jp, x);
    }
    assert p == bs'[k - 1];
  }

  /** The blocks on either side of the merged p are untagged. */
  lemma MergePrevNeighbours(h: Heap, r: Heap, bs: seq<nat>, k: nat, p: nat)
    requires Coalesced(h, bs) && Distinct(bs) && Tagged(h, p)
    requires 0 < k < |bs| && bs[k - 1] == p
    requires k + 1 < |bs| ==> !Tagged(h, bs[k + 1])
    requires forall x :: x != p ==> Hd(r, x).size == Hd(h, x).size
    ensures k > 1 ==> !Tagged(h, bs[k - 2]) && !Tagged(r, bs[k - 2])
    ensures k + 1 < |bs| ==> !Tagged(r, bs[k + 1])
  {
    if k > 1 {
      var i := k - 2;
      assert bs[i + 1] == p && bs[i] != p;
    }
    if k + 1 < |bs| {
      assert bs[k + 1] != p;
    }
  }

  /** The layout and lists after d's free predecessor p (free-list member jp) swallows d. */
  lemma BackwardMergeLayout(h: Heap, bs: seq<nat>, fl: seq<nat>, al: seq<nat>, k: nat, jp: nat, d: nat, p: nat)
    requires Detached(h, bs, fl, al, d) && Unhooked(h, d, al)
    requires 0 < k < |bs| && bs[k - 1] == p && bs[k] == d && jp < |fl| && fl[jp] == p
    ensures Spliced(Unlink(h, p), d)
    ensures var r := Absorb(Unlink(h, p), p, d);
      && Physical(r, RemoveAt(bs, k))
      && BlockEnd(r, p) == BlockEnd(h, d)
      && TwoLists(r, RemoveAt(fl, jp), al)
  {
    UnlinkFreeNeighbour(h, bs, fl, al, jp, d, p);
    AbsorbSuccessor(Unlink(h, p), bs, RemoveAt(fl, jp), al, k - 1, p, d);
  }

  /**
   * When d's predecessor p is tagged free, mm_free's backward step may call
   * mm_coalesce on p, and that is p's unlink followed by the merge (d's own
   * unlink writes nothing, d being already spliced out).
   */
  lemma BackwardMergeStep(h: Heap, d: nat, p: nat)
    requires PrevPhysBlock(h, d) == Some(p) && NextPhysBlock(h, p) == Some(d) && Tagged(h, p)
    requires Spliced(Unlink(h, p), d)
    ensures BackwardMergeable(BlockStep(h, d))
    ensures BackwardSafe(BlockStep(h, d))
    ensures FreeBackward(BlockStep(h, d)) == BlockStep(Absorb(Unlink(h, p), p, d), p)
  {
    CoalesceIsAbsorb(h, p);
    UnlinkSplicedIsNoop(Unlink(h, p), d);
  }

  /** After p swallows d = bs[k], the blocks now on either side of p are untagged. */
  lemma BackwardNeighbours(h: Heap, bs: seq<nat>, k: nat, d: nat, p: nat)
    requires Coalesced(h, bs) && Distinct(bs) && Tagged(h, p)
    requires 0 < k < |bs| && bs[k - 1] == p
    requires k + 1 < |bs| ==> !Tagged(h, bs[k + 1])
    ensures var r, bs3 := Absorb(Unlink(h, p), p, d), RemoveAt(bs, k);
      && (k > 1 ==> !Tagged(r, bs3[k - 2]))
      && (k < |bs3| ==> !Tagged(r, bs3[k]))
  {
    MergeSizes(h, p, p, d);
    MergePrevNeighbours(h, Absorb(Unlink(h, p), p, d), bs, k, p);
  }

  /** The merge branch of mm_free's backward step, stated on the merged heap. */
  lemma BackwardMergeCase(h: Heap, bs: seq<nat>, fl: seq<nat>, al: seq<nat>, k: nat, d: nat, p: nat)
    returns (bs3: seq<nat>, fl3: seq<nat>)
    requires Detached(h, bs, fl, al, d) && Unhooked(h, d, al) && !Tagged(h, d)
    requires 0 < k < |bs| && bs[k - 1] == p && bs[k] == d && Tagged(h, p)
    requires k + 1 < |bs| ==> !Tagged(h, bs[k + 1])
    ensures Spliced(Unlink(h, p), d)
    ensures var r := Absorb(Unlink(h, p), p, d);
      && Detached(r, bs3, fl3, al, p)
      && k - 1 < |bs3| && bs3[k - 1] == p
      && (k > 1 ==> !Tagged(r, bs3[k - 2]))
      && (k < |bs3| ==> !Tagged(r, bs3[k]))
      && Tagged(r, p) && PayloadSize(r, p) != 0
      && r.brk == h.brk && r.bytes == h.bytes
      && BlockEnd(r, p) == BlockEnd(h, d)
      && (forall x :: x in bs3 <==> x in bs && !(p < x < BlockEnd(h, d)))
      && (forall x :: x in fl3 <==> x in fl && x != p)
  {
    TaggedIsFreeMember(h, bs, fl, al, d, p);
    var jp := IndexOf(fl, p);
    BackwardMergeLayout(h, bs, fl, al, k, jp, d, p);
    MergeSizes(h, p, p, d);
    TilesOrdered(h, bs);
    MergePrevResult(h, Absorb(Unlink(h, p), p, d), bs, fl, al, k, jp, d, p);
    BackwardNeighbours(h, bs, k, d, p);
    MergedMembers(h, bs, k - 1, p, d);
    bs3, fl3 := RemoveAt(bs, k), RemoveAt(fl, jp);
    forall x ensures x in fl3 <==> x in fl && x != p {
      RemoveAtMembership(fl, jp, x);
    }
  }

  /**
   * What mm_free's second coalescing step leaves: the survivor m (bs3[km])
   * is detached with untagged neighbours on both sides, is d or d's
   * predecessor, and ends where d ended; the blocks inside its span and m
   * itself are gone from the block order and the free list respectively.
   */
  ghost predicate BackwardOutcome(h: Heap, bs: seq<nat>, fl: seq<nat>, al: seq<nat>, d: nat,
                                  bs3: seq<nat>, fl3: seq<nat>, km: nat, m: nat) {
    && BackwardSafe(BlockStep(h, d))
    && var r := FreeBackward(BlockStep(h, d)).heap;
    && FreeBackward(BlockStep(h, d)).blk == m
    && Detached(r, bs3, fl3, al, m)
    && km < |bs3| && bs3[km] == m
    && (km > 0 ==> !Tagged(r, bs3[km - 1]))
    && (km + 1 < |bs3| ==> !Tagged(r, bs3[km + 1]))
    && (Tagged(r, m) ==> PayloadSize(r, m) != 0)
    && r.brk == h.brk && r.bytes == h.bytes
    && m <= d && BlockEnd(r, m) == BlockEnd(h, d)
    && (forall x :: x in bs3 <==> x in bs && !(m < x < BlockEnd(h, d)))
    && (forall x :: x in fl3 <==> x in fl && x != m)
  }

  /**
   * mm_free's second coalescing step on the detached block d = bs[k], whose
   * successor is untagged: d is swallowed by its predecessor when that is
   * tagged free.
   */
  lemma BackwardKeeps(h: Heap, bs: seq<nat>, fl: seq<nat>, al: seq<nat>, k: nat, d: nat)
    returns (bs3: seq<nat>, fl3: seq<nat>, km: nat, m: nat)
    requires Detached(h, bs, fl, al, d) && Unhooked(h, d, al) && !Tagged(h, d)
    requires k < |bs| && bs[k] == d
    requires k + 1 < |bs| ==> !Tagged(h, bs[k + 1])
    ensures BackwardOutcome(h, bs, fl, al, d, bs3, fl3, km, m)
  {
    if k > 0 && Tagged(h, bs[k - 1]) {
      bs3, fl3, km, m := BackwardMergeBranch(h, bs, fl, al, k, d);
    } else {
      BackwardStayBranch(h, bs, fl, al, k, d);
      bs3, fl3, km, m := bs, fl, k, d;
    }
  }

  /** BackwardKeeps when d's predecessor is tagged free: the predecessor survives. */
  lemma BackwardMergeBranch(h: Heap, bs: seq<nat>, fl: seq<nat>, al: seq<nat>, k: nat, d: nat)
    returns (bs3: seq<nat>, fl3: seq<nat>, km: nat, m: nat)
    requires Detached(h, bs, fl, al, d) && Unhooked(h, d, al) && !Tagged(h, d)
    requires k < |bs| && bs[k] == d
    requires k + 1 < |bs| ==> !Tagged(h, bs[k + 1])
    requires k > 0 && Tagged(h, bs[k - 1])
    ensures BackwardOutcome(h, bs, fl, al, d, bs3, fl3, km, m)
  {
    PrevPhysIsPredecessor(h, bs, k);
    TilesOrdered(h, bs);
    var p := bs[k - 1];
    NextPhysIsSuccessor(h, bs, k - 1);
    bs3, fl3 := BackwardMergeCase(h, bs, fl, al, k, d, p);
    BackwardMergeStep(h, d, p);
    km, m := k - 1, p;
  }

  /** BackwardKeeps when d's predecessor is not tagged free: d itself survives, untouched. */
  lemma BackwardStayBranch(h: Heap, bs: seq<nat>, fl: seq<nat>, al: seq<nat>, k: nat, d: nat)
    requires Detached(h, bs, fl, al, d) && !Tagged(h, d)
    requires k < |bs| && bs[k] == d
    requires k + 1 < |bs| ==> !Tagged(h, bs[k + 1])
    requires !(k > 0 && Tagged(h, bs[k - 1]))
    ensures BackwardOutcome(h, bs, fl, al, d, bs, fl, k, d)
  {
    BackwardStays(h, bs, k, d);
  }

  /** When d's predecessor is not tagged free, mm_free's backward step changes nothing. */
  lemma BackwardStays(h: Heap, bs: seq<nat>, k: nat, d: nat)
    requires Physical(h, bs) && k < |bs| && bs[k] == d
    requires !(k > 0 && Tagged(h, bs[k - 1]))
    ensures BackwardSafe(BlockStep(h, d))
    ensures FreeBackward(BlockStep(h, d)) == BlockStep(h, d)
    ensures forall x :: x in bs ==> !(d < x < BlockEnd(h, d))
  {
    PrevPhysIsPredecessor(h, bs, k);
    TilesOrdered(h, bs);
    forall x | x in bs ensures !(d < x < BlockEnd(h, d)) {
      var j :| 0 <= j < |bs| && bs[j] == x;
      assert j <= k || j > k;
    }
  }

  /** mm_free's relink writes: only m's size word may change, its payload stays, and it ends up tagged. */
  lemma RelinkWords(h: Heap, m: nat)
    ensures var r := FreeRelink(BlockStep(h, m));
      && r.brk == h.brk && r.ftr == h.ftr && r.bytes == h.bytes
      && h.hdr.Keys <= r.hdr.Keys
      && (forall x :: x != m ==> Hd(r, x).size == Hd(h, x).size)
      && PayloadSize(r, m) == PayloadSize(h, m)
      && Tagged(r, m)
  {
  }

  /** mm_free's relink keeps both rings well formed, with m appended to the free list. */
  lemma RelinkLists(h: Heap, bs: seq<nat>, fl: seq<nat>, al: seq<nat>, m: nat)
    requires Detached(h, bs, fl, al, m)
    ensures TwoLists(FreeRelink(BlockStep(h, m)), fl + [m], al)
  {
    ShapeLists(h, bs, fl, al);
    AboveSentinels(h, bs, fl, al);
    LinkToFree(h, fl, al, m);
    var h1 := LinkFree(h, m);
    SizeWriteKeepsLists(h1, fl + [m], al, m, Tag(Hd(h1, m).size));
  }

  /** Whatever heap r the relink produced, the heap invariant holds again with m last on the free list. */
  lemma RelinkResult(h: Heap, r: Heap, bs: seq<nat>, fl: seq<nat>, al: seq<nat>, k: nat, m: nat)
    requires Detached(h, bs, fl, al, m) && k < |bs| && bs[k] == m
    requires k > 0 ==> !Tagged(h, bs[k - 1])
    requires k + 1 < |bs| ==> !Tagged(h, bs[k + 1])
    requires TwoLists(r, fl + [m], al)
    requires r.brk == h.brk && r.ftr == h.ftr && h.hdr.Keys <= r.hdr.Keys
    requires forall x :: x != m ==> Hd(r, x).size == Hd(h, x).size
    requires PayloadSize(r, m) == PayloadSize(h, m)
    requires Tagged(r, m)
    ensures Inv(r, bs, fl + [m], al)
  {
    TilesOrdered(h, bs);
    PhysicalFrame(h, r, bs);
    forall i | 0 <= i < |bs| - 1 ensures !(Tagged(r, bs[i]) && Tagged(r, bs[i + 1])) {
      if bs[i] != m && bs[i + 1] != m {
        assert !(Tagged(h, bs[i]) && Tagged(h, bs[i + 1]));
      } else if bs[i] == m {
        assert i == k;
      } else {
        assert i + 1 == k;
      }
    }
    var fl' := fl + [m];
    forall i | 0 <= i < |al| ensures !Tagged(r, al[i]) {
      assert al[i] != m;
    }
    forall i | 0 <= i < |fl'| ensures Tagged(r, fl'[i]) {
      if i < |fl| {
        assert fl'[i] == fl[i] && fl[i] != m;
      }
    }
    InvFromParts(r, bs, fl', al);
  }

  /**
   * mm_free's last step on the survivor m = bs[k], detached with untagged
   * neighbours: the heap invariant holds again, m last on the free list
   * and tagged.
   */
  lemma RelinkKeeps(h: Heap, bs: seq<nat>, fl: seq<nat>, al: seq<nat>, k: nat, m: nat)
    requires Detached(h, bs, fl, al, m) && k < |bs| && bs[k] == m
    requires k > 0 ==> !Tagged(h, bs[k - 1])
    requires k + 1 < |bs| ==> !Tagged(h, bs[k + 1])
    ensures var r := FreeRelink(BlockStep(h, m));
      && Inv(r, bs, fl + [m], al)
      && PayloadSize(r, m) == PayloadSize(h, m)
      && Tagged(r, m)
      && r.brk == h.brk && r.bytes == h.bytes
  {
    RelinkWords(h, m);
    RelinkLists(h, bs, fl, al, m);
    RelinkResult(h, FreeRelink(BlockStep(h, m)), bs, fl, al, k, m);
  }

  /** The forward step hands the backward step the same block it was given. */
  lemma ForwardBlock(h: Heap, d: nat)
    requires FreeForward(h, d).blk == d
    ensures FreeForward(h, d) == BlockStep(FreeForward(h, d).heap, d)
  {
  }

  /**
   * mm_free up to its relink, on the allocated block d = al[i]: after the
   * unlink and both coalescing steps the survivor m is detached, has
   * untagged neighbours, starts at or below d and ends where the merged span
   * ends; blocks and free blocks inside its span are gone, nothing else.
   */
  lemma FreeChain(h: Heap, bs: seq<nat>, fl: seq<nat>, al: seq<nat>, i: nat, d: nat)
    returns (bs3: seq<nat>, fl3: seq<nat>, km: nat, m: nat)
    requires Inv(h, bs, fl, al) && i < |al| && al[i] == d
    ensures BackwardSafe(FreeForward(Unlink(h, d), d))
    ensures var s2 := FreeBackward(FreeForward(Unlink(h, d), d));
      && s2.blk == m
      && Detached(s2.heap, bs3, fl3, RemoveAt(al, i), m)
      && km < |bs3| && bs3[km] == m
      && (km > 0 ==> !Tagged(s2.heap, bs3[km - 1]))
      && (km + 1 < |bs3| ==> !Tagged(s2.heap, bs3[km + 1]))
      && (Tagged(s2.heap, m) ==> PayloadSize(s2.heap, m) != 0)
      && s2.heap.brk == h.brk && s2.heap.bytes == h.bytes
      && m <= d && BlockEnd(h, d) <= BlockEnd(s2.heap, m)
      && (forall x :: x in bs3 <==> x in bs && !(m < x < BlockEnd(s2.heap, m)))
      && (forall x :: x in fl3 ==> x in fl)
  {
    FreeUnlinkKeeps(h, bs, fl, al, i, d);
    var al' := RemoveAt(al, i);
    var k := IndexOf(bs, d);
    var bs2, fl2 := ForwardKeeps(Unlink(h, d), bs, fl, al', k, d);
    ForwardBlock(Unlink(h, d), d);
    bs3, fl3, km, m := BackwardKeeps(FreeForward(Unlink(h, d), d).heap, bs2, fl2, al', k, d);
  }

  /** The backward step's result is the block step the relink consumes. */
  lemma BackwardBlock(s: BlockStep)
    requires BackwardSafe(s)
    ensures FreeBackward(s) == BlockStep(FreeBackward(s).heap, FreeBackward(s).blk)
  {
  }

  /**
   * mm_free on the allocated block d = al[i] satisfies the invariant on the
   * views it leaves behind: the blocks outside the survivor's span, the
   * free list with the survivor appended, the allocated list without d.
   */
  lemma FreeViews(h: Heap, bs: seq<nat>, fl: seq<nat>, al: seq<nat>, i: nat, d: nat)
    returns (bs3: seq<nat>, fl3: seq<nat>)
    requires Inv(h, bs, fl, al) && i < |al| && al[i] == d
    ensures BackwardSafe(FreeForward(Unlink(h, d), d))
    ensures Inv(FreeBlock(h, d).heap, bs3, fl3 + [FreeBlock(h, d).blk], RemoveAt(al, i))
    ensures FreeBlock(h, d).heap.brk == h.brk && FreeBlock(h, d).heap.bytes == h.bytes
    ensures FreeBlock(h, d).blk <= d && BlockEnd(h, d) <= BlockEnd(FreeBlock(h, d).heap, FreeBlock(h, d).blk)
    ensures Tagged(FreeBlock(h, d).heap, FreeBlock(h, d).blk)
    ensures forall x :: x in bs3 <==> x in bs && !(FreeBlock(h, d).blk < x < BlockEnd(FreeBlock(h, d).heap, FreeBlock(h, d).blk))
    ensures forall x :: x in fl3 ==> x in fl
  {
    var km, m;
    bs3, fl3, km, m := FreeChain(h, bs, fl, al, i, d);
    BackwardBlock(FreeForward(Unlink(h, d), d));
    RelinkKeeps(FreeBackward(FreeForward(Unlink(h, d), d)).heap, bs3, fl3, RemoveAt(al, i), km, m);
  }

  /**
   * mm_free on the allocated block d = al[i]: the heap invariant holds on
   * the result's own views, d has left the allocated list, and the survivor
   * m (d, or the free block it merged into) is the last free-list member,
   * tagged, covering d's old span; the blocks and
   * free blocks inside m's span are gone and everything else stays.
   */
  lemma FreeKeeps(h: Heap, bs: seq<nat>, fl: seq<nat>, al: seq<nat>, i: nat, d: nat)
    requires Inv(h, bs, fl, al) && i < |al| && al[i] == d
    ensures BackwardSafe(FreeForward(Unlink(h, d), d))
    ensures var r, m := FreeBlock(h, d).heap, FreeBlock(h, d).blk;
      && Valid(r)
      && AllocOrder(r) == RemoveAt(al, i)
      && |FreeOrder(r)| > 0 && FreeOrder(r)[|FreeOrder(r)| - 1] == m
      && r.brk == h.brk && r.bytes == h.bytes
      && m <= d && BlockEnd(h, d) <= BlockEnd(r, m)
      && Tagged(r, m)
  {
    var bs3, fl3 := FreeViews(h, bs, fl, al, i, d);
    ViewsUnique(FreeBlock(h, d).heap, bs3, fl3 + [FreeBlock(h, d).blk], RemoveAt(al, i));
  }

  /**
   * After mm_free the blocks are the old ones minus those swallowed by the
   * merged survivor, and the free list is the survivor plus the old free
   * blocks that are still blocks.
   */
  lemma FreeMembership(h: Heap, bs: seq<nat>, fl: seq<nat>, al: seq<nat>, i: nat, d: nat)
    requires Inv(h, bs, fl, al) && i < |al| && al[i] == d
    ensures BackwardSafe(FreeForward(Unlink(h, d), d))
    ensures var r, m := FreeBlock(h, d).heap, FreeBlock(h, d).blk;
      && (forall x :: x in Blocks(r) <==> x in bs && !(m < x < BlockEnd(r, m)))
      && (forall x :: x in FreeOrder(r) <==> x == m || (x in fl && x in Blocks(r)))
  {
    var bs3, fl3 := FreeViews(h, bs, fl, al, i, d);
    ViewsUnique(FreeBlock(h, d).heap, bs3, fl3 + [FreeBlock(h, d).blk], RemoveAt(al, i));
    forall x ensures x in RemoveAt(al, i) ==> x in al {
      RemoveAtMembership(al, i, x);
    }
    AppendedMembers(bs3, fl3, RemoveAt(al, i), fl, al, FreeBlock(h, d).blk);
  }

  /** The free list after mm_free: the survivor, plus the old free blocks that are still blocks. */
  lemma AppendedMembers(bs3: seq<nat>, fl3: seq<nat>, al3: seq<nat>, fl: seq<nat>, al: seq<nat>, m: nat)
    requires forall x :: x in bs3 <==> x in fl3 + [m] || x in al3
    requires forall x :: x in fl3 ==> x in fl
    requires forall x :: x in al3 ==> x in al
    requires forall x :: x in fl ==> x !in al
    ensures forall x :: x in fl3 + [m] <==> x == m || (x in fl && x in bs3)
  {
  }

  /** mm_coalesce writes no size word but kept's. */
  lemma CoalesceSpares(h: Heap, kept: nat)
    requires NextPhysBlock(h, kept).Some?
    ensures Coalesce(h, kept).blk == kept
    ensures forall x :: x != kept ==> Hd(Coalesce(h, kept).heap, x).size == Hd(h, x).size
  {
    var n := NextPhysBlock(h, kept).value;
    CoalesceIsAbsorb(h, kept);
    AbsorbSizes(Unlink(Unlink(h, kept), n), kept, n);
  }

  /**
   * mm_free writes no size word but the freed block's and the survivor's,
   * and the survivor is d or a free block, so every untagged block but d is spared.
   */
  lemma FreeSpares(h: Heap, d: nat)
    requires BackwardSafe(FreeForward(Unlink(h, d), d))
    ensures forall x :: x != d && x != FreeBlock(h, d).blk ==> Hd(FreeBlock(h, d).heap, x).size == Hd(h, x).size
    ensures forall x :: x != d && !Tagged(h, x) ==> Hd(FreeBlock(h, d).heap, x).size == Hd(h, x).size
  {
    SurvivorWords(h, d);
    SurvivorOrigin(h, d);
  }

  /** The relinked survivor's size word is the only one mm_free writes besides d's. */
  lemma SurvivorWords(h: Heap, d: nat)
    requires BackwardSafe(FreeForward(Unlink(h, d), d))
    ensures forall x :: x != d && x != FreeBlock(h, d).blk ==> Hd(FreeBlock(h, d).heap, x).size == Hd(h, x).size
  {
    var s1 := FreeForward(Unlink(h, d), d);
    if NextPhysBlock(Unlink(h, d), d).Some? {
      CoalesceSpares(Unlink(h, d), d);
    }
    assert s1.blk == d;
    var s2 := FreeBackward(s1);
    if BackwardMergeable(s1) {
      CoalesceSpares(s1.heap, PrevPhysBlock(s1.heap, d).value);
    }
    assert forall x :: x != d && x != s2.blk ==> Hd(s2.heap, x).size == Hd(h, x).size;
    BackwardBlock(s1);
    RelinkWords(s2.heap, s2.blk);
  }

  /** mm_free's survivor is the freed block itself or a block that was tagged free before. */
  lemma SurvivorOrigin(h: Heap, d: nat)
    requires BackwardSafe(FreeForward(Unlink(h, d), d))
    ensures FreeBlock(h, d).blk == d || Tagged(h, FreeBlock(h, d).blk)
  {
    var s1 := FreeForward(Unlink(h, d), d);
    if NextPhysBlock(Unlink(h, d), d).Some? {
      CoalesceSpares(Unlink(h, d), d);
    }
    assert s1.blk == d;
    if BackwardMergeable(s1) {
      var p := PrevPhysBlock(s1.heap, d).value;
      CoalesceSpares(s1.heap, p);
      if p != d {
        assert Hd(s1.heap, p).size == Hd(h, p).size;
      }
    }
  }

}
