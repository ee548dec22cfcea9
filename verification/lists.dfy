/**
 * The two intrusive circular doubly-linked lists. Each list is anchored by a
 * sentinel header; a block is linked by writing the prev/next words of its
 * own header and of its neighbours' headers.
 */
module Lists {
  import opened Layout
  import opened HeapState
  import opened Seqs

  /**
   * removeFromList: splice b's neighbours together. The second write reads
   * b's header again after the first one, as removeFromList does.
   */
  function Unlink(h: Heap, b: nat): (r: Heap)
    ensures r.brk == h.brk && r.ftr == h.ftr && r.bytes == h.bytes
    ensures h.hdr.Keys <= r.hdr.Keys
    ensures forall x :: Hd(r, x).size == Hd(h, x).size
  {
    var h1 := SetPrev(h, Hd(h, b).next, Hd(h, b).prev);
    SetNext(h1, Hd(h1, b).prev, Hd(h1, b).next)
  }

  /** Inserts b just before the sentinel s, i.e. at the end of s's list. */
  function LinkBefore(h: Heap, b: nat, s: nat): (r: Heap)
    ensures r.brk == h.brk && r.ftr == h.ftr && r.bytes == h.bytes
    ensures h.hdr.Keys + {b} <= r.hdr.Keys
    ensures forall x :: Hd(r, x).size == Hd(h, x).size
  {
    var h1 := SetNext(h, b, s);
    var h2 := SetPrev(h1, b, Hd(h1, Hd(h1, b).next).prev);
    var h3 := SetNext(h2, Hd(h2, b).prev, b);
    SetPrev(h3, Hd(h3, b).next, b)
  }

  /** `s->h_next = s->h_prev = s`: a sentinel whose ring is empty. */
  function SelfLoop(h: Heap, s: nat): (r: Heap)
    ensures r.brk == h.brk && r.ftr == h.ftr && r.bytes == h.bytes
    ensures r.hdr.Keys == h.hdr.Keys + {s}
    ensures Hd(r, s) == Hd(h, s).(prev := s, next := s)
    ensures forall x :: x != s ==> Hd(r, x) == Hd(h, x)
  {
    SetNext(SetPrev(h, s, s), s, s)
  }

  /** addToAllocList */
  function LinkAllocated(h: Heap, b: nat): Heap {
    LinkBefore(h, b, AllocBase)
  }

  /** addToFreeList */
  function LinkFree(h: Heap, b: nat): Heap {
    LinkBefore(h, b, FreeBase)
  }

  /** The member after position i of the ring anchored at s with members L. */
  function NextIn(L: seq<nat>, s: nat, i: nat): nat {
    if i + 1 < |L| then L[i + 1] else s
  }

  /** The member before position i of the ring anchored at s with members L. */
  function PrevIn(L: seq<nat>, s: nat, i: nat): nat
    requires i < |L|
  {
    if i == 0 then s else L[i - 1]
  }

  /** The last member of the ring, the sentinel when L is empty. */
  function Last(L: seq<nat>, s: nat): nat {
    if |L| == 0 then s else L[|L| - 1]
  }

  /** The first member of the ring, the sentinel when L is empty. */
  function First(L: seq<nat>, s: nat): nat {
    if |L| == 0 then s else L[0]
  }

  /**
   * The headers at s and at the members of L form the circular list
   * s, L[0], ..., L[|L|-1], s, in both directions.
   */
  ghost predicate ListOk(h: Heap, s: nat, L: seq<nat>) {
    && s in h.hdr
    && s !in L
    && Distinct(L)
    && (forall i :: 0 <= i < |L| ==> L[i] in h.hdr)
    && Hd(h, s).next == First(L, s)
    && Hd(h, s).prev == Last(L, s)
    && (forall i :: 0 <= i < |L| ==> Hd(h, L[i]).next == NextIn(L, s, i))
    && (forall i :: 0 <= i < |L| ==> Hd(h, L[i]).prev == PrevIn(L, s, i))
  }

  /** Following next links from cur until the sentinel s, at most fuel steps. */
  function Walk(h: Heap, cur: nat, s: nat, fuel: nat): seq<nat>
    decreases fuel
  {
    if fuel == 0 || cur == s then [] else [cur] + Walk(h, Hd(h, cur).next, s, fuel - 1)
  }

  /** Two heaps agree on the links of header a and a is a header in the second. */
  ghost predicate SameLinks(h: Heap, h': Heap, a: nat) {
    a in h'.hdr && Hd(h', a).prev == Hd(h, a).prev && Hd(h', a).next == Hd(h, a).next
  }

  /** The size words of all headers agree and no header slot was dropped. */
  ghost predicate SameSizes(h: Heap, h': Heap) {
    && h.hdr.Keys <= h'.hdr.Keys
    && forall x :: Hd(h', x).size == Hd(h, x).size
  }

  /** A list stays intact when the links of its sentinel and members are untouched. */
  lemma ListFrame(h: Heap, h': Heap, s: nat, L: seq<nat>)
    requires ListOk(h, s, L)
    requires SameLinks(h, h', s)
    requires forall i :: 0 <= i < |L| ==> SameLinks(h, h', L[i])
    ensures ListOk(h', s, L)
  {
  }

  /**
   * The words Unlink writes: the neighbours' links now skip b, and every
   * other header reads as before.
   */
  lemma UnlinkEffect(h: Heap, b: nat)
    requires Hd(h, b).prev != b && Hd(h, b).next != b
    ensures var r, p, n := Unlink(h, b), Hd(h, b).prev, Hd(h, b).next;
      && r.brk == h.brk && r.ftr == h.ftr && r.bytes == h.bytes
      && r.hdr.Keys == h.hdr.Keys + {p, n}
      && Hd(r, p) == Hd(h, p).(next := n, prev := if p == n then p else Hd(h, p).prev)
      && Hd(r, n) == Hd(h, n).(prev := p, next := if p == n then n else Hd(h, n).next)
      && (forall x :: x != p && x != n ==> Hd(r, x) == Hd(h, x))
  {
  }

  /** The facts about b's neighbours that unlinking position i relies on. */
  lemma NeighboursOfMember(L: seq<nat>, s: nat, i: nat)
    requires s !in L && Distinct(L) && i < |L|
    ensures PrevIn(L, s, i) != L[i] && NextIn(L, s, i) != L[i]
    ensures PrevIn(L, s, i) == NextIn(L, s, i) ==> PrevIn(L, s, i) == s && |L| == 1
  {
    if i > 0 { assert L[i - 1] != L[i]; }
    if i + 1 < |L| { assert L[i + 1] != L[i]; }
    if i > 0 && i + 1 < |L| { assert L[i - 1] != L[i + 1]; }
  }

  /** After unlinking position i, every remaining member's next link is its successor in the shorter list. */
  lemma UnlinkNextLinks(h: Heap, s: nat, L: seq<nat>, i: nat)
    requires ListOk(h, s, L) && i < |L|
    ensures var r, L' := Unlink(h, L[i]), RemoveAt(L, i);
      forall k :: 0 <= k < |L'| ==> Hd(r, L'[k]).next == NextIn(L', s, k)
  {
    var p, n := PrevIn(L, s, i), NextIn(L, s, i);
    NeighboursOfMember(L, s, i);
    UnlinkEffect(h, L[i]);
    var r, L' := Unlink(h, L[i]), RemoveAt(L, i);
    forall k | 0 <= k < |L'|
      ensures Hd(r, L'[k]).next == NextIn(L', s, k)
    {
      if k + 1 == i {
        assert L'[k] == p;
      } else if k < i {
        assert L'[k] == L[k] && L[k] != p && L[k] != n;
        assert L'[k + 1] == L[k + 1];
      } else {
        assert L'[k] == L[k + 1];
        if k > i { assert L[k + 1] != n && L[k + 1] != p; }
      }
    }
  }

  /** After unlinking position i, every remaining member's prev link is its predecessor in the shorter list. */
  lemma UnlinkPrevLinks(h: Heap, s: nat, L: seq<nat>, i: nat)
    requires ListOk(h, s, L) && i < |L|
    ensures var r, L' := Unlink(h, L[i]), RemoveAt(L, i);
      forall k :: 0 <= k < |L'| ==> Hd(r, L'[k]).prev == PrevIn(L', s, k)
  {
    var p, n := PrevIn(L, s, i), NextIn(L, s, i);
    NeighboursOfMember(L, s, i);
    UnlinkEffect(h, L[i]);
    var r, L' := Unlink(h, L[i]), RemoveAt(L, i);
    forall k | 0 <= k < |L'|
      ensures Hd(r, L'[k]).prev == PrevIn(L', s, k)
    {
      if k < i {
        assert L'[k] == L[k];
        if k + 1 < i { assert L[k] != p && L[k] != n; }
        if k > 0 { assert L'[k - 1] == L[k - 1]; }
      } else if k == i {
        assert L'[k] == n;
      } else {
        assert L'[k] == L[k + 1] && L[k + 1] != n && L[k + 1] != p;
        assert L'[k - 1] == L[k];
      }
    }
  }

  /** Unlinking a list member changes only its neighbours' links and no size word. */
  lemma UnlinkMemberFrame(h: Heap, s: nat, L: seq<nat>, i: nat)
    requires ListOk(h, s, L) && i < |L|
    ensures var r := Unlink(h, L[i]);
      && r.brk == h.brk && r.ftr == h.ftr && r.bytes == h.bytes
      && r.hdr.Keys == h.hdr.Keys
      && SameSizes(h, r)
      && Hd(r, L[i]) == Hd(h, L[i])
      && (forall x :: x != PrevIn(L, s, i) && x != NextIn(L, s, i) ==> Hd(r, x) == Hd(h, x))
  {
    NeighboursOfMember(L, s, i);
    UnlinkEffect(h, L[i]);
    assert PrevIn(L, s, i) in h.hdr && NextIn(L, s, i) in h.hdr;
  }

  /** The remaining members after unlinking position i: no repeats, no sentinel, all still headers. */
  lemma UnlinkMembers(h: Heap, s: nat, L: seq<nat>, i: nat)
    requires ListOk(h, s, L) && i < |L|
    ensures var r, L' := Unlink(h, L[i]), RemoveAt(L, i);
      && s in r.hdr && s !in L' && Distinct(L')
      && forall k :: 0 <= k < |L'| ==> L'[k] in r.hdr
  {
    var r, L' := Unlink(h, L[i]), RemoveAt(L, i);
    RemoveAtDistinct(L, i);
    RemoveAtMembership(L, i, s);
    forall k | 0 <= k < |L'| ensures L'[k] in r.hdr {
      assert L'[k] == L[if k < i then k else k + 1];
    }
  }

  /** After unlinking position i, the sentinel's next link is the shorter list's first member. */
  lemma UnlinkSentinelNext(h: Heap, s: nat, L: seq<nat>, i: nat)
    requires ListOk(h, s, L) && i < |L|
    ensures Hd(Unlink(h, L[i]), s).next == First(RemoveAt(L, i), s)
  {
    NeighboursOfMember(L, s, i);
    UnlinkEffect(h, L[i]);
    if i == 0 {
      assert PrevIn(L, s, i) == s;
    } else {
      assert RemoveAt(L, i)[0] == L[0];
    }
  }

  /** After unlinking position i, the sentinel's prev link is the shorter list's last member. */
  lemma UnlinkSentinelPrev(h: Heap, s: nat, L: seq<nat>, i: nat)
    requires ListOk(h, s, L) && i < |L|
    ensures Hd(Unlink(h, L[i]), s).prev == Last(RemoveAt(L, i), s)
  {
    NeighboursOfMember(L, s, i);
    UnlinkEffect(h, L[i]);
    var L' := RemoveAt(L, i);
    if i + 1 == |L| {
      assert NextIn(L, s, i) == s;
    } else {
      assert L[|L| - 1] != s && L[|L| - 1] != L[i];
      assert L'[|L'| - 1] == L[|L| - 1];
    }
  }

  /** Unlinking the member at position i leaves the list without it. */
  lemma UnlinkList(h: Heap, s: nat, L: seq<nat>, i: nat)
    requires ListOk(h, s, L) && i < |L|
    ensures ListOk(Unlink(h, L[i]), s, RemoveAt(L, i))
  {
    UnlinkMembers(h, s, L, i);
    UnlinkSentinelNext(h, s, L, i);
    UnlinkSentinelPrev(h, s, L, i);
    UnlinkNextLinks(h, s, L, i);
    UnlinkPrevLinks(h, s, L, i);
  }

  /**
   * Unlinking the member at position i leaves the list without it; only the
   * links of its two neighbours change, and b keeps its own stale links.
   */
  lemma UnlinkMember(h: Heap, s: nat, L: seq<nat>, i: nat)
    requires ListOk(h, s, L) && i < |L|
    ensures var r := Unlink(h, L[i]);
      && ListOk(r, s, RemoveAt(L, i))
      && r.brk == h.brk && r.ftr == h.ftr && r.bytes == h.bytes
      && r.hdr.Keys == h.hdr.Keys
      && SameSizes(h, r)
      && Hd(r, L[i]) == Hd(h, L[i])
      && (forall x :: x != PrevIn(L, s, i) && x != NextIn(L, s, i) ==> Hd(r, x) == Hd(h, x))
  {
    UnlinkList(h, s, L, i);
    UnlinkMemberFrame(h, s, L, i);
  }

  /**
   * The words LinkBefore writes: b points back to the old last member t and
   * forward to the sentinel, and t and the sentinel point to b.
   */
  lemma LinkEffect(h: Heap, b: nat, s: nat)
    requires b != s && Hd(h, s).prev != b
    ensures var r, t := LinkBefore(h, b, s), Hd(h, s).prev;
      && r.brk == h.brk && r.ftr == h.ftr && r.bytes == h.bytes
      && r.hdr.Keys == h.hdr.Keys + {b, s, t}
      && Hd(r, b) == Hd(h, b).(prev := t, next := s)
      && Hd(r, s) == Hd(h, s).(prev := b, next := if t == s then b else Hd(h, s).next)
      && (t != s ==> Hd(r, t) == Hd(h, t).(next := b))
      && (forall x :: x != b && x != s && x != t ==> Hd(r, x) == Hd(h, x))
  {
  }

  /** Appending a block that is neither the sentinel nor a member keeps the members distinct. */
  lemma AppendDistinct(s: nat, L: seq<nat>, b: nat)
    requires s !in L && Distinct(L) && b != s && b !in L
    ensures s !in L + [b] && Distinct(L + [b])
  {
    var L' := L + [b];
    forall i, j | 0 <= i < j < |L'| ensures L'[i] != L'[j] {
      if j < |L| { assert L'[i] == L[i] && L'[j] == L[j]; }
      else { assert L'[i] in L; }
    }
  }

  /** After LinkBefore, every member of the longer list has the links its position demands. */
  lemma LinkLinks(h: Heap, s: nat, L: seq<nat>, b: nat)
    requires ListOk(h, s, L) && b != s && b !in L
    ensures var r, L' := LinkBefore(h, b, s), L + [b];
      forall k :: 0 <= k < |L'| ==>
        && L'[k] in r.hdr
        && Hd(r, L'[k]).next == NextIn(L', s, k)
        && Hd(r, L'[k]).prev == PrevIn(L', s, k)
  {
    var t := Last(L, s);
    LinkEffect(h, b, s);
    var r := LinkBefore(h, b, s);
    var L' := L + [b];
    forall k | 0 <= k < |L'|
      ensures L'[k] in r.hdr
      ensures Hd(r, L'[k]).next == NextIn(L', s, k)
      ensures Hd(r, L'[k]).prev == PrevIn(L', s, k)
    {
      if k < |L| {
        assert L'[k] == L[k];
        if k + 1 < |L| { assert L[k] != t; }
        if k > 0 { assert L'[k - 1] == L[k - 1]; }
      }
    }
  }

  /** Linking a block that is on no list before the sentinel appends it to the list. */
  lemma LinkAppends(h: Heap, s: nat, L: seq<nat>, b: nat)
    requires ListOk(h, s, L) && b != s && b !in L
    ensures var r := LinkBefore(h, b, s);
      && ListOk(r, s, L + [b])
      && r.brk == h.brk && r.ftr == h.ftr && r.bytes == h.bytes
      && r.hdr.Keys == h.hdr.Keys + {b}
      && Hd(r, b).size == Hd(h, b).size
      && (forall x :: x != b ==> Hd(r, x).size == Hd(h, x).size)
      && (forall x :: x != b && x != s && x != Last(L, s) ==> Hd(r, x) == Hd(h, x))
  {
    LinkEffect(h, b, s);
    assert Last(L, s) in h.hdr;
    AppendDistinct(s, L, b);
    LinkLinks(h, s, L, b);
  }

  /** A block whose neighbours already point at each other: unlinking it writes only values already there. */
  ghost predicate Spliced(h: Heap, b: nat) {
    var p, n := Hd(h, b).prev, Hd(h, b).next;
    p in h.hdr && n in h.hdr && p != b && n != b && Hd(h, p).next == n && Hd(h, n).prev == p
  }

  /**
   * Unlinking a block a second time, while its old neighbours still point at
   * each other, leaves the heap exactly as it is.
   */
  lemma UnlinkSplicedIsNoop(h: Heap, b: nat)
    requires Spliced(h, b)
    ensures Unlink(h, b) == h
  {
    var p, n := Hd(h, b).prev, Hd(h, b).next;
    UnlinkEffect(h, b);
    var r := Unlink(h, b);
    assert r.hdr.Keys == h.hdr.Keys;
    forall x | x in h.hdr ensures r.hdr[x] == h.hdr[x] {
      assert Hd(r, x) == Hd(h, x);
    }
  }

  /** Unlinking leaves the block spliced out, so unlinking it again changes nothing. */
  lemma UnlinkTwice(h: Heap, s: nat, L: seq<nat>, i: nat)
    requires ListOk(h, s, L) && i < |L|
    ensures Spliced(Unlink(h, L[i]), L[i])
    ensures Unlink(Unlink(h, L[i]), L[i]) == Unlink(h, L[i])
  {
    UnlinkMember(h, s, L, i);
    var r := Unlink(h, L[i]);
    var L' := RemoveAt(L, i);
    var p, n := PrevIn(L, s, i), NextIn(L, s, i);
    NeighboursOfMember(L, s, i);
    if i == 0 {
      assert Hd(r, s).next == n by { if i + 1 < |L| { assert L'[0] == L[1]; } }
    } else {
      assert L'[i - 1] == p;
      assert Hd(r, p).next == n by { if i + 1 < |L| { assert L'[i] == L[i + 1]; } }
    }
    if i + 1 == |L| {
      assert Hd(r, s).prev == p by { if i > 0 { assert L'[|L'| - 1] == L[i - 1]; } }
    } else {
      assert L'[i] == n;
      assert Hd(r, n).prev == p by { if i > 0 { assert L'[i - 1] == L[i - 1]; } }
    }
    UnlinkSplicedIsNoop(r, L[i]);
  }

  /** Walking the next links from the first member yields the list, given enough fuel. */
  lemma {:induction false} WalkFollowsList(h: Heap, s: nat, L: seq<nat>, k: nat, fuel: nat)
    requires s !in L && forall i :: 0 <= i < |L| ==> Hd(h, L[i]).next == NextIn(L, s, i)
    requires k <= |L| && fuel >= |L| - k
    ensures Walk(h, if k < |L| then L[k] else s, s, fuel) == L[k..]
    decreases |L| - k
  {
    if k < |L| {
      assert L[k] != s;
      assert Hd(h, L[k]).next == if k + 1 < |L| then L[k + 1] else s;
      WalkFollowsList(h, s, L, k + 1, fuel - 1);
      assert Walk(h, L[k], s, fuel) == [L[k]] + Walk(h, Hd(h, L[k]).next, s, fuel - 1);
      assert L[k..] == [L[k]] + L[k + 1..];
    }
  }

  /** The list order read off the heap is the one the sentinel anchors. */
  lemma WalkFromSentinel(h: Heap, s: nat, L: seq<nat>, fuel: nat)
    requires ListOk(h, s, L) && fuel >= |L|
    ensures Walk(h, Hd(h, s).next, s, fuel) == L
  {
    WalkFollowsList(h, s, L, 0, fuel);
    assert L[0..] == L;
  }
}
