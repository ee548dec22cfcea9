/**
 * The allocator's state: the break of the arena and the metadata words that
 * have been written into it.
 *
 * A header slot holds the three words of a block header (prev link, next
 * link, size word) and a footer slot holds the one word of a block footer
 * (the address of its header). Slots are keyed by their offset from the low
 * end of the arena. Payload bytes are kept apart from the metadata words;
 * they matter only to realloc's copy.
 */
module HeapState {
  import opened Layout

  type byte = x: int | 0 <= x < 256

  datatype Header = Header(prev: nat, next: nat, size: nat)

  datatype Heap = Heap(
    brk: nat,                    // one past the last byte obtained from the arena provider
    hdr: map<nat, Header>,       // header words written so far, by header offset
    ftr: map<nat, nat>,          // footer words written so far, by footer offset
    bytes: map<nat, byte>        // payload bytes with a known value, by offset
  )

  /** What a header slot that was never written reads as. */
  const Unwritten: Header := Header(0, 0, 0)

  /** Reads the header at offset a. */
  function Hd(h: Heap, a: nat): Header {
    if a in h.hdr then h.hdr[a] else Unwritten
  }

  /** Reads the footer word at offset a. */
  function Ft(h: Heap, a: nat): nat {
    if a in h.ftr then h.ftr[a] else 0
  }

  /** `mem_heap_hi()`: the last byte of the arena, one below the break. */
  function HeapHi(h: Heap): int {
    h.brk - 1
  }

  /** `blk->h_prev = p` */
  function SetPrev(h: Heap, a: nat, p: nat): (r: Heap)
    ensures r.brk == h.brk && r.ftr == h.ftr && r.bytes == h.bytes
    ensures r.hdr.Keys == h.hdr.Keys + {a}
    ensures Hd(r, a) == Hd(h, a).(prev := p)
    ensures forall x :: x != a ==> Hd(r, x) == Hd(h, x)
  {
    h.(hdr := h.hdr[a := Hd(h, a).(prev := p)])
  }

  /** `blk->h_next = n` */
  function SetNext(h: Heap, a: nat, n: nat): (r: Heap)
    ensures r.brk == h.brk && r.ftr == h.ftr && r.bytes == h.bytes
    ensures r.hdr.Keys == h.hdr.Keys + {a}
    ensures Hd(r, a) == Hd(h, a).(next := n)
    ensures forall x :: x != a ==> Hd(r, x) == Hd(h, x)
  {
    h.(hdr := h.hdr[a := Hd(h, a).(next := n)])
  }

  /** `blk->h_size = s` */
  function SetSize(h: Heap, a: nat, s: nat): (r: Heap)
    ensures r.brk == h.brk && r.ftr == h.ftr && r.bytes == h.bytes
    ensures r.hdr.Keys == h.hdr.Keys + {a}
    ensures Hd(r, a) == Hd(h, a).(size := s)
    ensures forall x :: x != a ==> Hd(r, x) == Hd(h, x)
  {
    h.(hdr := h.hdr[a := Hd(h, a).(size := s)])
  }

  /** `ftr->f_header = b` */
  function SetFooter(h: Heap, a: nat, b: nat): (r: Heap)
    ensures r.brk == h.brk && r.hdr == h.hdr && r.bytes == h.bytes
    ensures Ft(r, a) == b
    ensures forall x :: x != a ==> Ft(r, x) == Ft(h, x)
  {
    h.(ftr := h.ftr[a := b])
  }

  /** `mem_sbrk(n)`: the arena grows by n bytes; the old break is the new region's start. */
  function Sbrk(h: Heap, n: nat): (r: Heap)
    ensures r.brk == h.brk + n
    ensures r.hdr == h.hdr && r.ftr == h.ftr && r.bytes == h.bytes
  {
    h.(brk := h.brk + n)
  }

  /** The payload size of the block whose header is at b, free tag masked off. */
  function PayloadSize(h: Heap, b: nat): nat {
    Untag(Hd(h, b).size)
  }

  /** Whether the header at b carries the free tag. */
  predicate Tagged(h: Heap, b: nat) {
    IsFree(Hd(h, b).size)
  }

  /** Where the footer of the block at b sits: right after its payload. */
  function FooterAddr(h: Heap, b: nat): nat {
    b + HeaderSize + PayloadSize(h, b)
  }

  /** One past the last byte of the block at b (its footer included). */
  function BlockEnd(h: Heap, b: nat): nat {
    FooterAddr(h, b) + FooterSize
  }
}
