/**
 * Block layout constants and the arithmetic the allocator performs on the
 * size word of a header: rounding to the alignment unit and the free tag
 * kept in the least-significant bit.
 *
 * Addresses are offsets from the low end of the arena, so the allocated-list
 * sentinel sits at offset 0 and the free-list sentinel right after it.
 */
module Layout {

  /** A header holds three 8-byte words: prev link, next link, size word. */
  const HeaderSize: nat := 24
  /** A footer holds one 8-byte word: the address of its own header. */
  const FooterSize: nat := 8
  const Alignment: nat := 8

  /** Header and footer together: the bytes a block spends on metadata. */
  const Overhead: nat := HeaderSize + FooterSize

  /** Sentinel of the allocated list, at the low end of the arena. */
  const AllocBase: nat := 0
  /** Sentinel of the free list, directly after the first one. */
  const FreeBase: nat := HeaderSize
  /** First byte after the two sentinels; the first real block starts here. */
  const EndOfPrologue: nat := 2 * HeaderSize

  /** The header of the block whose payload starts at ptr: payloads sit right after their header. */
  function HeaderOf(ptr: nat): (d: nat)
    requires ptr >= HeaderSize
    ensures d + HeaderSize == ptr
  {
    ptr - HeaderSize
  }

  /** Smallest block a split may leave behind: one alignment unit of payload. */
  const MinFreeSize: nat := Alignment + Overhead

  predicate Aligned(n: int) {
    n % Alignment == 0
  }

  /** ALIGN: the least multiple of the alignment unit that is at least n. */
  function Align(n: nat): (r: nat)
    ensures Aligned(r)
    ensures n <= r < n + Alignment
  {
    (n + Alignment - 1) / Alignment * Alignment
  }

  /** SIZE_MAX: the largest value of the 64-bit size_t that malloc receives. */
  const SizeMax: nat := 0xFFFF_FFFF_FFFF_FFFF

  /**
   * ALIGN as the C macro evaluates it on a size_t: the addition wraps modulo
   * 2^64 before the low bits are masked off.
   */
  function AlignWrapped(n: nat): (r: nat)
    requires n <= SizeMax
    ensures Aligned(r) && r <= SizeMax
  {
    (n + Alignment - 1) % (SizeMax + 1) / Alignment * Alignment
  }

  /** Below the last alignment unit of size_t the wrapping macro and Align agree. */
  lemma AlignWrappedAgrees(n: nat)
    requires n <= SizeMax - (Alignment - 1)
    ensures AlignWrapped(n) == Align(n)
  {
    assert (n + Alignment - 1) % (SizeMax + 1) == n + Alignment - 1;
  }

  /** Within the last alignment unit of size_t the macro wraps to 0, below the request. */
  lemma AlignWrappedDrops(n: nat)
    requires SizeMax - (Alignment - 1) < n <= SizeMax
    ensures AlignWrapped(n) == 0 < n
  {
    assert (n + Alignment - 1) % (SizeMax + 1) == n + Alignment - 1 - (SizeMax + 1);
  }

  /**
   * `ALIGN(req_size + FOOTER_SIZE + HEADER_SIZE)` as sbrkBlk evaluates it on
   * a size_t: the sum wraps before ALIGN, which may wrap again.
   */
  function BlockSpanWrapped(req: nat): (r: nat)
    requires req <= SizeMax
    ensures Aligned(r) && r <= SizeMax
  {
    AlignWrapped((req + FooterSize + HeaderSize) % (SizeMax + 1))
  }

  /** Near SIZE_MAX the append branch asks the arena for fewer bytes than the block it then describes. */
  lemma BlockSpanWraps()
    ensures BlockSpanWrapped(SizeMax - 15) == 16 < SizeMax - 15 + Overhead
  {
    AlignWrappedAgrees(16);
  }

  /** ALIGN_DOWN: the greatest multiple of the alignment unit that is at most n. */
  function AlignDown(n: int): (r: int)
    ensures Aligned(r)
    ensures r <= n < r + Alignment
    ensures n >= 0 ==> r >= 0
  {
    n / Alignment * Alignment
  }

  /** `size & ~1`: the payload size with the free tag masked off. */
  function Untag(s: nat): (r: nat)
    ensures r % 2 == 0
    ensures r <= s < r + 2
  {
    s - s % 2
  }

  /** `size & 1`: the free tag. */
  predicate IsFree(s: nat) {
    s % 2 == 1
  }

  /** `size | 1`: the size word with the free tag set. */
  function Tag(s: nat): (r: nat)
    ensures IsFree(r)
    ensures Untag(r) == Untag(s)
  {
    if IsFree(s) then s else s + 1
  }

  /** `0 | 1`: the size word of a free block with an empty payload. */
  const EmptyFree: nat := 1

  /** Align returns the LEAST aligned value not below its argument. */
  lemma AlignIsLeast(n: nat, m: nat)
    requires Aligned(m) && n <= m
    ensures Align(n) <= m
  {
  }

  /** An aligned request is left as it is. */
  lemma AlignAligned(n: nat)
    requires Aligned(n)
    ensures Align(n) == n
  {
    AlignIsLeast(n, n);
  }

  /** Adding a multiple of two to a size word keeps its tag and adds to its payload. */
  lemma UntagAddEven(s: nat, k: nat)
    requires k % 2 == 0
    ensures Untag(s + k) == Untag(s) + k
    ensures IsFree(s + k) == IsFree(s)
  {
  }

  /** ALIGN_DOWN of the byte just below an aligned address is one alignment unit lower. */
  lemma AlignDownBelow(n: int)
    requires Aligned(n)
    ensures AlignDown(n - 1) == n - Alignment
  {
    var r := AlignDown(n - 1);
    assert (n - Alignment) % Alignment == 0;
    assert n - Alignment <= n - 1 < n;
  }

  /** Sums of aligned offsets are aligned. */
  lemma AlignedAdd(a: int, b: int)
    requires Aligned(a) && Aligned(b)
    ensures Aligned(a + b)
  {
    assert a == Alignment * (a / Alignment);
    assert b == Alignment * (b / Alignment);
    assert a + b == Alignment * (a / Alignment + b / Alignment);
  }

  /** Differences of aligned offsets are aligned. */
  lemma AlignedSub(a: int, b: int)
    requires Aligned(a) && Aligned(b)
    ensures Aligned(a - b)
  {
    assert a == Alignment * (a / Alignment);
    assert b == Alignment * (b / Alignment);
    assert a - b == Alignment * (a / Alignment - b / Alignment);
  }

  /** An aligned size word carries no free tag. */
  lemma AlignedUntagged(n: nat)
    requires Aligned(n)
    ensures !IsFree(n) && Untag(n) == n
  {
    assert n == 2 * (4 * (n / Alignment));
  }
}
