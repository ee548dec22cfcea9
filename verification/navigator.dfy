/**
 * Boundary-tag navigation: the physical neighbours of a block, found from
 * its own size (successor) or from the footer just below it (predecessor).
 */
module Navigator {
  import opened Layout
  import opened HeapState
  import opened Opt

  /**
   * getPrevPhyBlk: the footer below b names the predecessor's header;
   * a footer slot inside the sentinel region means there is none.
   */
  function PrevPhysBlock(h: Heap, b: nat): (r: Option<nat>)
    ensures r.None? <==> b < EndOfPrologue + FooterSize
    ensures r.Some? ==> r.value == Ft(h, b - FooterSize)
  {
    if b - FooterSize < EndOfPrologue then None else Some(Ft(h, b - FooterSize))
  }

  /**
   * getNextPhyBlk: the successor starts at the end of b's block; there is
   * none when a header there would reach past the last byte of the arena.
   */
  function NextPhysBlock(h: Heap, b: nat): (r: Option<nat>)
    ensures r.None? <==> BlockEnd(h, b) + HeaderSize > HeapHi(h)
    ensures r.Some? ==> r.value == BlockEnd(h, b)
  {
    var next := BlockEnd(h, b);
    if next + HeaderSize > HeapHi(h) then None else Some(next)
  }
}
