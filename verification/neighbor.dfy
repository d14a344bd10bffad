/** src/neighbor.c: the first call of the `h3_kring` set-returning
    function. */
module Neighbor {
  import opened Types
  import opened Util
  import opened ZeroSlots
  import opened Srf

  /** The first call of `h3_kring`. The centre index text is parsed first;
      `numNeighbors` stands for H3's `maxKringSize(distance)`, the number of
      slots of the zeroed buffer, and `ring` for what `kRing` writes into
      it. A slot count plain `palloc0` refuses, negative or too large, is an
      ERROR. The query
      returns the non-zero neighbours H3 wrote within the
      buffer, in the order it wrote them, and no row when it wrote none. */
  function KringFirstCall(center: string, stringToH3: string -> H3Index,
                          numNeighbors: Int32, ring: seq<H3Index>): (r: Outcome)
    ensures r.Valid()
    ensures !r.SqlNull?
    ensures r.Raised? <==> stringToH3(center) == 0 || !SlotsFit(numNeighbors)
    ensures r.Raised? && stringToH3(center) == 0 ==> r.error == InvalidIndexString(center)
    ensures r.Raised? && stringToH3(center) != 0 ==> r.error == AllocRequestTooLarge(SlotBytes(numNeighbors))
    ensures r.Replied? ==> Emitted(r) == NonZero(ring[..Reach(numNeighbors, ring)])
    ensures r.Replied? ==> |Emitted(r)| <= numNeighbors
    ensures r.Replied? ==>
      (r.reply.Done? <==> forall k :: 0 <= k < Reach(numNeighbors, ring) ==> ring[k] == 0)
  {
    match IndexFromCString(center, stringToH3)
    case Err(e) => Raised(e)
    case Ok(_) =>
      if !SlotsFit(numNeighbors) then Raised(AllocRequestTooLarge(SlotBytes(numNeighbors)))
      else
        var buf := Buffer(numNeighbors, ring);
        BufferSurvivors(numNeighbors, ring);
        NoSurvivors(ring[..Reach(numNeighbors, ring)]);
        Replied(ServePacked(buf))
  }
}
