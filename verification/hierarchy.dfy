/** src/hierarchy.c: the first call of the `h3_to_children` set-returning
    function, the one that does not drop zero slots. */
module Hierarchy {
  import opened Types
  import opened Util
  import opened ZeroSlots
  import opened Srf

  /** The first call of `h3_to_children`. The parent index text is parsed
      first; `numChildren` stands for H3's `maxH3ToChildrenSize`, which
      becomes both the number of slots of the zeroed buffer and
      `max_calls`, and `children` for what `h3ToChildren` writes into it.
      A slot count plain `palloc0` refuses, negative or too large, is an
      ERROR. Every slot is returned, a 0 left in the buffer included. */
  function ChildrenFirstCall(parent: string, stringToH3: string -> H3Index,
                             numChildren: Int32, children: seq<H3Index>): (r: Outcome)
    ensures r.Valid()
    ensures !r.SqlNull?
    ensures r.Raised? <==> stringToH3(parent) == 0 || !SlotsFit(numChildren)
    ensures r.Raised? && stringToH3(parent) == 0 ==> r.error == InvalidIndexString(parent)
    ensures r.Raised? && stringToH3(parent) != 0 ==> r.error == AllocRequestTooLarge(SlotBytes(numChildren))
    ensures r.Replied? ==> (r.reply.Done? <==> numChildren == 0)
    ensures r.Replied? && r.reply.Row? ==>
      r.reply.cursor.maxCalls == numChildren && |r.reply.cursor.buf| == numChildren
    ensures r.Replied? ==> |Emitted(r)| == numChildren
    ensures r.Replied? ==> forall k :: 0 <= k < numChildren ==>
      Emitted(r)[k] == if k < |children| then children[k] else 0
  {
    match IndexFromCString(parent, stringToH3)
    case Err(e) => Raised(e)
    case Ok(_) =>
      if !SlotsFit(numChildren) then Raised(AllocRequestTooLarge(SlotBytes(numChildren)))
      else
        var buf := Buffer(numChildren, children);
        QueryRows(buf, numChildren);
        assert buf[..numChildren] == buf;
        Replied(FirstCall(buf, numChildren))
  }

  /** Where H3 writes a 0, or does not write at all, the query returns the
      0 index as a row: unlike polyfill, compact and k-ring, the children
      query keeps zero slots. */
  lemma ChildrenKeepZeroSlots(parent: string, stringToH3: string -> H3Index,
                              numChildren: Int32, children: seq<H3Index>, k: nat)
    requires stringToH3(parent) != 0 && SlotsFit(numChildren)
    requires k < numChildren
    requires k < |children| ==> children[k] == 0
    ensures 0 in Emitted(ChildrenFirstCall(parent, stringToH3, numChildren, children))
  {
    var r := ChildrenFirstCall(parent, stringToH3, numChildren, children);
    assert Emitted(r)[k] == 0;
  }
}
