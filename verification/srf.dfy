/** The value-per-call protocol every set-returning function of the
    extension follows. The first call builds a buffer and decides
    `max_calls`; when that is not positive the function is done at once.
    Otherwise, in that first call and in every later one, it emits
    `buf[call_cntr]` while `call_cntr < max_calls` (the host then advances
    `call_cntr`), and finally signals that it is done. */
module Srf {
  import opened Types
  import opened ZeroSlots

  /** The per-query state the host keeps in `FuncCallContext`. */
  datatype Cursor = Cursor(buf: seq<H3Index>, maxCalls: nat, callCntr: nat)
  {
    predicate Valid() {
      maxCalls <= |buf| && callCntr <= maxCalls
    }
  }

  /** What one invocation returns: a row (`SRF_RETURN_NEXT`) together with
      the advanced cursor, or `SRF_RETURN_DONE`. */
  datatype Reply = Row(value: H3Index, cursor: Cursor) | Done
  {
    predicate Valid() {
      Row? ==> cursor.Valid()
    }
  }

  /** What the first invocation of a set-returning function amounts to:
      SQL NULL (`PG_RETURN_NULL()`), an ERROR, or a reply of the protocol. */
  datatype Outcome = SqlNull | Raised(error: Error) | Replied(reply: Reply)
  {
    predicate Valid() {
      Replied? ==> reply.Valid()
    }
  }

  /** The code after `SRF_PERCALL_SETUP()`. */
  function PerCall(c: Cursor): (r: Reply)
    requires c.Valid()
    ensures r.Valid()
    ensures r.Row? <==> c.callCntr < c.maxCalls
    ensures r.Row? ==> r.value == c.buf[c.callCntr]
    ensures r.Row? ==> r.cursor.buf == c.buf && r.cursor.maxCalls == c.maxCalls
    ensures r.Row? ==> r.cursor.callCntr == c.callCntr + 1
  {
    if c.callCntr < c.maxCalls then Row(c.buf[c.callCntr], c.(callCntr := c.callCntr + 1))
    else Done
  }

  /** The tail of the first call once the buffer exists: finish at once
      when `max_calls` is not positive, else fall through to the per-call
      code with `call_cntr == 0`. */
  function FirstCall(buf: seq<H3Index>, maxCalls: int): (r: Reply)
    requires maxCalls <= |buf|
    ensures r.Valid()
    ensures r.Done? <==> maxCalls <= 0
    ensures r.Row? ==> r.value == buf[0] && r.cursor == Cursor(buf, maxCalls, 1)
  {
    if maxCalls > 0 then PerCall(Cursor(buf, maxCalls, 0)) else Done
  }

  /** The rows the host collects by calling again until it sees `Done`. */
  function Rows(c: Cursor): seq<H3Index>
    requires c.Valid()
    decreases c.maxCalls - c.callCntr
  {
    match PerCall(c)
    case Done => []
    case Row(v, next) => [v] + Rows(next)
  }

  /** The rows of a whole query, starting from the first call's reply. */
  function Drain(r: Reply): seq<H3Index>
    requires r.Valid()
  {
    match r
    case Done => []
    case Row(v, next) => [v] + Rows(next)
  }

  /** The rows the protocol streams from the buffer. `SqlNull` and `Raised`
      are outcomes kept apart from that stream: an ERROR aborts the query,
      and a first call that returns NULL without `SRF_RETURN_DONE` is turned
      by the executor into a single NULL row, not a buffer row, so neither
      contributes an index here. */
  function Emitted(o: Outcome): seq<H3Index>
    requires o.Valid()
  {
    if o.Replied? then Drain(o.reply) else []
  }

  /** From any reachable cursor the host receives exactly the buffer slots
      `call_cntr .. max_calls - 1`, in order, and then `Done`. */
  lemma {:induction false} RowsAreSlice(c: Cursor)
    requires c.Valid()
    ensures Rows(c) == c.buf[c.callCntr..c.maxCalls]
    decreases c.maxCalls - c.callCntr
  {
    if c.callCntr < c.maxCalls {
      var next := c.(callCntr := c.callCntr + 1);
      RowsAreSlice(next);
      assert c.buf[c.callCntr..c.maxCalls] == [c.buf[c.callCntr]] + c.buf[c.callCntr + 1..c.maxCalls];
    }
  }

  /** A whole query emits the first `max_calls` slots of the buffer in
      order, and nothing when `max_calls` is not positive. */
  lemma QueryRows(buf: seq<H3Index>, maxCalls: int)
    requires maxCalls <= |buf|
    ensures maxCalls <= 0 ==> Drain(FirstCall(buf, maxCalls)) == []
    ensures maxCalls > 0 ==> Drain(FirstCall(buf, maxCalls)) == buf[..maxCalls]
  {
    if maxCalls > 0 {
      RowsAreSlice(Cursor(buf, maxCalls, 1));
      assert buf[..maxCalls] == [buf[0]] + buf[1..maxCalls];
    }
  }

  /** Number of invocations the host makes for a query: one per row plus
      the final one that returns `Done`. */
  function Invocations(c: Cursor): (n: nat)
    requires c.Valid()
    decreases c.maxCalls - c.callCntr
  {
    match PerCall(c)
    case Done => 1
    case Row(_, next) => 1 + Invocations(next)
  }

  lemma {:induction false} InvocationsCount(c: Cursor)
    requires c.Valid()
    ensures Invocations(c) == c.maxCalls - c.callCntr + 1
    decreases c.maxCalls - c.callCntr
  {
    if c.callCntr < c.maxCalls {
      InvocationsCount(c.(callCntr := c.callCntr + 1));
    }
  }

  // ---------------------------------------------------------------------
  // Serving the packed buffer
  // ---------------------------------------------------------------------

  /** The first call of polyfill, compact and k-ring once the H3 routine
      has filled `hexagons`: pack the buffer, take the survivors' count as
      `max_calls`, and start the protocol. The query returns exactly the
      non-zero slots of the buffer, in buffer order, and returns no row at
      all when every slot is 0. */
  function ServePacked(hexagons: seq<H3Index>): (r: Reply)
    ensures r.Valid()
    ensures Drain(r) == NonZero(hexagons)
    ensures r.Done? <==> NonZero(hexagons) == []
  {
    var maxCalls := |NonZero(hexagons)|;
    PackedLayout(hexagons);
    QueryRows(Packed(hexagons), maxCalls);
    FirstCall(Packed(hexagons), maxCalls)
  }
}
