/** src/compact.c: the text array of H3 indexes handed to `h3_compact`,
    and the first call of that set-returning function. */
module Compact {
  import opened Types
  import opened SqlArrays
  import opened Util
  import opened ZeroSlots
  import opened Srf

  /** The per-element conversion: `text_to_cstring` followed by
      `__h3_index_from_cstring` with H3's `stringToH3`. */
  function Parser(stringToH3: string -> H3Index): string -> Result<H3Index> {
    text => IndexFromCString(text, stringToH3)
  }

  function NullIndexAt(position: int): Error {
    NullIndexElement(position)
  }

  /** The checks `pg_array_to_h3index_array` makes before it reads an
      element: exactly one dimension, and text elements. */
  function IndexArrayShape(a: SqlArray<string>): Option<Error> {
    if a.ndim != 1 then Some(IndexArrayNotOneDimensional)
    else if a.elemType != TextType then Some(IndexArrayNotText)
    else None
  }

  /** `pg_array_to_h3index_array`, reading the elements by the array's own
      subscripts. A NULL array gives no indexes. Otherwise the array must
      be one-dimensional and of text; every element must be non-null and
      parse to a non-zero index, and the result holds those indexes in
      array order. The first element that fails decides the ERROR: a NULL
      names its subscript, a string H3 cannot parse is reported with its
      text. */
  function ArrayToIndexes(arr: Option<SqlArray<string>>, stringToH3: string -> H3Index)
    : (r: Result<seq<H3Index>>)
    ensures arr.None? ==> r == Ok([])
    ensures arr.Some? && arr.value.ndim != 1 ==> r == Err(IndexArrayNotOneDimensional)
    ensures arr.Some? && arr.value.ndim == 1 && arr.value.elemType != TextType ==> r == Err(IndexArrayNotText)
    ensures arr.Some? && IndexArrayShape(arr.value).None? ==>
      (r.Ok? <==> forall k :: 0 <= k < |arr.value.cells| ==>
                    arr.value.cells[k].Some? && stringToH3(arr.value.cells[k].value) != 0)
    ensures r.Ok? && arr.Some? ==>
      && |r.value| == |arr.value.cells|
      && forall k :: 0 <= k < |arr.value.cells| ==>
           arr.value.cells[k].Some? && r.value[k] == stringToH3(arr.value.cells[k].value)
    ensures r.Err? && arr.Some? && IndexArrayShape(arr.value).None? ==>
      exists k ::
        && 0 <= k < |arr.value.cells|
        && (forall j :: 0 <= j < k ==> arr.value.cells[j].Some? && stringToH3(arr.value.cells[j].value) != 0)
        && (arr.value.cells[k].None? ==> r.error == NullIndexElement(arr.value.lbound + k))
        && (arr.value.cells[k].Some? ==>
              stringToH3(arr.value.cells[k].value) == 0 && r.error == InvalidIndexString(arr.value.cells[k].value))
  {
    if arr.None? then Ok([])
    else
      var a := arr.value;
      match IndexArrayShape(a)
      case Some(e) => Err(e)
      case None =>
        var parse := Parser(stringToH3);
        var r := ReadCells(a, parse, NullIndexAt);
        assert forall k :: 0 <= k < |a.cells| ==>
          (CellReadable(a, parse, k) <==> a.cells[k].Some? && stringToH3(a.cells[k].value) != 0);
        r
  }

  /** The same function as the source writes it: the elements are fetched
      with subscripts `1 .. dim[0]` whatever the array's lower bound is. */
  function ArrayToIndexesAsWritten(arr: Option<SqlArray<string>>, stringToH3: string -> H3Index)
    : Result<seq<H3Index>>
  {
    if arr.None? then Ok([])
    else
      var a := arr.value;
      match IndexArrayShape(a)
      case Some(e) => Err(e)
      case None => ReadElements(a, 1, |a.cells|, Parser(stringToH3), NullIndexAt)
  }

  /** For arrays with the default lower bound 1 the two readings agree. */
  lemma IndexesAsWrittenAgreesAtDefaultBound(arr: Option<SqlArray<string>>, stringToH3: string -> H3Index)
    requires arr.Some? ==> arr.value.lbound == 1
    ensures ArrayToIndexesAsWritten(arr, stringToH3) == ArrayToIndexes(arr, stringToH3)
  {
  }

  /** With any other lower bound, subscript 1 or subscript `dim[0]` lies
      outside the array and reads as NULL: an array of valid indexes is
      rejected with a null-element ERROR. */
  lemma IndexesAsWrittenRejectsShiftedArray(a: SqlArray<string>, stringToH3: string -> H3Index)
    requires a.ndim == 1 && a.elemType == TextType && |a.cells| > 0
    requires forall k :: 0 <= k < |a.cells| ==> a.cells[k].Some? && stringToH3(a.cells[k].value) != 0
    requires a.lbound != 1
    ensures ArrayToIndexes(Some(a), stringToH3).Ok?
    ensures ArrayToIndexesAsWritten(Some(a), stringToH3).Err?
    ensures ArrayToIndexesAsWritten(Some(a), stringToH3).error.NullIndexElement?
  {
    var parse := Parser(stringToH3);
    var sub := if a.lbound > 1 then 1 else |a.cells|;
    assert !Readable(a, parse, sub);
    var r := ReadElements(a, 1, |a.cells|, parse, NullIndexAt);
    assert r.Err?;
    ReadElementsFailure(a, 1, |a.cells|, parse, NullIndexAt);
    var s :| s < 1 + |a.cells| && FailsFirstAt(a, parse, NullIndexAt, 1, s, r.error);
  }

  /** An array holding a NULL element or a string H3 cannot parse is
      rejected by both readings, though the ERRORs they raise may differ. */
  lemma IndexesBothReadingsRejectInvalid(a: SqlArray<string>, stringToH3: string -> H3Index)
    requires a.ndim == 1 && a.elemType == TextType
    requires exists k :: 0 <= k < |a.cells| && (a.cells[k].None? || stringToH3(a.cells[k].value) == 0)
    ensures ArrayToIndexes(Some(a), stringToH3).Err?
    ensures ArrayToIndexesAsWritten(Some(a), stringToH3).Err?
  {
    if a.lbound == 1 {
      IndexesAsWrittenAgreesAtDefaultBound(Some(a), stringToH3);
    } else {
      var sub := if a.lbound > 1 then 1 else |a.cells|;
      assert !Readable(a, Parser(stringToH3), sub);
    }
  }

  /** A concrete instance: `'[0:0]={8928308280fffff}'::text[]`, one valid
      index stored at subscript 0, is read correctly by its own subscripts
      and rejected by the source's reading, which asks for subscript 1. */
  lemma IndexesAsWrittenRejectsZeroBasedArray(stringToH3: string -> H3Index)
    requires stringToH3("8928308280fffff") == 0x8928308280fffff
    ensures ArrayToIndexes(Some(SqlArray(1, 0, TextType, [Some("8928308280fffff")])), stringToH3)
         == Ok([0x8928308280fffff])
    ensures ArrayToIndexesAsWritten(Some(SqlArray(1, 0, TextType, [Some("8928308280fffff")])), stringToH3)
         == Err(NullIndexElement(1))
  {
    var a := SqlArray(1, 0, TextType, [Some("8928308280fffff")]);
    assert a.Get(1).None?;
    var r := ArrayToIndexes(Some(a), stringToH3);
    assert a.cells[0].Some? && stringToH3(a.cells[0].value) != 0;
    assert r.Ok? && |r.value| == 1 && r.value[0] == 0x8928308280fffff;
    assert r.value == [0x8928308280fffff];
  }

  /** The first call of `h3_compact`. `cachedLimit` and `setting` feed the
      allocation gate, `compactStatus` is what H3's `compact` returns and
      `compacted` what it writes into the zeroed result buffer. The result
      pairs the gate's cached limit afterwards with the outcome: SQL NULL
      for a NULL argument or no indexes, an ERROR from the conversion, the
      gate or a failed compaction, and otherwise the non-zero compacted
      indexes in buffer order. */
  function CompactFirstCall(arg: Option<SqlArray<string>>, stringToH3: string -> H3Index,
                            cachedLimit: nat, setting: Setting,
                            compactStatus: int, compacted: seq<H3Index>): (r: (nat, Outcome))
    ensures r.1.Valid()
    ensures arg.None? ==> r == (cachedLimit, SqlNull)
    ensures arg.Some? && ArrayToIndexes(arg, stringToH3).Err? ==>
      r == (cachedLimit, Raised(ArrayToIndexes(arg, stringToH3).error))
    ensures arg.Some? && ArrayToIndexes(arg, stringToH3) == Ok([]) ==> r == (cachedLimit, SqlNull)
    ensures arg.Some? && ArrayToIndexes(arg, stringToH3).Ok? && |ArrayToIndexes(arg, stringToH3).value| > 0 ==>
      var n := |ArrayToIndexes(arg, stringToH3).value|;
      var gate := PolyfillAlloc(cachedLimit, setting, n * 8);
      && r.0 == gate.0
      && (gate.1.Err? ==> r.1 == Raised(gate.1.error))
      && (gate.1.Ok? && compactStatus != 0 ==> r.1 == Raised(CompactFailed))
      && (gate.1.Ok? && compactStatus == 0 ==> r.1.Replied? && Emitted(r.1) == NonZero(compacted[..Reach(n, compacted)]))
    ensures r.1.Replied? ==> |Emitted(r.1)| <= |ArrayToIndexes(arg, stringToH3).value|
  {
    if arg.None? then (cachedLimit, SqlNull)
    else
      match ArrayToIndexes(arg, stringToH3)
      case Err(e) => (cachedLimit, Raised(e))
      case Ok(indexes) =>
        var n := |indexes|;
        if n == 0 then (cachedLimit, SqlNull)
        else
          var gate := PolyfillAlloc(cachedLimit, setting, n * 8);
          if gate.1.Err? then (gate.0, Raised(gate.1.error))
          else if compactStatus != 0 then (gate.0, Raised(CompactFailed))
          else
            BufferSurvivors(n, compacted);
            (gate.0, Replied(ServePacked(Buffer(n, compacted))))
  }

  /** A well-formed argument is never answered with SQL NULL: PostgreSQL
      arrays with one dimension hold at least one element, so the "nothing
      to do" exit only serves a NULL argument. */
  lemma CompactNullOnlyForNullArgument(arg: Option<SqlArray<string>>, stringToH3: string -> H3Index,
                                       cachedLimit: nat, setting: Setting,
                                       compactStatus: int, compacted: seq<H3Index>)
    requires arg.Some? ==> arg.value.WellFormed()
    ensures CompactFirstCall(arg, stringToH3, cachedLimit, setting, compactStatus, compacted).1.SqlNull?
        <==> arg.None?
  {
  }
}
