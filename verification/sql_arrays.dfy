/** PostgreSQL arrays as the extension sees them: a number of dimensions,
    the lower bound of the first dimension, an element type, and the
    cells in storage order (a cell is `None` when it is SQL NULL). Only the
    one-dimensional case is ever read element by element. */
module SqlArrays {
  import opened Types

  /** The element type OID, reduced to the two types the extension checks. */
  datatype ElemType = TextType | PolygonType | OtherType(oid: int)

  datatype SqlArray<T> = SqlArray(ndim: nat, lbound: int, elemType: ElemType, cells: seq<Option<T>>)
  {
    /** PostgreSQL represents every empty array with zero dimensions, and
        every array with at least one dimension holds at least one cell. */
    predicate WellFormed() {
      (ndim == 0) == (|cells| == 0)
    }

    /** `array_get_element` on a one-dimensional array: the valid
        subscripts run from `lbound` to `lbound + dim[0] - 1`, and a
        subscript outside that range reads as NULL. */
    function Get(sub: int): (r: Option<T>)
      ensures lbound <= sub < lbound + |cells| ==> r == cells[sub - lbound]
      ensures !(lbound <= sub < lbound + |cells|) ==> r.None?
    {
      if lbound <= sub < lbound + |cells| then cells[sub - lbound] else None
    }
  }

  /** Element `sub` is non-null and converts without error. */
  predicate Readable<T, U>(a: SqlArray<T>, conv: T -> Result<U>, sub: int) {
    a.Get(sub).Some? && conv(a.Get(sub).value).Ok?
  }

  /** The error raised when element `sub` is not readable. */
  function FailureAt<T, U>(a: SqlArray<T>, conv: T -> Result<U>, onNull: int -> Error, sub: int): Error
    requires !Readable(a, conv, sub)
  {
    if a.Get(sub).None? then onNull(sub) else conv(a.Get(sub).value).error
  }

  /** The converted value of a readable element. */
  function Converted<T, U>(a: SqlArray<T>, conv: T -> Result<U>, sub: int): U
    requires Readable(a, conv, sub)
  {
    conv(a.Get(sub).value).value
  }

  /** The loop `for (i = first; i < first + count; i++)` that fetches each
      element, raises `onNull(i)` on a NULL and otherwise converts it; the
      first element that fails ends the loop with its error. */
  function ReadElements<T, U>(a: SqlArray<T>, first: int, count: nat, conv: T -> Result<U>, onNull: int -> Error)
    : (r: Result<seq<U>>)
    decreases count
    ensures r.Ok? <==> forall sub :: first <= sub < first + count ==> Readable(a, conv, sub)
    ensures r.Ok? ==> |r.value| == count
    ensures r.Ok? ==> forall k :: 0 <= k < count ==>
      Readable(a, conv, first + k) && r.value[k] == Converted(a, conv, first + k)
  {
    if count == 0 then Ok([])
    else if !Readable(a, conv, first) then Err(FailureAt(a, conv, onNull, first))
    else
      var head := Converted(a, conv, first);
      match ReadElements(a, first + 1, count - 1, conv, onNull)
      case Err(e) => Err(e)
      case Ok(rest) => Ok([head] + rest)
  }

  /** Subscript `sub` is the first of those from `first` on that is not
      readable, and `e` is the error it raises. */
  predicate FailsFirstAt<T, U>(a: SqlArray<T>, conv: T -> Result<U>, onNull: int -> Error,
                               first: int, sub: int, e: Error) {
    && first <= sub && !Readable(a, conv, sub)
    && (forall s :: first <= s < sub ==> Readable(a, conv, s))
    && e == FailureAt(a, conv, onNull, sub)
  }

  /** A failed read reports the error of the first element in the range
      that is NULL or does not convert. */
  lemma {:induction false} ReadElementsFailure<T, U>(a: SqlArray<T>, first: int, count: nat,
                                                     conv: T -> Result<U>, onNull: int -> Error)
    requires ReadElements(a, first, count, conv, onNull).Err?
    ensures exists sub ::
      sub < first + count && FailsFirstAt(a, conv, onNull, first, sub, ReadElements(a, first, count, conv, onNull).error)
    decreases count
  {
    var e := ReadElements(a, first, count, conv, onNull).error;
    if !Readable(a, conv, first) {
      assert FailsFirstAt(a, conv, onNull, first, first, e);
    } else {
      ReadElementsFailure(a, first + 1, count - 1, conv, onNull);
      var sub :| sub < first + count && FailsFirstAt(a, conv, onNull, first + 1, sub, e);
      assert FailsFirstAt(a, conv, onNull, first, sub, e);
    }
  }

  /** Cell `k` is non-null and converts without error. */
  predicate CellReadable<T, U>(a: SqlArray<T>, conv: T -> Result<U>, k: int)
    requires 0 <= k < |a.cells|
  {
    a.cells[k].Some? && conv(a.cells[k].value).Ok?
  }

  /** The error raised for an unreadable cell `k`, reported at its
      subscript. */
  function CellFailure<T, U>(a: SqlArray<T>, conv: T -> Result<U>, onNull: int -> Error, k: int): Error
    requires 0 <= k < |a.cells| && !CellReadable(a, conv, k)
  {
    if a.cells[k].None? then onNull(a.lbound + k) else conv(a.cells[k].value).error
  }

  /** Reading every element of a one-dimensional array by its own
      subscripts `lbound .. lbound + dim[0] - 1`: all cells convert, in
      storage order, or the first cell that does not decides the error. */
  function ReadCells<T, U>(a: SqlArray<T>, conv: T -> Result<U>, onNull: int -> Error): (r: Result<seq<U>>)
    ensures r.Ok? <==> forall k :: 0 <= k < |a.cells| ==> CellReadable(a, conv, k)
    ensures r.Ok? ==> |r.value| == |a.cells|
    ensures r.Ok? ==> forall k :: 0 <= k < |a.cells| ==>
      a.cells[k].Some? && conv(a.cells[k].value).Ok? && r.value[k] == conv(a.cells[k].value).value
    ensures r.Err? ==>
      exists k :: 0 <= k < |a.cells| && !CellReadable(a, conv, k)
        && (forall j :: 0 <= j < k ==> CellReadable(a, conv, j))
        && r.error == CellFailure(a, conv, onNull, k)
  {
    var r := ReadElements(a, a.lbound, |a.cells|, conv, onNull);
    CellsAreSubscripts(a, conv);
    if r.Ok? then
      ReadCellsValues(a, conv, onNull);
      r
    else
      ReadCellsFailure(a, conv, onNull);
      r
  }

  /** Cell `k` is the element at subscript `lbound + k`. */
  lemma CellsAreSubscripts<T, U>(a: SqlArray<T>, conv: T -> Result<U>)
    ensures forall k :: 0 <= k < |a.cells| ==> (CellReadable(a, conv, k) <==> Readable(a, conv, a.lbound + k))
  {
  }

  lemma ReadCellsValues<T, U>(a: SqlArray<T>, conv: T -> Result<U>, onNull: int -> Error)
    requires ReadElements(a, a.lbound, |a.cells|, conv, onNull).Ok?
    ensures forall k :: 0 <= k < |a.cells| ==>
      a.cells[k].Some? && conv(a.cells[k].value).Ok?
        && ReadElements(a, a.lbound, |a.cells|, conv, onNull).value[k] == conv(a.cells[k].value).value
  {
    var r := ReadElements(a, a.lbound, |a.cells|, conv, onNull);
    forall k | 0 <= k < |a.cells|
      ensures a.cells[k].Some? && conv(a.cells[k].value).Ok? && r.value[k] == conv(a.cells[k].value).value
    {
      assert Readable(a, conv, a.lbound + k) && r.value[k] == Converted(a, conv, a.lbound + k);
      assert a.Get(a.lbound + k) == a.cells[k];
    }
  }

  lemma ReadCellsFailure<T, U>(a: SqlArray<T>, conv: T -> Result<U>, onNull: int -> Error)
    requires ReadElements(a, a.lbound, |a.cells|, conv, onNull).Err?
    ensures exists k ::
      && 0 <= k < |a.cells| && !CellReadable(a, conv, k)
      && (forall j :: 0 <= j < k ==> CellReadable(a, conv, j))
      && ReadElements(a, a.lbound, |a.cells|, conv, onNull).error == CellFailure(a, conv, onNull, k)
  {
    var e := ReadElements(a, a.lbound, |a.cells|, conv, onNull).error;
    ReadElementsFailure(a, a.lbound, |a.cells|, conv, onNull);
    var sub :| sub < a.lbound + |a.cells| && FailsFirstAt(a, conv, onNull, a.lbound, sub, e);
    var k := sub - a.lbound;
    forall j | 0 <= j < k ensures CellReadable(a, conv, j) {
      assert Readable(a, conv, a.lbound + j);
    }
    assert !CellReadable(a, conv, k);
  }
}
