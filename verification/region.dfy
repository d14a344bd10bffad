/** src/region.c: turning a PostgreSQL polygon and an array of interior
    rings into H3's `GeoPolygon`, releasing it again, and the two SQL
    functions built on it, the polyfill set-returning function and its
    size estimate. */
module Region {
  import opened Types
  import opened SqlArrays
  import opened Util
  import opened ZeroSlots
  import opened Srf

  /** A vertex handed to H3. H3 wants radians; the degree-to-radian
      scaling is a floating-point multiplication and is left out, so the
      coordinates stay in degrees. */
  datatype GeoCoord = GeoCoord(lat: real, lon: real)

  /** `verts` is `None` where the C pointer is NULL. */
  datatype Geofence = Geofence(numVerts: int, verts: Option<seq<GeoCoord>>)

  datatype GeoPolygon = GeoPolygon(geofence: Geofence, numHoles: int, holes: Option<seq<Geofence>>)

  /** `__h3_pgpolygon_to_geofence`: one vertex per polygon point, in the
      same order, latitude taken from `y` and longitude from `x`. */
  function ToGeofence(poly: Polygon): (g: Geofence)
    ensures g.numVerts == |poly.pts|
    ensures g.verts.Some? && |g.verts.value| == |poly.pts|
    ensures forall i :: 0 <= i < |poly.pts| ==> g.verts.value[i] == GeoCoord(poly.pts[i].y, poly.pts[i].x)
  {
    Geofence(|poly.pts|, Some(seq(|poly.pts|, i requires 0 <= i < |poly.pts| => GeoCoord(poly.pts[i].y, poly.pts[i].x))))
  }

  /** Converting one interior ring never fails. */
  function RingToHole(ring: Polygon): Result<Geofence> {
    Ok(ToGeofence(ring))
  }

  function NullRingAt(position: int): Error {
    NullRing(position)
  }

  /** The validation shared by both readings of the interior rings: `None`
      when there are no rings to read, otherwise the array to read or the
      ERROR it raises. */
  function RingsArray(interior: Option<SqlArray<Polygon>>): Option<Result<SqlArray<Polygon>>> {
    if interior.None? || interior.value.ndim == 0 then None
    else if interior.value.ndim != 1 then Some(Err(RingsArrayBadDimension))
    else if interior.value.elemType != PolygonType then Some(Err(RingsArrayNotPolygon))
    else Some(Ok(interior.value))
  }

  /** `__h3_polyfill_build_geopolygon`, reading the rings by the array's own
      subscripts. NULL or an empty array gives no holes; more than one
      dimension or a non-polygon element type is an ERROR; otherwise there
      is one hole per ring, in array order, and a NULL ring is an ERROR
      naming its subscript. */
  function BuildGeoPolygon(exterior: Polygon, interior: Option<SqlArray<Polygon>>): (r: Result<GeoPolygon>)
    ensures r.Ok? ==> r.value.geofence == ToGeofence(exterior)
    ensures interior.None? ==> r == Ok(GeoPolygon(ToGeofence(exterior), 0, None))
    ensures interior.Some? && interior.value.ndim == 0 ==> r == Ok(GeoPolygon(ToGeofence(exterior), 0, None))
    ensures interior.Some? && interior.value.ndim > 1 ==> r == Err(RingsArrayBadDimension)
    ensures interior.Some? && interior.value.ndim == 1 && interior.value.elemType != PolygonType
        ==> r == Err(RingsArrayNotPolygon)
    ensures interior.Some? && interior.value.ndim == 1 && interior.value.elemType == PolygonType ==>
      (r.Ok? <==> forall k :: 0 <= k < |interior.value.cells| ==> interior.value.cells[k].Some?)
    ensures r.Ok? && interior.Some? && interior.value.ndim > 0 ==>
      && r.value.numHoles == |interior.value.cells|
      && r.value.holes.Some? && |r.value.holes.value| == r.value.numHoles
      && forall k :: 0 <= k < |interior.value.cells| ==>
           interior.value.cells[k].Some? && r.value.holes.value[k] == ToGeofence(interior.value.cells[k].value)
    ensures r.Err? && interior.Some? && interior.value.ndim == 1 && interior.value.elemType == PolygonType ==>
      exists k :: 0 <= k < |interior.value.cells| && interior.value.cells[k].None?
        && (forall j :: 0 <= j < k ==> interior.value.cells[j].Some?)
        && r.error == NullRing(interior.value.lbound + k)
  {
    var fence := ToGeofence(exterior);
    match RingsArray(interior)
    case None => Ok(GeoPolygon(fence, 0, None))
    case Some(Err(e)) => Err(e)
    case Some(Ok(a)) =>
      var read := ReadCells(a, RingToHole, NullRingAt);
      assert forall k :: 0 <= k < |a.cells| ==> (CellReadable(a, RingToHole, k) <==> a.cells[k].Some?);
      match read
      case Err(e) => Err(e)
      case Ok(hs) => Ok(GeoPolygon(fence, |a.cells|, Some(hs)))
  }

  /** The same function as the source writes it: the rings are fetched with
      subscripts `1 .. dim[0]` whatever the array's lower bound is. */
  function BuildGeoPolygonAsWritten(exterior: Polygon, interior: Option<SqlArray<Polygon>>): Result<GeoPolygon> {
    var fence := ToGeofence(exterior);
    match RingsArray(interior)
    case None => Ok(GeoPolygon(fence, 0, None))
    case Some(Err(e)) => Err(e)
    case Some(Ok(a)) =>
      match ReadElements(a, 1, |a.cells|, RingToHole, NullRingAt)
      case Err(e) => Err(e)
      case Ok(hs) => Ok(GeoPolygon(fence, |a.cells|, Some(hs)))
  }

  /** For arrays with the default lower bound 1 the two readings agree. */
  lemma RingsAsWrittenAgreesAtDefaultBound(exterior: Polygon, interior: Option<SqlArray<Polygon>>)
    requires interior.Some? ==> interior.value.lbound == 1
    ensures BuildGeoPolygonAsWritten(exterior, interior) == BuildGeoPolygon(exterior, interior)
  {
  }

  /** With any other lower bound, subscript 1 or subscript `dim[0]` lies
      outside the array and reads as NULL, so a rings array without a
      single NULL ring is rejected as if it had one. */
  lemma RingsAsWrittenRejectsShiftedArray(exterior: Polygon, a: SqlArray<Polygon>)
    requires a.ndim == 1 && a.elemType == PolygonType && |a.cells| > 0
    requires forall k :: 0 <= k < |a.cells| ==> a.cells[k].Some?
    requires a.lbound != 1
    ensures BuildGeoPolygon(exterior, Some(a)).Ok?
    ensures BuildGeoPolygonAsWritten(exterior, Some(a)).Err?
    ensures BuildGeoPolygonAsWritten(exterior, Some(a)).error.NullRing?
  {
    var sub := if a.lbound > 1 then 1 else |a.cells|;
    assert !Readable(a, RingToHole, sub);
    var r := ReadElements(a, 1, |a.cells|, RingToHole, NullRingAt);
    assert r.Err?;
    ReadElementsFailure(a, 1, |a.cells|, RingToHole, NullRingAt);
    var s :| s < 1 + |a.cells| && FailsFirstAt(a, RingToHole, NullRingAt, 1, s, r.error);
  }

  /** A rings array holding a NULL ring is rejected by both readings with
      a null-ring ERROR, though the subscripts they name may differ. */
  lemma RingsBothReadingsRejectNullRing(exterior: Polygon, a: SqlArray<Polygon>)
    requires a.ndim == 1 && a.elemType == PolygonType
    requires exists k :: 0 <= k < |a.cells| && a.cells[k].None?
    ensures BuildGeoPolygon(exterior, Some(a)).Err?
    ensures BuildGeoPolygon(exterior, Some(a)).error.NullRing?
    ensures BuildGeoPolygonAsWritten(exterior, Some(a)).Err?
    ensures BuildGeoPolygonAsWritten(exterior, Some(a)).error.NullRing?
  {
    if a.lbound == 1 {
      RingsAsWrittenAgreesAtDefaultBound(exterior, Some(a));
    } else {
      var sub := if a.lbound > 1 then 1 else |a.cells|;
      assert !Readable(a, RingToHole, sub);
      var r := ReadElements(a, 1, |a.cells|, RingToHole, NullRingAt);
      assert r.Err?;
      ReadElementsFailure(a, 1, |a.cells|, RingToHole, NullRingAt);
      var s :| s < 1 + |a.cells| && FailsFirstAt(a, RingToHole, NullRingAt, 1, s, r.error);
    }
  }

  /** A concrete instance: one ring stored at subscript 0
      (`'[0:0]={...}'::polygon[]`) gives one hole when read by its own
      subscripts, and is rejected as a NULL ring at subscript 1 by the
      source's reading. */
  lemma RingsAsWrittenRejectsZeroBasedArray(exterior: Polygon, ring: Polygon)
    ensures BuildGeoPolygon(exterior, Some(SqlArray(1, 0, PolygonType, [Some(ring)])))
         == Ok(GeoPolygon(ToGeofence(exterior), 1, Some([ToGeofence(ring)])))
    ensures BuildGeoPolygonAsWritten(exterior, Some(SqlArray(1, 0, PolygonType, [Some(ring)])))
         == Err(NullRing(1))
  {
    var a := SqlArray(1, 0, PolygonType, [Some(ring)]);
    assert a.Get(1).None?;
    var r := BuildGeoPolygon(exterior, Some(a));
    assert r.Ok? && r.value.holes.value == [ToGeofence(ring)];
  }

  /** `__h3_free_geopolygon_internal_structs`: the exterior vertices are
      released, and so are the holes when there are any; every released
      pointer is reset to NULL and the counts stay as they were. */
  function FreeInternals(g: GeoPolygon): (r: GeoPolygon)
    ensures r.geofence.verts.None? && r.geofence.numVerts == g.geofence.numVerts
    ensures r.numHoles == g.numHoles
    ensures g.numHoles > 0 ==> r.holes.None?
    ensures g.numHoles <= 0 ==> r.holes == g.holes
  {
    GeoPolygon(g.geofence.(verts := None), g.numHoles, if g.numHoles > 0 then None else g.holes)
  }

  /** No buffer of a polygon built from PostgreSQL values outlives the
      release: a rings array with dimensions always holds a ring, so the
      hole list is released whenever it was allocated. */
  lemma FreeReleasesEverything(exterior: Polygon, interior: Option<SqlArray<Polygon>>)
    requires interior.Some? ==> interior.value.WellFormed()
    requires BuildGeoPolygon(exterior, interior).Ok?
    ensures FreeInternals(BuildGeoPolygon(exterior, interior).value).geofence.verts.None?
    ensures FreeInternals(BuildGeoPolygon(exterior, interior).value).holes.None?
  {
  }

  /** The first call of `_h3_polyfill_polygon`. `numHexagons` stands for
      H3's `maxPolyfillSize` and `filled` for what `polyfill` writes into
      the zeroed buffer of that many slots. A NULL exterior ring returns
      NULL before anything is allocated; a bad rings argument is an ERROR;
      a slot count plain `palloc0` refuses, negative or too large, is an
      ERROR; otherwise the query returns the non-zero indexes H3 wrote
      within the buffer, in the order it wrote them, never more than the
      estimate, and no row at all when it wrote none. */
  function PolyfillFirstCall(exterior: Option<Polygon>, interior: Option<SqlArray<Polygon>>,
                             numHexagons: Int32, filled: seq<H3Index>): (r: Outcome)
    ensures r.Valid()
    ensures r.SqlNull? <==> exterior.None?
    ensures exterior.Some? ==>
      (r.Raised? <==> BuildGeoPolygon(exterior.value, interior).Err? || !SlotsFit(numHexagons))
    ensures r.Raised? && BuildGeoPolygon(exterior.value, interior).Err? ==>
      r.error == BuildGeoPolygon(exterior.value, interior).error
    ensures r.Raised? && BuildGeoPolygon(exterior.value, interior).Ok? ==>
      r.error == AllocRequestTooLarge(SlotBytes(numHexagons))
    ensures r.Replied? ==> Emitted(r) == NonZero(filled[..Reach(numHexagons, filled)])
    ensures r.Replied? ==> |Emitted(r)| <= numHexagons
    ensures r.Replied? ==>
      (r.reply.Done? <==> forall k :: 0 <= k < Reach(numHexagons, filled) ==> filled[k] == 0)
  {
    if exterior.None? then SqlNull
    else
      match BuildGeoPolygon(exterior.value, interior)
      case Err(e) => Raised(e)
      case Ok(_) =>
        if !SlotsFit(numHexagons) then Raised(AllocRequestTooLarge(SlotBytes(numHexagons)))
        else
          BufferSurvivors(numHexagons, filled);
          NoSurvivors(filled[..Reach(numHexagons, filled)]);
          Replied(ServePacked(Buffer(numHexagons, filled)))
  }

  /** A scalar SQL result: NULL, an ERROR, or an integer. */
  datatype Scalar = NullScalar | ScalarError(error: Error) | Value(n: int)

  /** `_h3_polyfill_polygon_estimate`: the same argument handling as the
      polyfill, returning H3's `maxPolyfillSize` unchanged. */
  function PolyfillEstimate(exterior: Option<Polygon>, interior: Option<SqlArray<Polygon>>,
                            maxPolyfillSize: int): (r: Scalar)
    ensures r.NullScalar? <==> exterior.None?
    ensures exterior.Some? ==> (r.ScalarError? <==> BuildGeoPolygon(exterior.value, interior).Err?)
    ensures r.ScalarError? ==> r.error == BuildGeoPolygon(exterior.value, interior).error
    ensures r.Value? ==> r.n == maxPolyfillSize
  {
    if exterior.None? then NullScalar
    else
      match BuildGeoPolygon(exterior.value, interior)
      case Err(e) => ScalarError(e)
      case Ok(_) => Value(maxPolyfillSize)
  }

  /** The estimate and the polyfill return NULL on the same arguments.
      When the estimate fits a plain allocation they also raise on the same
      arguments, with the same ERROR; an estimate that does not fit is
      returned while the polyfill raises for its allocation. The estimate
      bounds the number of rows the polyfill returns. */
  lemma EstimateBoundsPolyfill(exterior: Option<Polygon>, interior: Option<SqlArray<Polygon>>,
                               numHexagons: Int32, filled: seq<H3Index>)
    ensures PolyfillEstimate(exterior, interior, numHexagons).NullScalar?
        <==> PolyfillFirstCall(exterior, interior, numHexagons, filled).SqlNull?
    ensures SlotsFit(numHexagons) ==>
      PolyfillEstimate(exterior, interior, numHexagons).ScalarError?
        == PolyfillFirstCall(exterior, interior, numHexagons, filled).Raised?
    ensures PolyfillEstimate(exterior, interior, numHexagons).ScalarError? ==>
      PolyfillFirstCall(exterior, interior, numHexagons, filled)
        == Raised(PolyfillEstimate(exterior, interior, numHexagons).error)
    ensures PolyfillEstimate(exterior, interior, numHexagons).Value? && !SlotsFit(numHexagons) ==>
      PolyfillFirstCall(exterior, interior, numHexagons, filled) == Raised(AllocRequestTooLarge(SlotBytes(numHexagons)))
    ensures PolyfillFirstCall(exterior, interior, numHexagons, filled).Replied? ==>
      && PolyfillEstimate(exterior, interior, numHexagons).Value?
      && |Emitted(PolyfillFirstCall(exterior, interior, numHexagons, filled))|
           <= PolyfillEstimate(exterior, interior, numHexagons).n
  {
  }
}
