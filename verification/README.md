# pgh3 core in Dafny

pgh3 is a PostgreSQL extension that exposes Uber's H3 hexagonal grid
library to SQL. Almost every function is one call into H3. This project
models the extension's own logic around those calls and proves properties
about it:

- **Argument shaping.** `__h3_index_from_cstring` rejects the index 0.
  `pg_array_to_h3index_array` turns a `text[]` into an index array and
  checks its dimension, element type, null elements and parse results.
  `__h3_polyfill_build_geopolygon` turns a polygon and an array of
  interior rings into H3's `GeoPolygon`, and
  `__h3_free_geopolygon_internal_structs` releases it again.
- **Zero-slot removal.** After H3 fills a zeroed result buffer, the loop
  in polyfill, compact and k-ring moves every non-zero index to the front
  and counts the survivors into `max_calls`.
- **The set-returning-function protocol.** The first call builds the
  buffer, or finishes at once when `max_calls` is not positive. Each call
  then emits `buf[call_cntr]` until `call_cntr` reaches `max_calls`.
- **The first calls** of `_h3_polyfill_polygon`, `h3_compact`, `h3_kring`
  and `h3_to_children`, plus `_h3_polyfill_polygon_estimate`.
- **`__h3_polyfill_palloc0`**, the memory gate. It reads the
  configured limit once, caches it, defaults it, refuses larger requests
  and chooses the allocator flags. The model also includes the unit-suffix
  choice of `human_byte_size`.
- **`__h3_make_bound_box`**, the bounding box of a polygon.

H3 routines are not modelled. Each one becomes a parameter:

- `stringToH3` is a function from text to index.
- `maxPolyfillSize`, `maxKringSize` and `maxH3ToChildrenSize` are
  32-bit `int` inputs (`Util.Int32`).
- What `polyfill`, `compact`, `kRing` and `h3ToChildren` write is an
  arbitrary sequence, placed into a zeroed buffer of the allocated length
  (`ZeroSlots.Buffer`).

An `ereport(ERROR)` is an `Err`/`Raised` outcome that carries one `Error`
constructor per report site. `H3Index` is a 64-bit unsigned value.

Modules, one per source file, plus shared ones:

| file | module | models |
|---|---|---|
| types.dfy | `Types` | `H3Index`, `Option`, `Result`, the ERROR sites |
| sql_arrays.dfy | `SqlArrays` | one-dimensional PostgreSQL arrays and `array_get_element`'s subscript range |
| util.dfy | `Util` | src/util.c |
| zero_slots.dfy | `ZeroSlots` | the zero-slot loop shared by three SRFs, and its functional meaning |
| srf.dfy | `Srf` | the `FuncCallContext` cursor shared by four SRFs |
| region.dfy | `Region` | src/region.c |
| compact.dfy | `Compact` | src/compact.c |
| neighbor.dfy | `Neighbor` | src/neighbor.c |
| hierarchy.dfy | `Hierarchy` | src/hierarchy.c (the children SRF) |

## Model

| member | source | states |
|---|---|---|
| Util.IndexFromCString | src/util.c:47-56 | The parse succeeds exactly when H3 returns a non-zero index. It then yields that index; otherwise it raises the invalid-index ERROR naming the text. |
| Util.MakeBoundBox | src/util.c:63-92 | For a polygon with at least one point, the box encloses every point. Each of its four sides lies on some point, so it lies within every box that encloses all points. |
| Util.SuffixIndex | src/util.c:94-108 | The suffix index is always below 5, so the table lookup is in bounds. Sizes up to 1024 get "B". A larger size gets the largest `i >= 1` with `1024^i <= size`, capped at "TB". |
| Util.MegabytesToBytes | src/util.c:141 | `(size_t)mb * 1024 * 1024` scales a non-negative setting by 2^20. A negative one wraps modulo 2^64. The result is 0 exactly when the setting is 0. |
| Util.ResolveLimit | src/util.c:123-149 | A cached non-zero limit is used without reading the setting. Otherwise: an unset or zero setting falls back to `MaxAllocSize`; a positive one becomes `mb * 2^20` bytes; a negative one becomes `2^64 + mb * 2^20`, which in effect switches the gate off; an unparsable one raises the configuration ERROR. A resolved limit is never 0. |
| Util.PolyfillAlloc | src/util.c:120-173 | The gate either raises the setting's ERROR or caches the resolved limit. It refuses a request above the limit with the limit-exceeded ERROR, and the limit stays cached even then. Otherwise the flags are exactly `MCXT_ALLOC_ZERO`, or `MCXT_ALLOC_ZERO | MCXT_ALLOC_HUGE` when `!AllocSizeIsValid(size)`; no other bit is set. |
| Util.LimitReadOnce | src/util.c:123-149 | Once a call has cached a limit, later calls keep that cache and behave the same whatever the setting now says. |
| Util.DefaultLimitNeverHuge | src/util.c:146-170 | With no setting, every request that passes the gate fits the standard allocator, so the huge flag is never chosen. |
| SqlArrays.ReadElements | src/compact.c:62-78 | Reading subscripts `first ..` succeeds exactly when every element is non-null and converts. The result holds the converted elements in subscript order. |
| SqlArrays.ReadElementsFailure | src/compact.c:62-76 | A failed read raises the error of the first element in the range that is NULL or does not convert. A NULL reports its own subscript. |
| SqlArrays.ReadCells | src/region.c:99-114 | Reading a one-dimensional array by its own subscripts succeeds exactly when every cell is non-null and converts. The values are the cells' conversions in storage order. Otherwise the first failing cell decides the error. |
| ZeroSlots.NonZero | src/region.c:157-168 | The reference meaning of the loop's survivors: only non-zero values, never more than the buffer holds. |
| ZeroSlots.Buffer | src/region.c:153-154 | A zeroed buffer after H3 wrote into it: the written values inside the buffer, 0 in every slot H3 did not reach. |
| ZeroSlots.FillHoles | src/region.c:157-168 | The in-place loop returns `max_calls` equal to the number of non-zero slots. It leaves the buffer as the non-zero entries in their original order followed by zeros. |
| ZeroSlots.PackedLayout | src/compact.c:129-140 | The packed buffer has the input's length and `max_calls` = length minus the number of zeros. The prefix holds the survivors in order, every later slot is 0, and the buffer is a permutation of the input. |
| ZeroSlots.SurvivorCount | src/neighbor.c:69-80 | `max_calls` is the buffer length minus the number of zero slots. |
| ZeroSlots.NonZeroMultiset | src/neighbor.c:69-80 | The survivors plus the zeros written behind them are exactly the input's entries with their multiplicities. The loop loses, duplicates and invents nothing. |
| ZeroSlots.NonZeroAppend | src/region.c:157-168 | Removing zero slots distributes over concatenation, so survivors keep the relative order they had in the input. |
| ZeroSlots.PackedIdempotent | src/region.c:157-168 | Running the loop again over a packed buffer changes nothing. |
| ZeroSlots.NoSurvivors | src/region.c:172-184 | No index survives exactly when every slot is 0. |
| ZeroSlots.BufferSurvivors | src/neighbor.c:61-67 | The survivors of the zeroed buffer are the non-zero values H3 wrote inside it, in the order written. Slots H3 did not reach contribute nothing. |
| Srf.PerCall | src/region.c:188-205 | A call emits a row exactly when `call_cntr < max_calls`. The row is `buf[call_cntr]` and the counter advances by one. Otherwise the call signals done. |
| Srf.FirstCall | src/region.c:172-186 | The first call is done at once exactly when `max_calls` is not positive. Otherwise it emits `buf[0]`, leaving `call_cntr` at 1. |
| Srf.RowsAreSlice | src/compact.c:161-178 | From any reachable cursor the host receives exactly slots `call_cntr .. max_calls-1`, in order. |
| Srf.QueryRows | src/compact.c:145-178 | A whole query returns `buf[0 .. max_calls-1]` in order, or no row when `max_calls` is not positive. |
| Srf.InvocationsCount | src/neighbor.c:98-115 | The host invokes the function once per row plus once for the final done. |
| Srf.ServePacked | src/region.c:157-205 | Packing the buffer and running the protocol returns exactly the buffer's non-zero slots in buffer order. It returns no row when all slots are 0. |
| Region.ToGeofence | src/region.c:51-65 | The geofence has `numVerts == npts` and one vertex per point in the same order, with latitude from `y` and longitude from `x`. |
| Region.BuildGeoPolygon | src/region.c:67-117 | NULL or an empty rings array gives no holes. More than one dimension, or a non-polygon element type, is an ERROR. Otherwise `numHoles == dim[0]` and hole k is built from ring k. The build succeeds exactly when no ring is NULL, and the first NULL ring raises an ERROR naming its subscript. |
| Region.RingsAsWrittenAgreesAtDefaultBound | src/region.c:104-114 | For rings arrays with lower bound 1, reading subscripts `1..dim[0]` agrees with reading the array's own subscripts. |
| Region.RingsAsWrittenRejectsShiftedArray | src/region.c:104-110 | A rings array with no NULL ring and a lower bound other than 1 is built correctly by its own subscripts. Reading `1..dim[0]` rejects it with a null-ring ERROR. |
| Region.RingsBothReadingsRejectNullRing | src/region.c:104-110 | A rings array holding a NULL ring is rejected with a null-ring ERROR by reading `1..dim[0]` and by reading its own subscripts alike. The subscripts named may differ. |
| Region.RingsAsWrittenRejectsZeroBasedArray | src/region.c:104-110 | One ring stored at subscript 0 gives one hole, built from that ring, when read by its own subscripts. Reading `1..dim[0]` reports subscript 1 as a NULL ring. |
| Region.FreeInternals | src/region.c:36-49 | Release resets the exterior vertex pointer to NULL. When there are holes it also resets the hole list. The counts stay as they were. |
| Region.FreeReleasesEverything | src/region.c:36-49 | For any successfully built polygon, no vertex or hole buffer is still held after release. |
| Region.PolyfillFirstCall | src/region.c:130-186 | A NULL exterior ring returns NULL. A failing build (rings read by their own subscripts, see Findings) raises its ERROR. A buffer of `maxPolyfillSize` slots that plain `palloc0` refuses (a negative count, which wraps to a huge `size_t`, or 2^27 slots or more, which exceed `MaxAllocSize`) raises the invalid-allocation ERROR. The call raises in exactly these two cases. Otherwise the query returns the non-zero indexes H3 wrote within the buffer, in order, never more than the buffer's size. It returns no row exactly when H3 wrote none. |
| Region.PolyfillEstimate | src/region.c:209-234 | A NULL exterior ring returns NULL, a failing build (rings read by their own subscripts, see Findings) raises the same ERROR, and otherwise H3's size estimate is returned. |
| Region.EstimateBoundsPolyfill | src/region.c:130-153 | The estimate and the polyfill return NULL on the same arguments. Every ERROR of the estimate is also the polyfill's ERROR. When the estimate fits a plain `palloc0`, the two raise on exactly the same arguments. An estimate that does not fit is returned while the polyfill raises the invalid-allocation ERROR. The estimate bounds the number of rows the polyfill returns. |
| Compact.ArrayToIndexes | src/compact.c:36-86 | A NULL array gives no indexes. Otherwise `ndim != 1` is an ERROR, and so is a non-text element type. The read succeeds exactly when every element is non-null and parses to a non-zero index, and then `result[k]` is the parse of element k. Otherwise the first failing element decides the ERROR: a NULL names its subscript, and a bad string is reported with its text. |
| Compact.IndexesAsWrittenAgreesAtDefaultBound | src/compact.c:62-80 | For arrays with lower bound 1, reading subscripts `1..dim[0]` agrees with reading the array's own subscripts. |
| Compact.IndexesAsWrittenRejectsShiftedArray | src/compact.c:62-68 | An array of valid indexes with a lower bound other than 1 converts correctly by its own subscripts. Reading `1..dim[0]` rejects it with a null-element ERROR. |
| Compact.IndexesBothReadingsRejectInvalid | src/compact.c:62-78 | An array holding a NULL element or a string H3 cannot parse is rejected by reading `1..dim[0]` and by reading its own subscripts alike. The ERRORs may differ. |
| Compact.IndexesAsWrittenRejectsZeroBasedArray | src/compact.c:62-68 | `'[0:0]={8928308280fffff}'::text[]` converts to its one index by its own subscripts. Reading `1..dim[0]` reports subscript 1 as NULL. |
| Compact.CompactFirstCall | src/compact.c:100-159 | NULL input returns NULL, and errors of the conversion (elements read by their own subscripts, see Findings) propagate. A non-empty index list asks the gate for `n * 8` bytes, whose ERROR propagates and whose cache survives. A non-zero compact status raises the compaction ERROR. Otherwise the rows are the non-zero compacted indexes in order, never more than the input indexes. |
| Compact.CompactNullOnlyForNullArgument | src/compact.c:100-117 | For well-formed arrays, compact answers NULL exactly when its argument is NULL. A one-dimensional array always holds an element, so the "nothing to do" exit never serves a non-NULL argument. |
| Neighbor.KringFirstCall | src/neighbor.c:49-96 | An unparsable centre raises the invalid-index ERROR. Otherwise a buffer of `maxKringSize` slots that plain `palloc0` refuses (a negative count, or 2^27 slots or more) raises the invalid-allocation ERROR. The call raises in exactly these two cases. Otherwise the rows are the non-zero neighbours kRing wrote within the buffer, in order, never more than its size. There are no rows exactly when it wrote none. |
| Hierarchy.ChildrenFirstCall | src/hierarchy.c:75-110 | An unparsable parent raises the invalid-index ERROR. Otherwise a buffer of `maxH3ToChildrenSize` slots that plain `palloc0` refuses (a negative count, or 2^27 slots or more) raises the invalid-allocation ERROR. The call raises in exactly these two cases. Otherwise `max_calls` and the buffer length are both `maxH3ToChildrenSize`, and the query is done at once exactly when that is 0. Every slot is returned, in buffer order, zero slots included. |
| Hierarchy.ChildrenKeepZeroSlots | src/hierarchy.c:93-122 | When the parent parses and the buffer is allocated, a slot that `h3ToChildren` leaves 0 is returned as a row. Unlike the other three SRFs, the children query does not filter zero slots. |

## Left out

- H3 library routines (`stringToH3`, `h3ToString`, `polyfill`, `maxPolyfillSize`, `compact`, `kRing`, `maxKringSize`, `h3ToChildren`, `maxH3ToChildrenSize`, `h3ToParent`): these are foreign code. Their results are parameters.
- `__h3_index_to_text` and the text form of emitted rows: this is H3's `h3ToString`. Rows are modelled as index values.
- `degsToRads` in `__h3_pgpolygon_to_geofence`: this is a floating-point scaling. Coordinates stay in degrees.
- The formatted `%.02lf` text of `human_byte_size` and every `report_debug1` message: these are floating-point formatting and logging. Only the suffix index is modelled.
- Memory contexts, `palloc`/`pfree` and `get_typlenbyvalalign`: PostgreSQL machinery. Allocation is represented by the zeroed buffer and by the flags the gate chooses.
- The `PG_VERSION_NUM <= 100000` build of the gate, where the setting is never read: the model follows the PostgreSQL 10+ build.
- `parse_int` with `GUC_UNIT_MB`: the setting arrives already classified as unset, unparsable or a megabyte count.
- h3_to_parent, src/index.c, src/misc.c and src/pgh3.c: each is a one-line wrapper around H3, a floating-point conversion, or the version string.
- NULL text arguments of `h3_kring` and `h3_to_children`: the SQL declarations that make these functions strict are not part of this model, so their text arguments are taken as present.
- The "could not parse the h3 index at array position" ERROR of src/compact.c:73-76: `__h3_index_from_cstring` already raises its own ERROR for a bad string, so this branch is unreachable and `Compact.ArrayToIndexes` reports the inner error.
- Polyfill's, k-ring's and children's result buffers: these are allocated with plain `palloc0`, not through the memory gate. Only compact's result buffer passes the gate. The model follows the code: a plain allocation of a negative slot count or of more than `MaxAllocSize` bytes raises `AllocRequestTooLarge`, and no limit setting applies.
- Region.PolyfillFirstCall: builds the polygon with the corrected `Region.BuildGeoPolygon`, which reads the rings by the array's own subscripts. For a rings array whose lower bound is 1 this equals the source (`Region.RingsAsWrittenAgreesAtDefaultBound`). For any other lower bound, on a rings array with no NULL ring, the source raises a NULL-ring ERROR at src/region.c:108-109 (`Region.RingsAsWrittenRejectsShiftedArray`), where this member goes on to the allocation and the rows. On a rings array holding a NULL ring, both readings raise a NULL-ring ERROR, possibly naming different subscripts (`Region.RingsBothReadingsRejectNullRing`).
- Region.PolyfillEstimate: uses the corrected `Region.BuildGeoPolygon` in the same way, so for a rings array with a lower bound other than 1 and no NULL ring it returns the estimate where the source's build raises. On a rings array holding a NULL ring both raise a NULL-ring ERROR, possibly naming different subscripts.
- Compact.CompactFirstCall: converts with the corrected `Compact.ArrayToIndexes`. For arrays with lower bound 1 this equals the source (`Compact.IndexesAsWrittenAgreesAtDefaultBound`). For any other lower bound, on an array whose every element is a valid index, the source raises a null-element ERROR at src/compact.c:66-67 (`Compact.IndexesAsWrittenRejectsShiftedArray`), where this member goes on to the gate and the compaction. On an array holding a NULL element or an unparsable string, both readings raise, possibly with different ERRORs (`Compact.IndexesBothReadingsRejectInvalid`).
- Region.FreeInternals: the per-hole `verts = NULL` resets are not modelled separately, because the hole list holding them is itself released and reset.
- ZeroSlots.FillHoles: the loop runs over an `array` in place. Its contract speaks of the array before and after, and the same facts are stated over sequences by `ZeroSlots.PackedLayout` and `Srf.ServePacked`.

## Findings

| source | as written | input that shows it | evidently intended | confidence | as-written member | corrected member |
|---|---|---|---|---|---|---|
| src/compact.c:62-68 | The elements are fetched with subscripts `1 .. dim[0]`, ignoring the array's lower bound. `array_get_element` reads a subscript outside `[lbound, lbound + dim[0])` as NULL. | `'[0:0]={8928308280fffff}'::text[]` is rejected as "h3 index at array position 1 is null". | Read subscripts `lbound .. lbound + dim[0] - 1`, so every array of valid indexes converts. | medium, not executed | Compact.ArrayToIndexesAsWritten, Compact.IndexesAsWrittenRejectsZeroBasedArray, Compact.IndexesAsWrittenRejectsShiftedArray | Compact.ArrayToIndexes |
| src/region.c:104-110 | The interior rings are fetched with subscripts `1 .. dim[0]`, ignoring the array's lower bound. | Any rings array with no NULL ring and a lower bound other than 1, such as one polygon stored at subscript 0, is rejected as a NULL ring. | Read subscripts `lbound .. lbound + dim[0] - 1`, so every array of non-NULL rings builds its holes. | medium, not executed | Region.BuildGeoPolygonAsWritten, Region.RingsAsWrittenRejectsZeroBasedArray, Region.RingsAsWrittenRejectsShiftedArray | Region.BuildGeoPolygon |
