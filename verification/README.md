# Verified model of fensor's index arithmetic

fensor is a lazy tensor engine over block storage. Below its filesystem and its
asynchronous streams lies index arithmetic: every logical coordinate of every
transformed view must reach one block and one offset, and many fast paths
(arithmetic progressions, block-boundary splitting, occupancy indexes, packed
groups, tiled matrix plans) must agree with the plain form, which resolves one
coordinate and reads one element. This project models those paths in Dafny and
proves that agreement for all shapes, transform chains and requests.

`dafny verify dfyconfig.toml` checks the whole project.

## How to read it

| part | modules |
|---|---|
| mixed-radix arithmetic | `Radix`, `Odometer`, `KeyScans`, `Buckets`, `Grouping` |
| requests and progressions | `Request`, `RequestChecks`, `Progressions`, `Mapped`, `TiledRequests` |
| coordinate maps and ranges | `Mapping`, `Transforms`, `Ranges`, `Reshaping`, `StorageSlices`, `ViewBounds` |
| read and write planning | `Geometry`, `Schema`, `Blocks`, `Runs`, `StorageRead`, `BlockData`, `TensorWrites` |
| sparse store and construction | `SparseStore`, `Construction` |
| slices and indexed traversal | `Slices`, `SliceChunks`, `Occupied`, `OrderedTraversal`, `SparseViews` |
| reductions | `Reduce`, `Statistics`, `ReduceAxes` |
| expressions | `Expressions`, `Merging`, `SparseReading`, `Driver`, `Evaluation`, `Release` |
| matrix products | `MatrixPlans`, `RectanglePlans`, `CartesianPlans`, `LinearPlans`, `TilePlans`, `Matmul` |

Each method is proved against a reference: a per-coordinate function
(`StorageRead.Offsets` with `StorageRead.Located`, `Mapped.MapOffsets`,
`TilePlans.Targets`), a definition (`Slices.Product`, `BlockData.WriteEach`,
`Statistics.Summary`, `Matmul.Product`), a geometric index map
(`Transforms.Phi`), a recursion (`Driver.Eval`), the value of an expression
(`Expressions.Value`) or reachability (`Release.Reachable`). "Reachable map" in the table means `Mapping.Good`, which
the identity has and every successful transform keeps, for ranks below 2^60.

Conventions:

- `u64` and `usize` are unbounded naturals with the source's checked operations
  written out against `U64_MAX`; `i128` is `int` with explicit `InI128` tests.
- Callbacks that receive runs or positions, and streams of batches, become
  sequences or cursor classes. Ordered maps become Dafny maps or association
  lists: plans and groups may be produced in another order than the source's
  key order, which no result depends on.
- An expression is a tree (`Expressions.Expr`) over native sources, stored sparse
  tensors and views of them. Elements of all types share one universe, and every
  expression knows the zero of its own element type. Reading, reducing and
  multiplying trees evaluates every batch on the frame-stack driver, so its bound
  on frames (`Evaluation.EvaluationFits`) and the overflow of unused steps
  (`Evaluation.Readable`) appear in their contracts. In the contracts of
  `Matmul.Build` and `ReduceAxes.Build` the bound on frames is counted from the
  operand's own frame, as if the bottom frame of the stack asked for it: the frames
  below the product or the reduction come on top.
- Error payloads are omitted; `MappingOverflow` and `FrameLimit` name two causes
  that the source reports under broader kinds.
- Sorting, removing duplicates, binary search and the backend matrix product are
  specification functions.
- `upsert_sorted` and `try_update` of the block table are map updates;
  returning nothing from `try_update` removes the row.

## Properties that are false of the code

The model keeps the code as it is and proves the exact condition under which it
meets the property.

- Planning every valid request succeeds: false. An interval of one element may
  carry any step, and the planner multiplies that unused step by the stride. The
  product can leave `i128`. `StorageRead.PlanCanFail` gives a request;
  `StorageRead.Plan`, `Mapped.MapRequest` and `Progressions.PlanProgressions`
  succeed if and only if no such product overflows.
- Slicing with acceptable bounds succeeds: false for the same reason.
  `Transforms.SliceCanFail` gives a slice, and `Transforms.Slice` states the exact
  condition.
- Reading an accepted range of a shallow expression succeeds: false for the same
  reason. `SparseReading.ReadCanFail` gives a range: shape `[1, 2^63 + 1]`, one
  element, its row written with step 2^64 - 1. `SparseReading.ReadSparse` and
  `SparseReading.ReadRange` succeed if and only if every request they make can be
  evaluated, which holds whenever no step of the range overflows
  (`Evaluation.Suits`): for unit steps, and below strides of 2^63.
- Flipping an existing axis succeeds: false. A stride of -2^127 has no negation.
  `Reshaping.FlipCanFail` gives the map: shape `[1, 2^63]`, axis 0 flipped and its
  one index sliced twice with step 2^32. `Reshaping.Flip` states the exact
  condition.
- Planning a valid rectangle request of a matrix product succeeds: false. The
  prefix selection is built as a request of its own, and for an empty rectangle it
  may exceed the batch bound. `CartesianPlans.EmptyRectangleFails` gives a
  request and `CartesianPlans.PlanProducts` states the exact condition. Validation
  accepts such a request, but nothing in the crate builds one: slices, reductions,
  transforms, operand requests and tilings emit nonempty rectangles only
  (`src/slice.rs:155`, `src/reduce.rs:766-780`, `src/fft.rs:301`,
  `src/matmul.rs:423`, `src/request.rs:588`), and for those `PlanProducts` cannot
  fail.
- Every expression whose description is accepted can be evaluated: false.
  Descriptions may have 65536 nodes, suspended frames are limited to 16384.
  `Evaluation.AcceptedTooDeep` gives a tower of operations, each wrapped in an owned
  expression as a loop at run time would, and
  `Evaluation.EvaluateRequest` states the exact condition: the depth of the tree, and
  the overflow above.

## Model

| member | source | states |
|---|---|---|
| `Radix.FlatOfDecode` | src/request.rs:14-32 | decoding a position and flattening the digits gives the position back, modulo the element count |
| `Radix.DecodeOfFlatPlus` | src/request.rs:14-32 | flattening an in-shape coordinate and decoding gives the coordinate back, whatever multiple of the element count was added |
| `Radix.DecodeAt` | src/mapping.rs:291-308 | digit `i` of a decoded position is position divided by the axis stride, modulo the axis: both decoders of the source agree |
| `Radix.PeelDigit` | src/request.rs:14-32 | one loop step of a decoder: the remainder is the next digit and the quotient is the position seen by the slower axes |
| `Radix.FlatInjective` | src/schema.rs:226-242 | contiguous strides give different in-shape coordinates different positions |
| `Radix.BeforeIsFlatOrder` | src/storage.rs:416-443 | lexicographic order of coordinates is exactly the order of their row-major positions |
| `Request.DecodeFlat` | src/request.rs:14-32 | succeeds exactly for positions below the element count of a shape of nonzero dimensions, and then returns the mixed-radix digits |
| `Request.CoordinateInto` | src/request.rs:202-209 | the in-place digit loop yields the coordinate at that row-major index of the rectangle |
| `Request.CoordsInside` | src/request.rs:387-439 | every coordinate a valid request denotes lies inside the shape |
| `Request.WithinAll` | src/request.rs:411-425 | a progression whose two end points are in the base stays in the base |
| `RequestChecks.OpenCursor` | src/request.rs:487-496 | over any shape succeeds exactly for valid requests, with a cursor before the first requested coordinate; on a shape with an empty axis those are requests of nothing |
| `Request.Cursor.NextInto` | src/request.rs:498-537 | each call delivers exactly the next coordinate of the request, for all four request forms, and ends after the last one |
| `Request.Cursor.NextInRectangles` | src/request.rs:510-517 | the rectangle walk skips empty rectangles and delivers the next coordinate of the concatenation |
| `Request.Cursor.NextInRuns` | src/request.rs:518-528 | the run walk delivers the decoded next flat address |
| `RequestChecks.CheckAxis` | src/request.rs:123-150 | with all arithmetic checked, passes exactly the axes whose first and last index lie in the dimension |
| `RequestChecks.CheckRectangle` | src/request.rs:190-200 | passes exactly rectangles with one valid axis per dimension, whatever the dimensions |
| `RequestChecks.CheckCoord` | src/validate.rs:4-20 | passes exactly in-shape coordinates |
| `RequestChecks.CheckRun` | src/request.rs:405-425 | passes exactly a nonempty run that starts where the previous one ended and has both end points in the base; the `i128` checks never reject such a run |
| `RequestChecks.CheckRuns` | src/request.rs:400-430 | passes exactly consecutive runs inside the base whose lengths add up to the request length |
| `RequestChecks.Validate` | src/request.rs:387-439 | whatever the form, exactly the valid requests pass; on a shape with an empty axis those are requests of nothing |
| `Progressions.PushProgression` | src/request.rs:225-252 | appending a run keeps the expansion of the list and its chaining, and the list only grows when no single run expands to the last run and the new one |
| `Progressions.Merge` | src/request.rs:225-252 | a merged run expands to the two runs it replaces, including one-element runs that take the step of their neighbour, and two runs are kept apart only when no run of machine-sized steps expands to both |
| `Progressions.NextSegment` | src/request.rs:91-121 | a maximal constant-step stretch of an axis, of step zero when it is a single selected index |
| `Progressions.LinearSegments` | src/request.rs:37-58 | fails exactly on zero width or overflow; otherwise the segments tile the span and none crosses a row |
| `Progressions.LinearRow` | src/request.rs:642-654 | along the fastest varying axis consecutive positions change only that digit while the row lasts |
| `Progressions.RowAddress` | src/request.rs:655-694 | moving the varying coordinate by `d` moves the address by `d` strides |
| `Progressions.SelectedStepFits` | src/request.rs:681-691 | the step between two selected values never overflows when scaled by a stride whose addresses fit |
| `Progressions.CheckedAddress` | src/request.rs:633-639 | checked address arithmetic gives offset plus weighted sum and cannot overflow when all addresses fit |
| `Progressions.LinearProgressions` | src/request.rs:642-654 | the runs of a linear span expand to the affine address of every coordinate in order |
| `Progressions.SegmentProgression` | src/request.rs:681-691 | one run per constant-step stretch of a rectangle row, covering exactly that stretch of the addresses |
| `Progressions.RowProgressions` | src/request.rs:673-692 | one rectangle row appends exactly its stretch of the reference addresses |
| `Progressions.RectangleProgressions` | src/request.rs:658-693 | one rectangle appends exactly its reference addresses |
| `Progressions.PlanProgressions` | src/request.rs:607-701 | the emitted runs expand to the one-by-one affine addresses of the request; with fitting addresses it fails exactly when a one-element stepped interval scales its step out of `i128` |
| `Mapped.MapRequest` | src/request.rs:332-385 | position by position, the mapped request denotes the mapping of the original coordinates, on the affine and on the general path; on maps reached by transforms it fails exactly when an unused step overflows |
| `Mapped.MapAffine` | src/request.rs:345-349 | the affine path yields chained runs whose addresses are the mapped offsets |
| `Mapped.MapEach` | src/request.rs:350-372 | resolving one coordinate at a time and merging runs yields the same addresses |
| `Mapped.PartialFlat` | src/request.rs:352-360 | partial sums of an in-base coordinate stay below the element count |
| `Mapped.Flatten` | src/request.rs:352-360 | the checked weighted sum of an in-base coordinate is its position and never overflows |
| `Mapping.GatherSlice` | src/mapping.rs:115-138 | a slice of a gather table cannot fail on in-range bounds and reads exactly the selected entries, also of a reversed table |
| `Mapping.GatherFlip` | src/mapping.rs:140-152 | a flipped gather table reads the entries in reverse |
| `Mapping.OffsetUpdate` | src/mapping.rs:348-377 | changing one coordinate changes the offset by the difference of that axis' contributions |
| `Mapping.PartialBound` | src/mapping.rs:348-377 | partial offsets of a reachable map fit `i128` |
| `Mapping.FlatOffset` | src/mapping.rs:348-377 | the checked loop computes the offset and cannot overflow on a reachable map |
| `Mapping.Resolve` | src/mapping.rs:291-308 | returns the base coordinate at the mapped offset, and always succeeds on in-shape coordinates of a reachable map |
| `Mapping.IdentityGood` | src/mapping.rs:221-230 | the identity map sends every in-shape coordinate into the base |
| `Mapping.IdentityIs` | src/mapping.rs:238-241 | a map recognised as the identity has the row-major position as its offset |
| `Mapping.AffineOffset` | src/mapping.rs:244-266 | without gather tables the offset is affine in the coordinate |
| `Mapping.Affine` | src/mapping.rs:244-266 | returns a description exactly for maps without gather tables, and it reproduces every offset |
| `Transforms.ReadsInRange` | src/mapping.rs:470-517 | a view that reads a source through in-range coordinates stays in the base |
| `Transforms.SliceBoundAt` | src/mapping.rs:713-735 | the pinned contribution is that of the index; fails exactly out of bounds or on an unrepresentable product |
| `Transforms.SliceBoundIn` | src/mapping.rs:737-781 | the new axis contributes, at `x`, what the old axis contributes at `start + step * x` |
| `Transforms.SliceBoundOf` | src/mapping.rs:783-824 | the gathered axis contributes at `x` what the old axis contributes at the selected index |
| `Transforms.Slice` | src/mapping.rs:470-517 | in row-major order the view reads exactly the coordinates its range selects, for pinned, stepped and gathered axes; on a reachable map it fails exactly when a bound is outside, a selection is empty, or a step scales a stride out of `i128` |
| `Transforms.SliceShapeIs` | src/mapping.rs:470-517 | a slice has one axis for every bound that is not pinned, in order, as long as what the bound selects |
| `Transforms.BoundSelects` | src/mapping.rs:470-517 | a pinned bound selects its index, an interval every step below its stop, a list its indices in order |
| `Transforms.SliceSelects` | src/mapping.rs:470-517 | element `k` of a sliced view is coordinate `k` of the selection, in row-major order of both |
| `Transforms.SliceCanFail` | src/mapping.rs:752-757 | a concrete acceptable slice that fails because the unused step of a one-element interval is multiplied by the stride |
| `Reshaping.FlipContrib` | src/mapping.rs:830-841 | the reversed axis plus the base shift contributes at `x` what the axis contributed at `dim - 1 - x` |
| `Reshaping.Flip` | src/mapping.rs:552-574 | the view reads its source at `dim - 1 - x` on the flipped axis and at the same index elsewhere; on a reachable map it fails exactly for a missing axis or the least representable stride |
| `Reshaping.FlipCanFail` | src/mapping.rs:830-841 | a concrete reachable map with an existing axis that cannot be flipped |
| `Reshaping.Transpose` | src/mapping.rs:519-550 | succeeds exactly for permutations, and the view reads its source at the unpermuted coordinate |
| `Reshaping.Reshape` | src/mapping.rs:397-423 | succeeds exactly for contiguous maps and equal element counts, and keeps the row-major position of every element |
| `Reshaping.Squeeze` | src/mapping.rs:576-635 | on a reachable map succeeds exactly for distinct listed axes of extent one, not all of them; dropping those axes from any source coordinate gives the view coordinate that reads it |
| `Reshaping.DroppedAt` | src/mapping.rs:576-635 | an axis that is kept moves down by the number of listed axes before it |
| `Reshaping.Unsqueeze` | src/mapping.rs:637-698 | succeeds exactly for distinct in-range axes; inserting zeros before those axes in any source coordinate gives the view coordinate that reads it |
| `Reshaping.InsertedAt` | src/mapping.rs:637-698 | an axis moves up by the number of listed axes up to it, and a listed one has the new axis before it |
| `Reshaping.BroadcastTo` | src/mapping.rs:425-468 | succeeds exactly for broadcastable targets; the view reads its source at its own trailing coordinates, with zero on every axis of extent one |
| `Reshaping.ApplyTransform` | src/mapping.rs:397-699 | each of the seven transforms gives the view of the promised shape that reads its source at the promised coordinate, on a reachable map it gives a reachable one, and there it succeeds exactly for the transforms the map admits |
| `Reshaping.ApplyChain` | src/mapping.rs:397-699 | a chain applies its transforms to the identity in order, every map on the way sends every in-shape coordinate into the base, and it stops only at a transform its map does not admit |
| `StorageSlices.StepBoundsExact` | src/mapping.rs:48-68 | ceiling-divided bounds select exactly the indices whose origin plus step lands in the interval |
| `StorageSlices.BoundsAreExact` | src/mapping.rs:48-68 | the bounds describe exactly the logical coordinates landing in a base region; none means no coordinate does |
| `StorageSlices.FindBase` | src/mapping.rs:184-199 | picks an unused base axis whose stride divides the logical stride and keeps it inside, and reports none only when there is none |
| `StorageSlices.PlaceFlat` | src/mapping.rs:156-204 | placing along the matched axes adds exactly the contributions of the map |
| `StorageSlices.FindSlice` | src/mapping.rs:156-204 | whenever a descriptor is returned, every in-shape coordinate resolves to origin plus step times index on the matched axes and to the origin elsewhere; none is returned only when some axis is no upward stride or has no unused base axis that fits it |
| `StorageSlices.BlockPreimage` | src/mapping.rs:35-69 | a logical coordinate is stored in a block exactly when it lies in the descriptor's bounds of that block |
| `ViewBounds.AxisExtremes` | src/mapping.rs:311-346 | the least and greatest contribution of an axis, both attained |
| `ViewBounds.FlatBounds` | src/mapping.rs:311-346 | the least and greatest offset over all in-shape coordinates, both attained; always succeeds on a reachable map |
| `ViewBounds.LogicalBlockRange` | src/view.rs:98-122 | the block of every in-shape coordinate lies in the returned interval |
| `Geometry.AtInside` | src/storage_read.rs:74-92 | an in-shape coordinate lies in an existing block at an offset inside it |
| `Geometry.AtInjective` | src/storage_read.rs:74-92 | different coordinates never share a block offset |
| `Geometry.AtDigits` | src/storage_read.rs:74-92 | the digits of the block id are the quotients by the block extents, the digits of the offset the remainders |
| `Geometry.QuotientInterval` | src/storage.rs:181-196 | the quotient by the block extent selects exactly one clipped interval of an axis |
| `Geometry.BoundsExact` | src/storage.rs:181-196 | a block's bounds describe exactly the coordinates stored in it |
| `Geometry.BlockMonotone` | src/view.rs:98-122 | raising every coordinate never lowers the block id |
| `Geometry.RowRunsOrdered` | src/storage.rs:432-441 | when blocks are contiguous row-major runs, row-major order of coordinates is an order of blocks |
| `Blocks.BlockPosition` | src/storage_read.rs:74-92 | the one-pass loop succeeds exactly in shape and yields the position every other part of the model refers to |
| `Blocks.BlockBounds` | src/storage.rs:181-196 | succeeds exactly for existing ids and yields the exact region |
| `Blocks.OffsetsIncrease` | src/storage.rs:71-124 | the valid payload offsets strictly increase along the row-major walk of a block |
| `Blocks.StoredIsOffset` | src/storage.rs:234-236 | an offset stores a coordinate exactly when the walk of the block visits it |
| `Blocks.BlockCursor.constructor` | src/storage.rs:73-95 | the walk starts at the first valid offset |
| `Blocks.BlockCursor.Current` | src/storage.rs:98-102 | the maintained offset is that of the current local coordinate |
| `Blocks.BlockCursor.Advance` | src/storage.rs:104-123 | moves exactly one valid position on, undoing exhausted axes, and ends after the last |
| `Blocks.ValidateBlock` | src/storage.rs:200-231 | accepts exactly full-length payloads whose padding is zero, although only the gaps between valid offsets are scanned |
| `Runs.PushRun` | src/storage_read.rs:98-119 | coalescing describes exactly the same output and offset pairs, and the list only grows when no single run describes the last run and the new one |
| `Runs.Scatter` | src/storage_read.rs:24-51 | passes exactly validated runs; each output takes its own block value and nothing else changes |
| `Runs.PicksRun` | src/storage_read.rs:98-119 | adding a run to its block's list adds exactly the run's outputs to that block's share |
| `Runs.PickOf` | src/storage_read.rs:122-214 | every output belongs to exactly one block's share, at its own place |
| `StorageRead.RoomKeepsBlock` | src/storage_read.rs:283-289 | moving within the computed room keeps the block quotient and moves the remainder with the coordinate |
| `StorageRead.ClipAxis` | src/storage_read.rs:283-289 | the largest step count an axis allows without leaving its block or the tensor |
| `StorageRead.Stretch` | src/storage_read.rs:278-292 | the longest stretch all axes allow, and its payload stride |
| `StorageRead.StretchPosition` | src/storage_read.rs:226-313 | within a stretch no digit carries: the block stays and the offset moves by the stride |
| `StorageRead.StretchRun` | src/storage_read.rs:226-313 | a stretch is a run holding exactly the positions of its addresses |
| `StorageRead.StrideSmall` | src/storage_read.rs:295-299 | the payload stride of a stretch of several elements fits the narrow integer it is stored in |
| `StorageRead.Planner.Emit` | src/storage_read.rs:145-153 | a validated run extends the finished positions by its own; a rejected one changes nothing |
| `StorageRead.Planner.SplitOnce` | src/storage_read.rs:271-310 | one boundary decode finishes exactly the next stretch, and never fails |
| `StorageRead.Planner.Split` | src/storage_read.rs:226-313 | splits a progression into exactly the positions of its addresses, failing only out of range |
| `StorageRead.PlanCompact` | src/storage_read.rs:160-172 | linear and rectangular requests: the runs are the positions of the reference offsets |
| `StorageRead.PlanEach` | src/storage_read.rs:173-201 | general requests: the coalesced single elements are the positions of the reference offsets |
| `StorageRead.Plan` | src/storage_read.rs:122-214 | each block holds exactly the outputs located in it, as nonempty runs, so every output is covered once at the position found by resolving it alone; on reachable maps a valid request fails exactly when an unused step overflows |
| `StorageRead.GroupsCover` | src/storage_read.rs:122-214 | run by run: every run takes its outputs from the block and offsets they are located at, the runs of a block do not overlap, and every output is in a run of its block |
| `StorageRead.PlanCanFail` | src/storage_read.rs:122-214 | a concrete valid request on a reachable map whose planning fails |
| `Slices.CoordsAreProduct` | src/slice.rs:21-43 | row-major enumeration of a selection is the nested loop over its axis values, with order and duplicates |
| `Slices.NewSlice` | src/slice.rs:21-43 | succeeds exactly for one valid axis per dimension and a countable product |
| `Slices.KeepProduct` | src/slice.rs:82-118 | filtering a product by a region is the product of the filtered axes |
| `Slices.ClipAxis` | src/slice.rs:82-118 | clipping an axis keeps exactly its values inside the interval, and its step |
| `Slices.Intersect` | src/slice.rs:82-118 | keeps exactly the selected coordinates inside the bounds, in order and with duplicates, and no new steps |
| `SliceChunks.ChunkSizes` | src/slice.rs:61-75 | chunks fit one batch, and before the first partially chunked axis every chunk is one index; a chunk is the whole selection or fills more than half a batch |
| `SliceChunks.PartsIndex` | src/slice.rs:129-170 | because of that, index `k` of a chunk rectangle is index `k` after its origin in the whole slice |
| `SliceChunks.SliceRequests.constructor` | src/slice.rs:61-75 | the walk starts at the first selected coordinate |
| `SliceChunks.SliceRequests.NextRectangle` | src/slice.rs:129-170 | a nonempty rectangle of at most one batch, holding exactly the next stretch of the slice |
| `SliceChunks.SliceRequests.Advance` | src/slice.rs:156-167 | the carry loop moves the walk exactly past the rectangle |
| `SliceChunks.SliceRequests.Next` | src/slice.rs:176-180 | the same stretch as a valid request |
| `SliceChunks.Requests` | src/slice.rs:128-181 | the batches are nonempty and bounded, together enumerate the slice in row-major order, and advance by its steps only |
| `Schema.CheckedProduct` | src/schema.rs:266-271 | the product of any dimensions, failing exactly when some leading product overflows, even if a later dimension is zero |
| `Schema.ContiguousStrides` | src/schema.rs:226-242 | succeeds exactly when the element count fits `u64`, and then no stride overflows |
| `Schema.GreedyBlockShape` | src/schema.rs:244-264 | the block is a contiguous row-major stretch within the capacity, and more than half the capacity is used unless the block is the whole shape |
| `Schema.GridSize` | src/schema.rs:154-191 | there are never more blocks than elements |
| `Schema.NewGeometry` | src/schema.rs:154-191 | accepts exactly consistent geometry |
| `Schema.CreateGeometry` | src/schema.rs:115-135 | the creation path always produces geometry that validation accepts |
| `Schema.RowMajor` | src/schema.rs:282-291 | succeeds exactly for valid shapes whose element count fits, with a walk that starts at the origin |
| `Schema.RowMajorCoords.Next` | src/schema.rs:296-322 | delivers the coordinate of each position in turn, once |
| `Schema.RowMajorCoords.Roll` | src/schema.rs:304-319 | the carry loop moves exactly one position on |
| `BlockData.ScatterRuns` | src/storage_read.rs:39-51 | scattering a block's runs fills exactly the outputs located in the block |
| `BlockData.PlanUpdates` | src/storage.rs:17-53 | the updates of each block are exactly those of the request, in request order |
| `BlockData.RunUpdates` | src/storage.rs:40-50 | expanding the runs of a block gives its updates in request order |
| `BlockData.ApplyBlockUpdates` | src/tensor.rs:711-727 | every offset is checked before the first write; a rejected update list changes nothing |
| `BlockData.ApplyIsSequential` | src/tensor.rs:711-727 | applying planned updates block by block equals writing the values one at a time in request order |
| `BlockData.LastWriteWins` | src/storage.rs:17-53 | the last duplicate wins and untouched positions keep their value |
| `BlockData.WriteThenRead` | src/tensor.rs:633-677 | a duplicate-free request reads back what was written |
| `BlockData.WriteEachConcat` | src/tensor.rs:633-677 | writing in batches is writing everything in sequence |
| `KeyScans.ScanResume` | src/tensor.rs:804-826 | resuming an ascending scan after its last key loses and repeats nothing |
| `SparseStore.OccupiedIffNonzero` | src/tensor/sparse_storage.rs:226-258 | a block is stored exactly when it holds a nonzero value |
| `SparseStore.Canonical` | src/tensor/sparse_storage.rs:226-287 | the contents determine the table |
| `SparseStore.StoreUpdate` | src/tensor/sparse_storage.rs:226-258 | storing a nonzero block, or dropping an all-zero one, replaces exactly that block of the contents and keeps every row full length, zero padded and not all zero |
| `SparseStore.SparseStorage.constructor` | src/tensor/sparse_storage.rs:33-50 | a new store has no rows and is valid |
| `SparseStore.SparseStorage.ValidatePayload` | src/tensor/sparse_storage.rs:84-88 | accepts exactly zero-padded full-length blocks, and says whether anything is nonzero |
| `SparseStore.SparseStorage.RowPayload` | src/tensor/sparse_storage.rs:106-112 | on a valid table the revalidation of a stored row always passes |
| `SparseStore.SparseStorage.Read` | src/tensor/sparse_storage.rs:201-210 | the block, with absence read as zeros; fails exactly for missing ids |
| `SparseStore.SparseStorage.Put` | src/tensor/sparse_storage.rs:226-258 | the contents change in one block, and the row exists exactly when the block is nonzero |
| `SparseStore.SparseStorage.UpdateBlock` | src/tensor/sparse_storage.rs:226-258 | read, modify and rewrite of one block; fails without change exactly for outside offsets or nonzero padding |
| `SparseStore.SparseStorage.Update` | src/tensor/sparse_storage.rs:289-299 | the same for any id, including missing ones |
| `SparseStore.SparseStorage.Replace` | src/tensor/sparse_storage.rs:260-287 | one complete block replaced; fails without change exactly for bad length, padding or id |
| `SparseStore.SparseStorage.ReadRow` | src/tensor/sparse_storage.rs:189-192 | scattering one stored row completes every output up to its block |
| `SparseStore.SparseStorage.ReadRange` | src/tensor/sparse_storage.rs:169-194 | a range scan completes every output of the requested ids although absent rows are never visited |
| `SparseStore.SparseStorage.ReadGroups` | src/tensor/sparse_storage.rs:134-199 | the output equals reading each position on its own |
| `SparseStore.SparseStorage.ReadBatch` | src/tensor.rs:516-539 | a planned read returns the stored value of every requested coordinate in request order |
| `SparseStore.SparseStorage.OccupiedPage` | src/tensor/sparse_storage.rs:357-401 | the first page of occupied ids in the range, ascending; fails exactly on bad ranges |
| `SparseStore.OccupiedBlocks.constructor` | src/tensor.rs:804-826 | everything in the range remains to be delivered |
| `SparseStore.OccupiedBlocks.Next` | src/tensor.rs:804-826 | paging delivers every occupied id of the range once, ascending |
| `TensorWrites.WriteValue` | src/tensor.rs:607-621 | the value is at its coordinate and every other coordinate keeps its own; fails without change exactly out of shape |
| `TensorWrites.ApplyPlan` | src/tensor.rs:669-671 | applying a planned batch block by block gives the sequential contents |
| `TensorWrites.WriteBatch` | src/tensor.rs:658-673 | one batch of consecutive view elements is written and cannot fail on a reachable map |
| `TensorWrites.WriteRange` | src/tensor.rs:633-677 | succeeds exactly for a valid range with as many values as it selects, unless an unused step overflows; then value `k` is at selected coordinate `k`, the last one where a coordinate is selected again, and every other coordinate keeps its value; a failure or an empty range changes nothing |
| `TensorWrites.WriteView` | src/tensor.rs:641-656 | element `k` of the view a range selects is at selected coordinate `k` of the base; an empty range needs none |
| `TensorWrites.StoresSelected` | src/tensor.rs:633-677 | writing values one at a time at the positions of some coordinates leaves the last value of each coordinate there and changes no other |
| `TensorWrites.WriteValues` | src/tensor.rs:656-673 | passes exactly for as many values as elements of the view; then equals writing every value in row-major order of the view, otherwise nothing changes |
| `TensorWrites.ReadsBack` | src/tensor.rs:633-677 | after a bulk write through a view without duplicates every batch reads back its values |
| `TensorWrites.FillBlock` | src/tensor.rs:679-698 | the value at every offset that stores a coordinate, zero at every other |
| `TensorWrites.Fill` | src/tensor.rs:679-698 | every block is filled and the table stays valid |
| `TensorWrites.FillReads` | src/tensor.rs:679-698 | after a fill every coordinate reads the value |
| `Construction.ContiguousRuns` | src/tensor/sparse_storage.rs:411-426 | the constructor's contiguity test implies that blocks are row-major runs |
| `Construction.Builder.constructor` | src/tensor/sparse_storage.rs:411-426 | an empty builder stands for nothing staged |
| `Construction.Builder.Stage` | src/tensor/sparse_storage.rs:428-504 | a batch is accepted exactly when it is bounded, in shape and, on the contiguous path, never goes back; a rejected batch changes nothing |
| `Construction.Builder.CheckOrder` | src/tensor/sparse_storage.rs:448-461 | passes exactly batches inside the tensor that never return to an earlier block |
| `Construction.Builder.Ingest` | src/tensor/sparse_storage.rs:462-491 | the buffered path stages exactly the batch, flushing whenever the block changes |
| `Construction.Builder.Buffer` | src/tensor/sparse_storage.rs:465-486 | one entry joins the buffered block |
| `Construction.Builder.Flush` | src/tensor/sparse_storage.rs:470-481 | after a flush the table alone is valid and stands for everything staged so far, with no row beyond the flushed block |
| `Construction.Builder.StageBlocks` | src/tensor/sparse_storage.rs:492-500 | the interleaved path stages exactly the batch through destination rows |
| `Construction.Builder.Finish` | src/tensor/sparse_storage.rs:506-525 | after the last flush the table holds exactly the staged entries |
| `Construction.IncreasingAscends` | src/tensor/sparse_storage.rs:448-461 | with strictly increasing coordinates the out-of-order error of the contiguous path cannot occur |
| `Construction.NextEntries` | src/tensor/construction.rs:27-42 | collects a bounded batch, full unless the stream has ended, rejecting only lists that are not strictly increasing |
| `Construction.Sparse` | src/tensor/construction.rs:8-52 | succeeds exactly for strictly increasing in-shape entries of a stream that does not fail, and then every entry reads back its value and every other coordinate zero; an acceptable stream fails only with its own error |
| `Construction.SparseExact` | src/tensor/construction.rs:8-52 | each entry reads back its value and every other coordinate reads zero |
| `Construction.SparseRows` | src/tensor/sparse_storage.rs:411-525 | a block is stored exactly when one of its entries is nonzero |
| `Grouping.GroupedIsMarked` | src/storage.rs:363-414 | visiting by block delivers every item of the listed blocks exactly as often as a plain scan |
| `Grouping.GroupedInOrder` | src/storage.rs:416-443 | when block ids never decrease along the selection, visiting by block keeps the original order |
| `Occupied.KeptArePicked` | src/storage.rs:397-400 | clipping by a block's logical bounds picks exactly the selected coordinates stored in the block |
| `Occupied.AxisExtent` | src/storage.rs:328-337 | the extreme values of a selection axis, both attained |
| `Occupied.Corner` | src/storage.rs:338-345 | the checked corner arithmetic cannot overflow for selected values |
| `Occupied.IndexRange` | src/storage.rs:322-348 | no selected coordinate is stored outside the computed block interval, and a selected coordinate is stored at both of its ends |
| `Occupied.ClipToBlock` | src/storage.rs:397-400 | the clipped slice is what the block contributes; no slice means no contribution |
| `Occupied.IndexedRequests.constructor` | src/storage.rs:350-361 | everything remains to be delivered |
| `Occupied.IndexedRequests.Pull` | src/storage.rs:370-375 | the overflow rectangle comes before the pending block |
| `Occupied.IndexedRequests.NextKey` | src/storage.rs:388-395 | the next occupied id, with exactly what its block contributes |
| `Occupied.IndexedRequests.OpenBlock` | src/storage.rs:397-400 | the pending walk is exactly the block's contribution |
| `Occupied.IndexedRequests.PutBack` | src/storage.rs:376-379 | a rectangle that does not fit is delivered next |
| `Occupied.IndexedRequests.Turn` | src/storage.rs:369-401 | one turn of the batching loop keeps taken plus remaining unchanged and makes progress |
| `Occupied.IndexedRequests.Next` | src/storage.rs:363-412 | each batch is nonempty, bounded and exactly the next stretch of the indexed walk |
| `OrderedTraversal.IntervalSuffices` | src/storage.rs:322-348 | restricting the index to the interval loses nothing |
| `OrderedTraversal.IndexedBatches` | src/storage.rs:350-414 | the batches together hold exactly the occupied selection, block by block, and advance by the steps of the selection only |
| `OrderedTraversal.SliceBatches` | src/storage.rs:305-414 | small or dense selections are enumerated whole; otherwise each coordinate is delivered as often as it is selected if its block is in the table, and never if it is not |
| `OrderedTraversal.SliceInOrder` | src/storage.rs:418-443 | a sorted duplicate-free selection is enumerated in strictly increasing row-major order |
| `OrderedTraversal.PlaceBefore` | src/storage.rs:426-430 | increasing base axes keep row-major order |
| `OrderedTraversal.MarksNondecreasing` | src/storage.rs:418-443 | along such a selection of row-run blocks the block id never decreases |
| `OrderedTraversal.CoversTail` | src/storage.rs:432-441 | the block-shape test holds exactly for row-run blocks |
| `OrderedTraversal.OrderedBatches` | src/storage.rs:418-443 | the indexed walk is taken exactly under the tests of the source, and then delivers, in strictly increasing row-major order, exactly the selected coordinates whose block is in the table |
| `SparseViews.BatchIsEvaluation` | src/view.rs:222-232 | a batch read of a tensor, or through a view, is its value at every requested coordinate |
| `SparseViews.ReadView` | src/view.rs:222-232 | a batch of a tensor or a view holds its value at every requested coordinate in request order; fails exactly when an unused step overflows |
| `SparseViews.DescriptorReads` | src/view.rs:234-264 | reading at the descriptor's placement is reading through the mapping |
| `SparseViews.TableReads` | src/view.rs:222-232 | a valid table read through the map of a view, or directly, is total: every logical coordinate has its stored value, or zero where no block is stored |
| `StorageSlices.IdentityDescribes` | src/expression.rs:349-360 | the descriptor of an untransformed tensor places every coordinate at itself and is one the index can use |
| `SparseViews.ViewBatches` | src/view.rs:247-264 | for a tensor or a view of any reachable mapping, with or without a descriptor, the batches visit part of the selection, everything skipped is zero, and no batch has a step of its own |
| `SparseViews.ViewOrdered` | src/view.rs:234-245 | for a tensor or a view of any reachable mapping the batches are strictly ordered and include every nonzero selected coordinate |
| `Reduce.ReducePermutation` | src/reduce.rs:399-419 | a lawful reduction depends only on how often each value occurs |
| `Reduce.FoldLawful` | src/reduce.rs:23-38 | every fold of an associative and commutative combiner is lawful |
| `Reduce.Accumulate` | src/reduce.rs:399-419 | a batch joins the summary of what was seen; fails exactly when it exceeds what remains |
| `Reduce.AccumulateZeros` | src/reduce.rs:424-450 | repeated doubling equals appending exactly that many zeros |
| `Reduce.CandidateValues` | src/reduce.rs:452-471 | visited values plus one zero per skipped coordinate are all selected values |
| `Reduce.OccupiedCandidates` | src/storage.rs:305-414 | coordinates of absent blocks are zero, so the occupied ones are candidates |
| `Statistics.DeviationShift` | src/reduce.rs:273-280 | moving the reference point changes the squared deviation by a term in the sum alone |
| `Statistics.SummaryJoins` | src/reduce.rs:273-280 | combining the summaries of two nonempty batches is the summary of both: count, mean and squared deviations |
| `Statistics.RunningStep` | src/reduce.rs:254-271 | the single-pass update keeps the definition of the state |
| `Statistics.Partial` | src/reduce.rs:254-271 | the loop computes count, mean and sum of squared deviations |
| `Statistics.DeviationLawful` | src/reduce.rs:250-295 | so standard deviation is a lawful reduction: batching, index order and doubled zeros do not change it |
| `ReduceAxes.OutShapeValid` | src/reduce.rs:585-615 | the reduced shape is valid and never larger |
| `ReduceAxes.ProjectIs` | src/reduce.rs:618-645 | a point belongs to an output exactly when its kept axes hold the output's values |
| `ReduceAxes.GroupExact` | src/reduce.rs:618-645 | a group holds exactly the source coordinates that project to its output |
| `ReduceAxes.GroupHolds` | src/reduce.rs:618-645 | the group of a logical output holds exactly the source coordinates that project to the output coordinate its map reads |
| `ReduceAxes.OutputAxes` | src/reduce.rs:585-615 | the output keeps the axes that are not reduced, in order, with single positions for the others when they are kept, and one position when every axis is reduced |
| `ReduceAxes.SourceGroup` | src/reduce.rs:618-645 | resolving a logical output and describing its group cannot fail, and the group is nonempty |
| `ReduceAxes.LargeGroup` | src/reduce.rs:740-760 | whatever expression is reduced, a group larger than a batch gets the finished reduction of all its values, although only the requests its source selects are evaluated; a group has unit steps, so none overflows, and a source within both bounds fails only if finishing does |
| `ReduceAxes.Pack` | src/reduce.rs:762-781 | whole consecutive groups are packed into one batch, and the first that does not fit is kept back |
| `ReduceAxes.SmallGroups` | src/reduce.rs:783-797 | the evaluated batch is cut back into its groups, one finished reduction each; fails exactly when the source nests too deep to evaluate or a group cannot be finished |
| `ReduceAxes.GroupStretch` | src/reduce.rs:789-797 | each packed group occupies its own stretch of the batch |
| `ReduceAxes.Build` | src/reduce.rs:719-802 | for every accepted expression, stored sparse or composed, and strides of any size: the values of the group of each requested output, reduced and finished by the operator, in request order, for packed and for large groups alike; a source within the frame bound fails exactly when groups are large and it exceeds the traversal bound, or when a group cannot be finished |
| `ReduceAxes.GroupShape` | src/reduce.rs:618-645 | every group is sorted without repetitions and all groups have the same size |
| `Expressions.NewUnary` | src/unary.rs:208-220 | over a sparse source, accepted exactly when the operation takes the implicit zero to the zero of the result; well-formedness is kept, and every value is the operation applied to the source |
| `Expressions.NewBinary` | src/binary.rs:123-151 | accepted exactly for equal shapes and, over two sparse operands, an operation that gives the zero of the result; every value combines the left one with the right one |
| `Expressions.NewWhere` | src/selection.rs:81-97 | accepted exactly for three operands of one shape; every value is the chosen one where the condition is nonzero and the other one elsewhere |
| `Expressions.NodeCount` | src/expression/traversal.rs:51-58 | the count checked at every node is the number of descriptions of the whole tree, and fails exactly when that exceeds the bound |
| `Expressions.NewOwned` | src/owned.rs:64-83 | accepted exactly when the description with its new node stays within the bound, keeping shape and layout |
| `Expressions.NewOwnedValue` | src/owned.rs:64-83 | an accepted owned expression has the values of its source |
| `Expressions.SparseIs` | src/binary.rs:265-270 | an expression is sparse exactly when every source it is built from is sparse and no owned expression on the way is marked dense |
| `Expressions.ZeroBackground` | src/binary.rs:123-151 | a sparse expression is zero wherever every expression its traversal stops at is zero |
| `Expressions.NonzeroIsCandidate` | src/binary.rs:299-312 | a coordinate where any accepted tree is nonzero, and every coordinate of a dense tree, is wanted of some expression where the traversal stops |
| `Expressions.UnionEnumerates` | src/expression/traversal.rs:137-158 | a sorted union of complete enumerations of those expressions is a complete enumeration of the tree, and all of the selection when the tree is dense |
| `Expressions.InOrderUnique` | src/expression/traversal.rs:162-230 | two sorted lists with the same coordinates are equal |
| `Merging.SmallestHead` | src/expression/traversal.rs:204-206 | the smallest head of the streams that have one |
| `Merging.Union` | src/expression/traversal.rs:204-206 | an ascending list holding exactly the members of all lists, each once |
| `Merging.CheckedFlat` | src/expression/traversal.rs:178-187 | repeated multiply-and-add gives the row-major position and cannot overflow in shape |
| `Merging.RequestFlats` | src/expression/traversal.rs:170-190 | the positions of one request in order |
| `Merging.StreamFlats` | src/expression/traversal.rs:170-202 | the positions of a whole stream in order |
| `Merging.ExplicitBatches` | src/expression/traversal.rs:206-229 | explicit requests holding exactly the given positions, full batches but for the last |
| `Merging.Merge` | src/expression/traversal.rs:162-230 | sorted streams become one sorted stream with exactly their coordinates, each once |
| `SparseReading.SourceVisits` | src/expression/traversal.rs:60-66 | a traversal visits an expression and everything it delegates to |
| `SparseReading.OwnRequests` | src/expression.rs:316-361 | where a traversal stops, the ordered requests are sorted and complete: a sparse tensor or view uses its index, anything else enumerates the selection |
| `SparseReading.Walk` | src/expression/traversal.rs:75-104 | collects one complete sorted stream for every expression where the traversal stops, from left to right, failing exactly when more than 65536 visits are needed |
| `SparseReading.Ordered` | src/expression/traversal.rs:137-158 | sorted candidates that include every nonzero selected coordinate, failing exactly beyond the visit bound |
| `SparseReading.SparseElements` | src/expression.rs:228-269 | walking the request beside its values yields exactly the nonzero elements in order |
| `SparseReading.CompleteNonzeros` | src/expression.rs:228-269 | complete candidates have the same nonzero elements as the whole selection |
| `SparseReading.ReadSparse` | src/expression.rs:402-422 | sparse reading equals row-major evaluation of the selection filtered to nonzeros; it fails exactly beyond the visit bound or when a request of the selection cannot be evaluated, and where no step of the selection overflows that is when something must be visited and the tree nests too deep |
| `SparseReading.SuitsServed` | src/request.rs:607-701 | where no step of a selection overflows, its requests are served exactly when the tree nests within the frame bound or nothing has to be visited |
| `SparseReading.ReadCanFail` | src/request.rs:607-701 | a concrete accepted range of one element that cannot be read, because the unused step of its row is multiplied by the stride |
| `Ranges.ValidateRange` | src/validate.rs:147-178 | succeeds exactly for bounds inside their axes and a countable selection, which an empty axis always is |
| `Ranges.SparseSlice` | src/traits.rs:795-851 | succeeds exactly for the natural order, a sparse layout and a valid range; the selection is sorted without repetitions on every axis and holds exactly the coordinates on every pinned index, interval step or listed index |
| `SparseReading.ReadRange` | src/expression.rs:388-401 | from the range as a caller writes it: the elements are sorted by coordinate and are exactly the nonzero values at the coordinates on every pinned index, interval step or listed index, each once; fails exactly for ranges that are not accepted, beyond the visit bound, or when a request cannot be evaluated |
| `SparseReading.CompleteCandidates` | src/expression/traversal.rs:120-135 | what complete candidates skip is zero |
| `SparseReading.CountedFits` | src/expression/traversal.rs:60-66 | no traversal of a tree whose descriptions are counted reaches the bound, so owned expressions never exceed it |
| `SparseReading.ChainSelection` | src/expression/traversal.rs:120-135 | what the selection of the expression a chain of delegates ends in skips is zero through the whole chain |
| `SparseReading.OwnSelection` | src/binary.rs:292-297 | operations over several operands merge ordered requests, stored tensors and views use their index, everything else enumerates; what is skipped is zero |
| `SparseReading.Select` | src/expression/traversal.rs:120-135 | follows delegates to the expression whose requests are used; fails exactly beyond the traversal bounds, and otherwise everything skipped is zero and a dense expression skips nothing |
| `SparseReading.ReduceSelection` | src/reduce.rs:452-471 | reducing through candidate requests and implicit zeros equals reducing every selected value; fails exactly when one of the requests cannot be evaluated |
| `SparseReading.ReduceExpression` | src/reduce.rs:452-471 | reducing a selection of any accepted tree through its selected requests equals reducing every selected value; fails exactly beyond the traversal bounds or when a request cannot be evaluated |
| `SparseReading.ReduceAll` | src/reduce.rs:452-471 | the reduction of every value of the tree, of which there is at least one, finished by the operator, whatever the strides; fails exactly beyond the traversal bounds, when something must be evaluated that nests too deep, or when finishing fails |
| `SparseReading.TerminalView` | src/reduce.rs:452-471 | over a sparse tensor or a view reached by any transforms it is the finished reduction of all logical values, of which there is at least one, although absent blocks are never visited |
| `Driver.LimitExact` | src/expression/driver.rs:21-29 | the frame bound changes no answer as long as the evaluations nest within it; beyond it nothing is answered |
| `Driver.UnwindAfter` | src/expression/driver.rs:155-193 | steps taken above a stack add to the steps of the stack and change no answer |
| `Driver.Driver.constructor` | src/expression/driver.rs:98-123 | one frame, nothing pending, and the whole recursion still to be answered |
| `Driver.Driver.Batch` | src/expression/driver.rs:41-80 | a child is queued exactly when its request is accepted and none is queued yet; otherwise nothing changes |
| `Driver.Driver.Receive` | src/expression/driver.rs:41-80 | an answer, value or error, resumes the waiting frame, and what the recursion will answer stays the same |
| `Driver.Driver.Start` | src/expression/driver.rs:41-80 | asking for a child queues it, or resumes the frame with the error of its request, one step further in the same recursion |
| `Driver.Driver.Conclude` | src/expression/driver.rs:48-58 | a finished frame sends its checked answer, one step further in the same recursion |
| `Driver.Driver.PollTop` | src/expression/driver.rs:171-190 | polling the top frame either finishes it or leaves exactly one pending child |
| `Driver.Driver.Pop` | src/expression/driver.rs:171-176 | the answer of a finished frame is what the frame below awaits |
| `Driver.Driver.Push` | src/expression/driver.rs:146-163 | fails exactly when the stack is full, and then the whole evaluation is abandoned: no frame sees an error |
| `Driver.Driver.Run` | src/expression/driver.rs:131-193 | from every reachable state, where the stack is bounded, at most one child is pending and each frame awaits the one above, the loop ends with the answer of the bounded recursion, whatever children and requests the frames choose from earlier answers |
| `Driver.EvaluateBatch` | src/expression/driver.rs:98-123 | the frame-stack driver answers what plain recursion answers if and only if the evaluations nest within the bound, and reports the bound otherwise |
| `Evaluation.StateRanked` | src/binary.rs:351-363 | every evaluation of a tree asks for a smaller one or finishes |
| `Evaluation.BuildAnswers` | src/binary.rs:351-363 | evaluating an accepted tree on the stack gives its value at every requested coordinate, in order, and nests as deep as the tree, unless an unused step overflows |
| `Evaluation.MapOwned` | src/owned.rs:207-222 | an owned expression passes on exactly the base coordinates its map reads, failing exactly when an unused step overflows |
| `Evaluation.ReadStored` | src/expression.rs:363-373 | a sparse tensor or view answers its value at every requested coordinate by one planned read, failing exactly when an unused step overflows |
| `Evaluation.BuildFails` | src/binary.rs:351-363 | at a request that overflows some source or map of the tree, the tree fails too, whatever was read before |
| `Evaluation.EvaluateRequest` | src/expression/driver.rs:98-123 | the batch holds the value of the tree at every requested coordinate, in request order, and is what the plain recursion answers, so the six laws of its operations apply to it; fails exactly when the tree nests deeper than the frames allow or an unused step overflows on the way |
| `Evaluation.WhereLaw` | src/selection.rs:212-229 | where the condition answers a value other than its zero a conditional answers the chosen value, elsewhere the other one, position by position |
| `Evaluation.BinaryLaw` | src/binary.rs:348-359 | the answers of two operands are combined position by position, left operand first |
| `Evaluation.UnaryLaw` | src/unary.rs:422-431 | the operation is applied to each answer of the operand, in order |
| `Evaluation.OwnedLaw` | src/owned.rs:207-222 | an owned expression answers what its source answers at the coordinates its map reads, in order |
| `Evaluation.StoredLaw` | src/expression.rs:363-373 | a sparse tensor or view answers the table entry at the block and offset of the coordinate its map reads, and its zero where no row is stored |
| `Evaluation.LeafLaw` | src/expression.rs:363-373 | any other source answers its value at every requested coordinate, in order |
| `Evaluation.SmallReadable` | src/request.rs:607-701 | below strides of 2^63 no valid request overflows anywhere in a tree |
| `Evaluation.UnitReadable` | src/request.rs:607-701 | a request of unit steps overflows nowhere in any accepted tree |
| `Evaluation.SuitsReadable` | src/request.rs:607-701 | a request that keeps the steps of a selection overflows nowhere in a tree where no step of the selection does |
| `Evaluation.UnitSuits` | src/request.rs:607-701 | no unit step overflows in any accepted tree |
| `Evaluation.SmallSuits` | src/request.rs:607-701 | below strides of 2^63 no step of any selection overflows |
| `Evaluation.TowerCounts` | src/expression/traversal.rs:48-58 | the constructors accept every turn of wrapping an operation in an owned expression, and each adds two descriptions and two frames |
| `Evaluation.AcceptedTooDeep` | src/expression/traversal.rs:48-58 | a description of 16385 nodes, grown at run time by wrapping every operation in an owned expression, is within the bound on descriptions while its evaluation exceeds the bound on frames |
| `Evaluation.DepthCounted` | src/expression/traversal.rs:51-58 | a tree of fewer than 16384 descriptions always evaluates |
| `Release.ReleaseShared` | src/owned.rs:43-51 | giving up a handle that is not the last lowers the count and nothing else |
| `Release.ReleaseLast` | src/owned.rs:43-51 | giving up the last handle puts the operand handles on the worklist |
| `Release.SurvivorsAreReachable` | src/owned.rs:53-62 | with nothing waiting, exactly the expressions a kept handle reaches are alive |
| `Release.Graph.Drain` | src/owned.rs:43-51 | one handle is given up and every count stays exact |
| `Release.Graph.Release` | src/owned.rs:43-62 | for any number of threads and any interleaving the release ends, survivors are exactly what kept handles reach, and every other expression is detached exactly once |
| `Release.Graph.Drop` | src/owned.rs:53-62 | the same for one handle dropped by one thread |
| `Buckets.Push` | src/matmul.rs:90-122 | the value joins the bucket of its key and no other bucket changes |
| `MatrixPlans.Each` | src/matmul.rs:199-226 | all three scatter forms perform their listed copies in order |
| `MatrixPlans.CopiesExpected` | src/matmul.rs:550-552 | copies that all carry the expected value leave it at every written position |
| `MatrixPlans.WritesOnce` | src/matmul.rs:378-405 | plans that serve every position with as many writes as positions write each position exactly once |
| `RectanglePlans.GroupRows` | src/matmul.rs:157-166 | rows sharing a column set share one full rectangle: area equals the number of distinct pairs |
| `RectanglePlans.PlanRectangles` | src/matmul.rs:133-180 | every request of the tile is written from its own row and column cell; rows are grouped exactly when all rows times all columns exceed twice the distinct pairs, the area is at most twice those pairs, and equal to them when rows are grouped |
| `CartesianPlans.AxisTiles` | src/matmul.rs:236-247 | every axis position is filed once, under the tile of its value |
| `CartesianPlans.SelectedAxis` | src/matmul.rs:249-263 | values are sorted and distinct, and each position points at its own value |
| `CartesianPlans.GridForm` | src/matmul.rs:211-219 | each grid write belongs to one row entry and one column entry |
| `CartesianPlans.GridPair` | src/matmul.rs:211-219 | every pair of entries is written |
| `CartesianPlans.GridServes` | src/matmul.rs:280-298 | a row tile against a column tile copies every position from the requested cell |
| `CartesianPlans.RectangleCell` | src/matmul.rs:279-301 | the position of a prefix, row and column index holds that prefix, row and column |
| `CartesianPlans.BlockPlans` | src/matmul.rs:279-300 | under one prefix every position is served, with as many writes as positions |
| `CartesianPlans.PlanProduct` | src/matmul.rs:270-302 | one rectangle; fails exactly when its prefix selection exceeds a batch |
| `CartesianPlans.PlanProducts` | src/matmul.rs:265-305 | every position is written once from its own cell; a valid request fails exactly when some prefix selection exceeds a batch, and never when its rectangles are nonempty |
| `CartesianPlans.OversizedIsEmpty` | src/matmul.rs:272-273 | only an empty rectangle can have an oversized prefix |
| `CartesianPlans.EmptyRectangleFails` | src/matmul.rs:272-273 | a concrete valid request of no elements whose planning fails |
| `LinearPlans.CutSegment` | src/matmul.rs:319-330 | a row segment is cut at tile boundaries into pieces that hold its cells |
| `LinearPlans.CutSpan` | src/matmul.rs:314-331 | the pieces of a span cover every position once |
| `LinearPlans.MaskValues` | src/matmul.rs:347-354 | the listed values are exactly the set bits, ascending |
| `LinearPlans.TileAxes` | src/matmul.rs:336-354 | the two masks select exactly the rows and columns of the pieces |
| `LinearPlans.Consecutive` | src/matmul.rs:355-365 | consecutive selected columns sit next to each other, so a piece is one span of the tile |
| `LinearPlans.TilePlan` | src/matmul.rs:335-374 | every piece of a tile is copied from its own cells |
| `LinearPlans.PlanSpan` | src/matmul.rs:307-376 | every position of a linear request is written once from its own cell |
| `TilePlans.GatherTiles` | src/matmul.rs:94-123 | each mapped position is filed once under its prefix and tile |
| `TilePlans.PlanMapped` | src/matmul.rs:391-404 | the general route serves every position once, through any reachable mapping |
| `TilePlans.IdentityTargets` | src/matmul.rs:385-389 | under the identity mapping the targets are the requested coordinates |
| `TilePlans.PlanRequest` | src/matmul.rs:378-405 | exactly the valid requests with fitting prefixes succeed, and whichever route is chosen, every output position is written exactly once from the tile cell holding its row and column under its prefix |
| `Matmul.ContractSplit` | src/matmul.rs:522-547 | with an associative sum, contracting in steps equals contracting at once |
| `Matmul.ContractionStep` | src/matmul.rs:182-184 | the step is positive, both operand batches fit the batch bound, and a larger step would not fit |
| `Matmul.OperandRequest` | src/matmul.rs:407-424 | fails exactly for selections outside the operand or beyond a batch, and denotes the prefixed product of the fixed and contracted axes |
| `Matmul.LeftCell` | src/matmul.rs:407-424 | coordinate `i * count + k` of a left operand request is row `i` at contraction index `k` |
| `Matmul.RightCell` | src/matmul.rs:407-424 | coordinate `k * columns + j` of a right operand request is contraction index `k` at column `j` |
| `Matmul.EntryContracts` | src/matmul.rs:537-541 | the entries of a partial product contract exactly their stretch |
| `Matmul.CombinePartial` | src/matmul.rs:426-452 | fails without change exactly on a wrong length; the first partial is taken and later ones are added in place, entry by entry |
| `Matmul.OperandsFit` | src/matmul.rs:520-527 | the operand requests of a served plan never fail |
| `Matmul.OutputShape` | src/validate.rs:107-141 | succeeds exactly for operands that have a product, with its only possible shape |
| `Matmul.ReadOperand` | src/matmul.rs:527-536 | the requested cells of an operand, failing exactly when its expression nests too deep to evaluate |
| `Matmul.TileStep` | src/matmul.rs:522-547 | one step extends the contraction of every tile entry by its stretch, failing exactly when an operand cannot be evaluated |
| `Matmul.ComputeTile` | src/matmul.rs:518-549 | after the loop every tile entry is the full contraction of its row and column |
| `Matmul.ServesInside` | src/matmul.rs:508-527 | a plan that serves in-shape outputs reads only inside the operands |
| `Matmul.ScatterTile` | src/matmul.rs:518-552 | scattering a tile completes its positions and damages none |
| `Matmul.Build` | src/matmul.rs:492-557 | for any two accepted expressions every requested value is the last of running sums that start at zero and add, one contraction index at a time, the left value in its row times the right value in its column under its prefix; fails exactly when a prefix selection exceeds a batch or a needed operand nests too deep |
| `TiledRequests.LinearRequests` | src/request.rs:540-552 | consecutive spans, full batches but for the last, enumerate the shape in row-major order |
| `TiledRequests.TileBounded` | src/request.rs:572-588 | every tile is a nonempty bounded rectangle inside the shape |
| `TiledRequests.TilingCovers` | src/request.rs:556-603 | every coordinate is in the tile walk |
| `TiledRequests.TilingOnce` | src/request.rs:556-603 | and at one position only |
| `TiledRequests.TileWalk.constructor` | src/request.rs:556-568 | no tile has been packed |
| `TiledRequests.TileWalk.Next` | src/request.rs:569-602 | a batch packs the next whole tiles, at least one and as many as fit |
| `TiledRequests.TileBatches` | src/request.rs:556-603 | the batches are valid and together are the tile walk, so they hold every coordinate exactly once |

## Left out

- Filesystem, cache, table and lock machinery, publishing, loading, `sync` and
  corruption checks: foreign I/O. The table is a map from block id to payload, and
  occupancy pages are read from one snapshot of it.
- Asynchronous polling, wakers, cancellation and cooperative budgets: a pending
  operation only repeats a state of the driver, so the model advances when it is
  ready.
- Floating-point rounding, NaN and signed zeros, casts, trigonometry and the array
  backend: elements are abstract, statistics are over exact reals, and laws of
  arithmetic are assumed only where a contract names them (`Reduce.Lawful`,
  `Matmul.Monoid`).
- Element types: all elements live in one universe with one zero per expression; a
  dtype-changing operation is a function on values.
- `src/tensor/dense_storage.rs`: planning, updates and block geometry are shared
  with the sparse store; only the container differs.
- `src/matrix.rs` and `src/fft.rs`: they repeat the planner and tile patterns.
- `src/metadata.rs`, `src/error.rs`, operator and trait boilerplate, `Mean`, `Norm`
  and the other reduction operators: no further structure beyond `Reduce.Lawful`.
- Gather tables longer than 2^64 entries and ranks from 2^60: beyond any memory;
  the checked sums of a map are only claimed below those sizes.
- LinearPlans.TileAxes: the 64-bit masks are modelled as sets of bit positions; every
  shift is shown to stay below 64 and to lose no bit.
- Matmul.Build: shape checks of the constructor are the precondition `Compatible`,
  which `Matmul.OutputShape` establishes; reshaping and the backend product of two
  tiles are a specification function.
- Evaluation.EvaluateRequest: a native source other than a sparse tensor or a view of
  one is a leaf that answers its value at every requested coordinate in one frame. A
  matrix product or a reduction inside a tree nests further by what it asks of its
  operands, which depends on the request, and can fail as `Matmul.Build` and
  `ReduceAxes.Build` state; those failures and frames are not counted in the tree
  above it.
- Evaluation.BuildAnswers: a frame asks for one child at a time, as every `build`
  of the crate does; `Driver.Driver.Batch` gives the error of a second one. A mapped
  request is passed on by its coordinates; `Evaluation.MapOwned` relates it to the
  runs the source builds.
- ReduceAxes.Build: `partial` of an operator cannot fail; an error of the array backend
  is left out.
- Release.Graph.Release: reference counts are updated in one step each, as atomic
  operations are.
