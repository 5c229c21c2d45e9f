# zmat in Dafny

zmat is a header-only C++ library of fixed-rank dense arrays. A `Matrix<T, Dim>`
handle is a window onto a shared element buffer. The handle holds:

- a start pointer into the buffer;
- one extent (`sizes`) and one stride (`steps`) per axis;
- a flag word with the bits CONTINUOUS and VIEW.

Indexing (`operator[]`, `at`), slicing (`view`, `row_view`, `col_view`), `reshape`
and `reinterpret` only recompute this layout. `clone`, the arithmetic operators and
`transposed` build fresh buffers. A strided iterator (`MatIterator`) walks any
layout in row-major order with a carry-propagating cursor. The operators are built
from a small set of kernels:

- `mat_apply`;
- `_Mat_cmp_n`;
- the `simd::vec_*` loops;
- a blocked matrix product `gemm`.

This project models that core and proves what each operation computes.

A buffer is an `array<T>`, and a pointer is an integer offset into it. Handles that
share a buffer share the same Dafny array. Every handle is tied to the row-major
sequence of its elements, `Mat.Matrix.Elements()`, and each kernel is specified
against that sequence.

| module (file) | models |
|---|---|
| `Errors` (errors.dfy) | the four exception kinds, and `Result`/`Outcome` carriers for them |
| `Shape` (shape.dfy) | products of extents, row-major strides, the continuity formula, row-major positions, offsets, and C++ truncating `/` and `%` |
| `Blocks` (blocks.dfy) | the row-major contents of a strided block of a buffer, its footprint, and the loop invariants of transposition |
| `Data` (data.dfy) | `MatrixData`, the buffer manager (inc/kernel/data.h) |
| `Utils` (utils.dfy) | `Range`, nested initializers `init_val_base`, and `collect_shape` (inc/kernel/utils.h) |
| `Iter` (iter.dfy) | `MatIterator` (inc/kernel/iter.h) |
| `MatInternal` (matinternal.dfy) | the free helpers of inc/mat_impl.h: `set_size_and_step`, `copy_construct_uninit`, `fill_init_value` and `set_view_config` |
| `Mat` (matrix.dfy) | the `Matrix` class and its members (inc/mat_impl.h) |
| `Simd` (simd.dfy) | the `vec_add`/`vec_sub`/`vec_mul`/`vec_div` loops (inc/kernel/simd.h) |
| `Algo` (algo.dfy) | the standard algorithms the operators call over iterators and raw pointers: `std::transform`, `std::copy_n`, `std::fill_n`, the compare loop, and the accumulate and apply loops |
| `Gemm` (gemm.dfy) | the blocked matrix product `gemm` (inc/mat_ops.h) |
| `Ops` (ops.dfy) | `mat_apply`, `mat_cmp`, `<<=`, and the arithmetic, comparison and product operators (inc/mat_ops.h) |
| `Func` (func.dfy) | reductions, `maps`, `apply`, `zeros`, `ones` and `eye` (inc/mat_func.h) |
| `Seqs` (seqs.dfy) | folds over sequences, with what the folds of `max`, `min`, `sum` and `count_if` compute |

Modelling choices:

- The arithmetic operators, reductions and `gemm` are instantiated with
  mathematical `int`.
- Integer division is C++ division, truncated toward zero (`Shape.TDiv`/`TMod`).
  The iterator's carry loop uses the same operators.
- Every exception is a `Failure`/`Fail` carrying an `Errors.Error`. An
  `InvalidArgument` is `std::invalid_argument`. A `LogicError` is
  `std::logic_error`, including `zutil::error_invalid_use`. An `OutOfRange` is
  `std::out_of_range`. A `RuntimeError` is `std::runtime_error`.
- The rank `Dim` is the field `dim`. `zeros`/`ones` take a shape sequence with
  `dim` entries.
- Element type `T` must have a default value, so storage can be allocated.
  `maps`, `transposed` and the nested `create` take an explicit `zero` for the
  value-initialised cells of a fresh buffer.

Where the code and the library's description differ, the model follows the code:

- The move constructor copies (mat_impl.h:123-126): it is `Copy`.
- Compound assignments call the comparison `<=`.
- `back()` throws (Finding 2).
- The product writes rows at stride 1 (Finding 1).

## Model

| member | source | states |
|---|---|---|
| Data.MatrixData.Filled | inc/kernel/data.h:41-46 | fresh storage of exactly size elements, every one equal to the constructor argument |
| Data.MatrixData.Empty | inc/kernel/data.h:48-50 | the manager holds no storage |
| Data.MatrixData.ConstructInRange | inc/kernel/data.h:95-101 | every position in [lo, hi) becomes v; every position outside keeps its value |
| Data.MatrixData.FromConst | inc/kernel/data.h:52-58 | a null source fails with a runtime error; otherwise fresh storage holds a copy of the size source elements |
| Data.MatrixData.FromPointer | inc/kernel/data.h:60-70 | a null source fails with a runtime error; with clone the copy is in fresh storage, without it the manager aliases the caller's storage; either way the contents are the source elements |
| Data.MatrixData.CopyIn | inc/kernel/data.h:57 | the front size elements become the source elements; the rest of the storage is unchanged |
| Data.MatrixData.Clone | inc/kernel/data.h:84-86 | a manager with storage yields a fresh manager with fresh storage and equal contents |
| Data.MatrixData.AllocateUninitialized | inc/kernel/data.h:88-92 | fresh storage of n elements; the size becomes n |
| Data.MakeManager | inc/kernel/data.h:104-107 | a fresh manager of size copies of v |
| Data.MakeManagerUninit | inc/kernel/data.h:109-114 | a fresh manager with fresh storage of the requested size |
| Utils.MaxOfIsMaximum | inc/kernel/utils.h:53-58 | the running std::max of a list of extents bounds every entry and equals one of them when the list is not empty |
| Utils.WidthIsLargestChild | inc/kernel/utils.h:55-58 | the extent collected below a node is the largest extent of its children: no child is wider and some child attains it |
| Utils.LeafOf | inc/kernel/utils.h:43-47 | pushing back the arguments one by one yields the depth-1 initializer holding exactly those values |
| Utils.NodeOf | inc/kernel/utils.h:31-35 | pushing back the sub-initializers one by one yields the depth-n initializer holding exactly those children |
| Utils.CollectShape | inc/kernel/utils.h:50-60 | after collect_shape each of the n entries from dst + d is the larger of its old value and the width of the initializer at that depth; no other entry changes |
| Utils.CollectChildren | inc/kernel/utils.h:56-58 | the loop over the children collects each child one level down, in order, and changes nothing outside the n entries |
| Utils.NoChildren | inc/kernel/utils.h:57 | before the first child has been collected the destination is as it was |
| Utils.ChildCollected | inc/kernel/utils.h:58 | collecting child i on top of the first i children gives the state after the first i + 1 children |
| Utils.NodeCollected | inc/kernel/utils.h:55-58 | raising the top entry to the child count and then collecting every child is collect_shape of the whole node |
| Iter.MatIterator.Null | inc/kernel/iter.h:92-93 | the default iterator satisfies the index invariant and has no storage, so every use of it is refused |
| Iter.MatIterator.constructor | inc/kernel/iter.h:95-108 | the index reproduces the pointer (base plus index dot strides), its first coordinate is the floor quotient by the first stride, the others are non-negative; on a contiguous block, or at a row boundary, the iterator is valid and at a row boundary the trailing coordinates are zero |
| Iter.MatIterator.Copy | inc/kernel/iter.h:110 | the copy has the same block, index and pointer |
| Iter.MatIterator.MovePtr | inc/kernel/iter.h:31-63 | a null iterator fails with a logic error and does not move; otherwise the row-major position moves by exactly diff, the index invariant holds afterwards, and on rank 1 the pointer moves by diff strides |
| Iter.MatIterator.CarryMove | inc/kernel/iter.h:36-61 | the carry loop over the trailing axes followed by the update of axis 0 moves the row-major position by exactly diff and keeps every trailing coordinate in range |
| Iter.MatIterator.Deref | inc/kernel/iter.h:113-118 | a null iterator is a logic error; otherwise dereference succeeds exactly when the position is inside the block, fails with out_of_range otherwise, and yields the element at that row-major position |
| Iter.MatIterator.Store | inc/kernel/iter.h:113-118 | a write through the iterator succeeds exactly when dereference does, changes only the addressed element, and fails with dereference's error otherwise |
| Iter.MatIterator.PreIncrement | inc/kernel/iter.h:130-134 | the iterator moves one position forward and the returned copy is the iterator before the move |
| Iter.MatIterator.PostIncrement | inc/kernel/iter.h:136-139 | the iterator moves one position forward |
| Iter.MatIterator.PreDecrement | inc/kernel/iter.h:141-145 | the iterator moves one position back and the returned copy is the iterator before the move |
| Iter.MatIterator.PostDecrement | inc/kernel/iter.h:147-150 | the iterator moves one position back |
| Iter.MatIterator.Plus | inc/kernel/iter.h:152-156 | a fresh copy k positions further on the same block; the receiver is unchanged |
| Iter.MatIterator.Minus | inc/kernel/iter.h:158-162 | a fresh copy k positions back on the same block; the receiver is unchanged |
| Iter.MatIterator.PlusAssign | inc/kernel/iter.h:177-180 | the iterator moves k positions forward |
| Iter.MatIterator.MinusAssign | inc/kernel/iter.h:182-185 | the iterator moves k positions back |
| Iter.MatIterator.At | inc/kernel/iter.h:126-128 | it[k] succeeds exactly when position + k is inside the block and is the element there |
| Iter.MatIterator.Difference | inc/kernel/iter.h:164-175 | iterators over different blocks are refused with invalid_argument; otherwise the result is the difference of their row-major positions |
| Iter.Decompose | inc/kernel/iter.h:97-107 | the computed index reproduces the offset, its first coordinate is the floor quotient by the first stride, the trailing ones are non-negative and, on a contiguous block, in range; an offset at a row boundary has zero trailing coordinates |
| Iter.DecomposeStep | inc/kernel/iter.h:104-107 | one pass of the trailing-axis loop keeps the decomposition invariant |
| Iter.AxisStep | inc/kernel/iter.h:43-53 | resetting one trailing coordinate moves the pointer by the change times its stride and the position by the change times the block below it |
| Iter.CarryKeeps | inc/kernel/iter.h:39-55 | one pass of the carry loop keeps the index invariant and conserves the distance still to travel |
| Iter.CarryStep | inc/kernel/iter.h:41-54 | the truncated remainder, the carry and the quotient passed on add up to the original distance |
| Iter.LinSuffix | inc/kernel/iter.h:167-173 | the row-major position of an index suffix is its first coordinate times the block below it plus the position of the rest |
| Iter.PointerOrderIsPositionOrder | inc/kernel/iter.h:187-209 | for two valid iterators over one block, comparing pointers is comparing row-major positions, for each of <, <=, >, >=, == and != |
| Shape.RowMajorStepsAt | inc/mat_impl.h:17-19 | the row-major stride of axis i is the product of the extents after i |
| Shape.ContiguousIffRowMajor | inc/mat_impl.h:93-105 | the continuity test holds exactly when the strides are the row-major strides of the extents |
| Shape.ContiguousOffset | inc/mat_impl.h:653-664 | on a contiguous layout the k-th row-major element sits k places after the start |
| Shape.EndOffset | inc/mat_impl.h:638-641 | the offset of the position one past the last element is size(0) * step(0), the pointer end() is built from |
| Shape.OffsetMonotone | inc/kernel/iter.h:187-209 | on a valid layout a later row-major position lies at a strictly larger offset |
| Shape.LinOffset | inc/mat_impl.h:420-431 | for an in-range index the offset start + sum idx[i] * step(i) is the offset of the element at the index's row-major position |
| Shape.PosInRange | inc/kernel/iter.h:70-73 | with the trailing coordinates in range, checking only the first coordinate is the same as checking that the row-major position is inside the block |
| Shape.TDivFacts | inc/kernel/iter.h:41-54 | C++ division and remainder: quotient times divisor plus remainder is the dividend; they agree with Euclidean division on non-negative dividends, and a negative dividend has a non-positive remainder |
| Shape.FloorFromTrunc | inc/kernel/iter.h:98-103 | correcting a negative truncated remainder by adding the divisor and decrementing the quotient gives floor division |
| Blocks.ContiguousGather | inc/mat_impl.h:653-664 | on a contiguous layout the row-major elements are exactly the buffer window from the start pointer to the raw end pointer |
| Blocks.RowBlock | inc/mat_impl.h:387-391 | the sub-block of row i, with its start moved by i strides and the trailing extents and strides, holds the i-th slice of the parent's elements |
| Blocks.DotInjective | inc/mat_impl.h:706-708 | two different in-range indices of a valid layout never share an offset, so writing one cell leaves every other cell alone |
| Blocks.LinInjective | inc/kernel/iter.h:164-175 | two different in-range indices have different row-major positions |
| Blocks.CellInFootprint | inc/mat_impl.h:420-431 | the offset of every in-range index lies inside the buffer and inside the block's footprint |
| Blocks.SwapStep | inc/mat_impl.h:706-708 | swapping at(i, j) with at(j, i) extends the transposition invariant to the next column |
| Blocks.NextRow | inc/mat_impl.h:706-707 | finishing row i below the diagonal is the invariant at the start of row i + 1 |
| Blocks.TransposeStart | inc/mat_impl.h:706 | the untouched buffer satisfies the transposition invariant before the first row |
| Blocks.CopyStep | inc/mat_impl.h:719-721 | writing res.at(j, i) = at(i, j) extends the copy invariant by one cell |
| Blocks.CopyNextRow | inc/mat_impl.h:719-720 | a finished row of the copy is the invariant at the start of the next row |
| MatInternal.SetSizeAndStep | inc/mat_impl.h:12-20 | the extents are the source values and the strides are row-major: the last stride is 1, each other stride is the next stride times the next extent, and steps[0] * sizes[0] is the element count |
| MatInternal.CopyConstructUninit | inc/mat_impl.h:22-30 | the size destination slots receive, in order, the elements the source iterator visits from its position; the iterator advances by size; the rest of the destination is unchanged |
| MatInternal.CopyConstructFromList | inc/mat_impl.h:22-30 | the destination window becomes the first size list values and the rest of the destination is unchanged |
| MatInternal.SetViewConfig | inc/mat_impl.h:48-70 | the loop computes the view configuration function: the first bad range's exception, or the view's extents and start |
| MatInternal.ViewConfigMeaning | inc/mat_impl.h:54-68 | the view configuration succeeds exactly when every supplied range passes the checks after normalisation; otherwise the error is that of the first bad range (invalid_argument for l > r, out_of_range for l < 0 or r >= size); on success every supplied axis has extent r - l + 1, every other axis keeps its extent, and the start moves by the sum of l * steps[i] |
| MatInternal.FullRangeIsWholeAxis | inc/kernel/utils.h:72 | the default range {0, -1} is accepted exactly on a non-empty axis and then selects the whole axis from 0; on an empty axis it throws invalid_argument |
| MatInternal.ViewLayout | inc/mat_impl.h:54-68 | a view cut by good ranges has extents of at least 1 and stays inside the parent's buffer |
| MatInternal.ViewCell | inc/mat_impl.h:66-67 | cell j of the view is cell j + lower corner of the parent |
| MatInternal.FillInitValue | inc/mat_impl.h:32-46 | writing a nested initializer over a row-major block replaces, at every index the initializer gives a value for, the old element by that value and keeps every other element; nothing outside the block changes |
| MatInternal.FillRows | inc/mat_impl.h:39-45 | a node writes child i into row i (i times the first stride after the destination) for every child, in order |
| MatInternal.FillRow | inc/mat_impl.h:42-44 | one pass of the node loop writes the next child's overlay into the next row and leaves the following rows unchanged |
| MatInternal.OverlayAt | inc/mat_impl.h:32-46 | the written block at the row-major position of index p holds the initializer's value at p when it has one, and the old element otherwise |
| MatInternal.FitsWidths | inc/mat_impl.h:193-199 | a nested initializer fits the extents collect_shape computes for it: no list is longer than the extent at its depth |
| Mat.ContiguityTest | inc/mat_impl.h:95-101 | the loop of recalc_continuous decides exactly the continuity formula (last stride 1, each sizes[i] * steps[i] equal to steps[i - 1]) |
| Mat.NestedShape | inc/mat_impl.h:193-197 | starting from zeros and collecting every initializer gives, at each depth, the largest list length there |
| Mat.Offset | inc/mat_impl.h:420-428 | the index walk succeeds exactly when every normalised index is inside its axis (a negative index has size(i) added), fails with out_of_range otherwise, and yields start + sum idx[i] * step(i) |
| Mat.Matrix.CellIsElement | inc/mat_impl.h:420-431 | the cell an in-range index addresses is the element at its row-major position |
| Mat.Matrix.Size | inc/mat_impl.h:318-330 | size() is the product of the extents, whichever of its two branches runs |
| Mat.Matrix.Reset | inc/mat_impl.h:309-316 | the handle holds no manager and no pointer, the flag is 0 and every extent and stride is 0 |
| Mat.Matrix.constructor | inc/mat_impl.h:113-116 | a default matrix is reset |
| Mat.Matrix.RecalcContinuous | inc/mat_impl.h:93-105 | afterwards CONTINUOUS is set exactly when the layout passes the continuity test; only that bit toggles, VIEW and the layout are untouched |
| Mat.Matrix.InitShape | inc/mat_impl.h:75-91 | a zero extent throws invalid_argument and changes nothing; otherwise the strides are row-major, fresh storage holds size() copies of the initial value, the start is the storage's first slot and the flag is exactly CONTINUOUS |
| Mat.Matrix.Create1 | inc/mat_impl.h:128-134 | a zero size throws invalid_argument and leaves a reset handle; otherwise a continuous rank-1 matrix of siz copies |
| Mat.Matrix.Create2 | inc/mat_impl.h:136-142 | a zero extent throws invalid_argument and leaves a reset handle; otherwise a continuous rw x cl matrix with strides [cl, 1] holding copies of the value |
| Mat.Matrix.CreateSizes | inc/mat_impl.h:169-177 | a shape of the wrong rank throws invalid_argument before the reset, a zero extent throws it after; otherwise a continuous row-major matrix of that shape holding copies of the value |
| Mat.Matrix.CreateNested | inc/mat_impl.h:188-206 | the extents are the collected widths of the initializer; a zero width throws invalid_argument; otherwise the matrix is continuous and holds the initializer's values over value-initialised storage |
| Mat.Matrix.FillNested | inc/mat_impl.h:200-204 | the loop writes initializer i into row i, giving the overlay of the whole initializer |
| Mat.Matrix.CreateList | inc/mat_impl.h:208-227 | an empty list throws invalid_argument before the reset; otherwise a continuous rank-1 matrix holding the list in order |
| Mat.Matrix.FromParts | inc/mat_impl.h:295-307 | the view constructor takes the manager, start, extents and strides given, sets VIEW and recomputes CONTINUOUS |
| Mat.Matrix.IndexElement | inc/mat_impl.h:379-407 | rank-1 operator[]: an invalid matrix throws logic_error; a negative index has size(0) added; an index still outside the axis throws out_of_range; otherwise the addressed slot holds the element at that position |
| Mat.Matrix.IndexView | inc/mat_impl.h:379-407 | operator[] on rank >= 2: the same checks, and the result is a view sharing the buffer whose start moves by idx strides, with the trailing extents and strides, holding row idx's elements |
| Mat.Matrix.Locate | inc/mat_impl.h:409-428 | an invalid matrix throws logic_error, otherwise the index walk of at() |
| Mat.Matrix.At | inc/mat_impl.h:409-463 | full at(): logic_error on an invalid matrix, out_of_range on an index outside its axis after normalisation; otherwise the offset start + sum idx[i] * step(i) holding the cell at the normalised index |
| Mat.Matrix.AtView | inc/mat_impl.h:430-434 | partial at(): the same checks on the supplied indices; the result is a view sharing the buffer with the trailing extents and strides whose cell q is the parent's cell at the index extended by q |
| Mat.Matrix.ViewOf | inc/mat_impl.h:476-510 | more ranges than Dim throw invalid_argument; the const form throws logic_error on an invalid matrix; otherwise the view configuration's error or a view with the original strides, flagged VIEW, with continuity recomputed, whose cell j is the parent's cell j + lower corner |
| Mat.Matrix.MakeView | inc/mat_impl.h:482-484 | cutting a view: the first bad range's error, or a VIEW handle on the same buffer with the view's extents and start |
| Mat.Matrix.RowView | inc/mat_impl.h:525-536 | row_view(idx) is the view {idx, idx} x {0, -1}: the const form throws logic_error on an invalid matrix; otherwise it fails exactly when the normalised row is outside the first axis (out_of_range) or there are no columns (invalid_argument, checked second), and succeeds with a 1 x cols view whose cells are row idx of the parent |
| Mat.Matrix.ColView | inc/mat_impl.h:512-523 | col_view(idx) is the view {0, -1} x {idx, idx}: the const form throws logic_error on an invalid matrix; otherwise it fails exactly when there are no rows (invalid_argument, checked first) or the normalised column is outside the second axis (out_of_range), and succeeds with a rows x 1 view whose cells are column idx of the parent |
| Mat.Matrix.Assign | inc/mat_impl.h:538-546 | copy assignment is shallow: the same manager, start, extents and strides, the flag with VIEW added, hence the same elements |
| Mat.Matrix.Copy | inc/mat_impl.h:118-126 | the copy constructor, and the move constructor which also copies, give a shallow VIEW copy |
| Mat.Matrix.MoveAssign | inc/mat_impl.h:548-560 | move assignment takes over the source's layout and flag exactly, and the source loses its manager, pointer and flag but keeps its extents and strides |
| Mat.Matrix.Begin | inc/mat_impl.h:633-636 | begin() is an iterator at row-major position 0 on the matrix's block |
| Mat.Matrix.End | inc/mat_impl.h:638-641 | end() points size(0) * step(0) past the start and sits at position size() |
| Mat.Matrix.Clone | inc/mat_impl.h:562-583 | an invalid matrix throws logic_error; otherwise a fresh continuous matrix with row-major strides, start 0 and flag CONTINUOUS, in fresh storage, whose elements equal the source's |
| Mat.Matrix.CloneOf | inc/mat_impl.h:569-580 | both branches of clone (raw copy of a continuous source, iterator copy otherwise) give the source's elements |
| Mat.Matrix.CopyManager | inc/mat_impl.h:573 | the manager built from raw_begin() holds the elements in order |
| Mat.Matrix.ReadInto | inc/mat_impl.h:579 | copying through begin() gives the elements in row-major order |
| Mat.Matrix.Reshape | inc/mat_impl.h:585-603 | an invalid matrix or a non-continuous one throws logic_error; a changed element count throws invalid_argument and changes nothing; otherwise only extents and strides are rewritten, to row-major, the elements are unchanged, and reshaping to the current extents restores the strides |
| Mat.Matrix.Reinterpret | inc/mat_impl.h:605-631 | an invalid or non-continuous matrix throws logic_error; a changed element count throws invalid_argument; otherwise a handle on the same manager and start with the new row-major layout, the source's flag and the same elements |
| Mat.Matrix.Reinterpreted | inc/mat_impl.h:624-630 | the reinterpreted handle shares buffer, start and flag and has the new row-major layout and the same elements |
| Mat.Matrix.RawEnd | inc/mat_impl.h:658-664 | a non-continuous matrix throws logic_error; otherwise start + size(), and the window up to it is the element sequence |
| Mat.Matrix.Front | inc/mat_impl.h:666-669 | front() addresses the first row-major element |
| Mat.Matrix.BackAsWritten | inc/mat_impl.h:671-674 | as written back() always throws out_of_range (Finding 2) |
| Mat.Matrix.Back | inc/mat_impl.h:671-674 | corrected back(): the last row-major element |
| Mat.Matrix.Transpose | inc/mat_impl.h:699-712 | a non-square view throws logic_error; a square view swaps at(i, j) with at(j, i) in place and changes nothing outside its block; a non-view becomes a fresh continuous cols x rows matrix with its cell (j, i) equal to the old cell (i, j) |
| Mat.Matrix.SwapBelowDiagonal | inc/mat_impl.h:706-708 | the two loops leave every cell (a, b) holding the old cell (b, a), and nothing outside the block changes |
| Mat.Matrix.SwapRow | inc/mat_impl.h:707-708 | the inner loop of one row establishes the invariant at the diagonal |
| Mat.Matrix.SwapPair | inc/mat_impl.h:708 | one std::swap extends the invariant by one column |
| Mat.Matrix.Transposed | inc/mat_impl.h:714-726 | an invalid matrix throws; rank 2 gives a fresh continuous cols x rows matrix with res.at(j, i) == at(i, j); rank 1 gives a fresh size x 1 column holding the elements |
| Mat.Matrix.TransposedCopy | inc/mat_impl.h:718-722 | the rank-2 branch: res.at(j, i) == at(i, j) for every cell |
| Mat.Matrix.TransposedColumn | inc/mat_impl.h:724 | the rank-1 branch clone().reinterpret(size(), 1): a column holding the elements |
| Mat.Matrix.CopyTransposed | inc/mat_impl.h:719-721 | the copy loops write every cell of the result |
| Mat.Matrix.CopyCell | inc/mat_impl.h:721 | one assignment extends the copy invariant |
| Mat.Matrix.ColumnCells | inc/mat_impl.h:724 | a size x 1 reinterpretation of a rank-1 clone has cell (a, 0) equal to cell a |
| Mat.ViewCells | inc/mat_impl.h:297-307 | the cells of a view built from a configuration are the parent's cells shifted by the lower corner |
| Mat.BitSetView | inc/mat_impl.h:544 | or-ing VIEW into the flag sets VIEW and keeps CONTINUOUS |
| Mat.BitToggle | inc/mat_impl.h:103-104 | xor-ing CONTINUOUS flips that bit and keeps VIEW |
| Mat.ProductOf | inc/mat_impl.h:596-598 | the loop over the new extents computes their product |
| Mat.NewMatrix | inc/mat_impl.h:241-252 | the shape constructor: a wrong rank or a zero extent throws invalid_argument, otherwise a fresh continuous row-major matrix of copies of the value |
| Simd.Quotients | inc/kernel/simd.h:69 | one C++ quotient per position, as many as there are dividends |
| Simd.ZipLoop | inc/kernel/simd.h:10-14 | each of the size destination entries becomes f of the two operand entries at its offset as they were before the loop, even when the destination is an operand that does not start after it; nothing else in the destination changes |
| Simd.Zip | inc/kernel/simd.h:10-14 | the destination window equals the pairwise combination of the two operand windows as they were before; nothing else changes |
| Simd.ZipValue | inc/kernel/simd.h:16-21 | each destination entry becomes f of the operand entry at its offset and the single value; nothing else changes |
| Simd.ValueZip | inc/kernel/simd.h:23-28 | each destination entry becomes f of the single value and the operand entry at its offset; nothing else changes |
| Simd.VecAdd | inc/kernel/simd.h:9-14 | the destination window is the element-wise sum of the operand windows; nothing else changes |
| Simd.VecAddValue | inc/kernel/simd.h:16-21 | each destination entry is the operand entry plus the value; nothing else changes |
| Simd.ValueVecAdd | inc/kernel/simd.h:23-28 | each destination entry is the value plus the operand entry; nothing else changes |
| Simd.VecSub | inc/kernel/simd.h:30-35 | the destination window is the element-wise difference of the operand windows; nothing else changes |
| Simd.VecSubValue | inc/kernel/simd.h:37-42 | each destination entry is the operand entry minus the value; nothing else changes |
| Simd.ValueVecSub | inc/kernel/simd.h:44-49 | each destination entry is the value minus the operand entry; nothing else changes |
| Simd.VecMul | inc/kernel/simd.h:51-56 | the destination window is the element-wise product of the operand windows; nothing else changes |
| Simd.VecMulValue | inc/kernel/simd.h:58-63 | each destination entry is the operand entry times the value; nothing else changes |
| Simd.VecDiv | inc/kernel/simd.h:65-70 | the destination window is the element-wise C++ quotient (truncated toward zero) of the operand windows; nothing else changes |
| Simd.QuotientsAgree | inc/kernel/simd.h:69 | where no divisor is zero, the total quotient used by the shared loop is the C++ quotient at every position |
| Algo.RawRange | inc/mat_impl.h:653-664 | raw_begin()/raw_end() of a continuous block, as a pair of cursors walking exactly the buffer window in order |
| Algo.Transform2 | inc/mat_ops.h:66-77 | binary std::transform writes dst[d + k] = f(x_k, y_k) for every element the first cursor visits and nothing else |
| Algo.Transform1 | inc/mat_ops.h:79-85 | unary std::transform writes dst[d + k] = f(x_k) for every element and nothing else |
| Algo.CmpN | inc/mat_ops.h:96-103 | the compare loop returns true exactly when every visited pair is equal, stopping at the first mismatch |
| Algo.CopyN | inc/mat_ops.h:184-205 | std::copy_n through the target's cursor writes the first n source elements into the target's row-major positions and nothing outside its footprint; source and target may share a buffer when their blocks are disjoint or the same |
| Algo.FillN | inc/mat_ops.h:207-221 | std::fill_n through the target's cursor sets every element of the target block to val and nothing outside its footprint |
| Algo.AccumulateFrom | inc/mat_func.h:15-19 | the accumulate loop from the cursor's position to the end folds func over the remaining elements from the seed |
| Algo.ApplyEach | inc/mat_func.h:116-122 | the apply loop replaces every element of the block by op of it, exactly once, and changes nothing outside the footprint |
| Ops.Cursors | inc/mat_ops.h:66-77 | the cursor pair of an operand is raw pointers over the window when it is continuous and strided iterators otherwise; either way it visits the operand's elements in row-major order |
| Ops.RawCursors | inc/mat_ops.h:66-77 | a continuous operand is walked by raw pointers: a rank-1 cursor of stride 1 over the whole window, at position 0, visiting the elements in order |
| Ops.IterCursors | inc/mat_ops.h:66-77 | a non-continuous operand is walked by begin()/end(): a cursor on its own extents and strides, at position 0, visiting the elements in order |
| Ops.TransformInto | inc/mat_ops.h:66-77 | whichever cursors are used, the continuous result receives the pairwise combination of the element sequences |
| Ops.MatApply2 | inc/mat_ops.h:66-77 | binary mat_apply: the result's elements are func of the operands' k-th elements, for every k, in all four continuity branches; nothing outside the result's window changes |
| Ops.MatApply1 | inc/mat_ops.h:79-85 | unary mat_apply: the result's k-th element is func of the operand's k-th element |
| Ops.CmpRuns | inc/mat_ops.h:96-103 | _Mat_cmp_n over two walks of equal length is true exactly when the sequences are equal |
| Ops.MatCmp | inc/mat_ops.h:118-129 | mat_cmp is true exactly when the row-major element sequences are equal, whichever operand leads |
| Ops.CmpLeading | inc/mat_ops.h:120-125 | comparing along the leading operand's cursors decides equality of the element sequences |
| Ops.Equal | inc/mat_ops.h:531-544 | == throws logic_error on an invalid operand, is false on a shape mismatch and otherwise true exactly when every row-major pair is equal |
| Ops.NotEqual | inc/mat_ops.h:546-550 | != is the negation of == with the same error |
| Ops.AssignFrom | inc/mat_ops.h:184-205 | matrix <<=: logic_error on an invalid target, then invalid_argument on a shape mismatch, then logic_error on a source without storage (the iterator's valid_check, inc/kernel/iter.h:31-32, 65-68), each with the buffer unchanged; it succeeds exactly when none applies, and then the target's elements become the source's, written through the shared buffer, and nothing outside the target's footprint changes |
| Ops.CopyInto | inc/mat_ops.h:190-204 | the copy branches of <<= give the source's elements in the target, also between disjoint or identical handles on one buffer |
| Ops.Fill | inc/mat_ops.h:207-221 | scalar <<=: logic_error on an invalid target; otherwise every element of the target is val and nothing outside its footprint changes |
| Ops.Alloc | inc/mat_ops.h:228 | the result matrix of an operator is a fresh continuous value-initialised matrix of the operand's shape |
| Ops.ZipCells | inc/mat_ops.h:66-77 | a result whose elements are the zip of the operands' has every cell equal to func of the operands' cells at the same index |
| Ops.Add | inc/mat_ops.h:223-235 | + on two matrices: logic_error on an invalid operand, invalid_argument on unequal shapes, otherwise a fresh matrix of the shape holding the element-wise sums |
| Ops.AddScalar | inc/mat_ops.h:237-247 | matrix + scalar: each element plus v |
| Ops.ScalarAdd | inc/mat_ops.h:261-270 | scalar + matrix: v plus each element |
| Ops.Sub | inc/mat_ops.h:272-292 | - on two matrices: the same checks; the vec_sub fast path for continuous operands and the mat_apply path give the element-wise differences |
| Ops.SubRuns | inc/mat_ops.h:283-288 | the vec_sub fast path on continuous operands yields the element-wise difference |
| Ops.RunSlices | inc/mat_ops.h:283-288 | continuous operands are buffer windows, so the element sequences are the windows vec_sub reads |
| Ops.SubScalar | inc/mat_ops.h:294-312 | matrix - scalar: each element minus v |
| Ops.ScalarSub | inc/mat_ops.h:314-323 | scalar - matrix: v minus each element |
| Ops.Mul | inc/mat_ops.h:413-433 | mul: the same checks; the vec_mul fast path and the mat_apply path give the element-wise products |
| Ops.MulRuns | inc/mat_ops.h:424-429 | the vec_mul fast path yields the element-wise product |
| Ops.MulScalar | inc/mat_ops.h:435-453 | matrix * scalar: each element times v |
| Ops.ScalarMul | inc/mat_ops.h:455-464 | scalar * matrix: v times each element |
| Ops.Div | inc/mat_ops.h:466-486 | / on two matrices: the same checks; the vec_div fast path and the mat_apply path give the element-wise C++ quotients |
| Ops.DivRuns | inc/mat_ops.h:477-482 | the vec_div fast path yields the element-wise C++ quotient |
| Ops.DivScalar | inc/mat_ops.h:488-506 | matrix / scalar: each element divided by v, truncated toward zero |
| Ops.ScalarDiv | inc/mat_ops.h:508-517 | scalar / matrix: v divided by each element, truncated toward zero |
| Ops.Lt | inc/mat_ops.h:552-563 | < : the same checks; a fresh bool matrix of the shape holding a_k < b_k |
| Ops.Le | inc/mat_ops.h:565-576 | <= : element-wise a_k <= b_k |
| Ops.Gt | inc/mat_ops.h:578-589 | > : element-wise a_k > b_k |
| Ops.Ge | inc/mat_ops.h:591-602 | >= : element-wise a_k >= b_k |
| Ops.RowCell | inc/mat_ops.h:349-350 | gemm's raw address start + r * step(0) + k of a rank-2 operand is its element (r, k) |
| Ops.RowBound | inc/mat_ops.h:349-350 | every row gemm reads lies inside the operand's buffer |
| Ops.OperandsAgree | inc/mat_ops.h:349-350 | gemm over the operands' raw buffers computes the same tile sums as over their row-major element sequences |
| Ops.GemmInto | inc/mat_ops.h:349-350 | the call into gemm leaves every result element equal to the tile sum over the operands' elements |
| Ops.MatMul | inc/mat_ops.h:337-363 | corrected rank-2 *: logic_error on an invalid operand, invalid_argument when cols() != b.rows(), otherwise a fresh M x N matrix holding the matrix product |
| Ops.MatMulAsWritten | inc/mat_ops.h:337-363 | rank-2 * as written: the same checks, and every result element is gemm's tile sum with destination stride 1 (Finding 1) |
| Ops.MatVec | inc/mat_ops.h:365-374 | matrix * vector: the same checks against the vector's length; through reinterpret and the rank-2 product as written (stride 1), the result is the M x 1 matrix product |
| Ops.VecDot | inc/mat_ops.h:376-388 | vector * vector: logic_error on an invalid operand, invalid_argument on unequal lengths, otherwise the sum of a[i] * b[i] |
| Ops.DotRun | inc/mat_ops.h:383-386 | the dot-product loop over two continuous windows sums the pairwise products |
| Ops.DotIsProduct | inc/mat_ops.h:376-388 | the dot product is the single entry of the 1 x n times n x 1 matrix product |
| Ops.VecMat | inc/mat_ops.h:390-399 | vector * matrix: the same checks; through the rank-2 product as written (stride 1), the result is the 1 x N matrix product, as a rank-1 matrix |
| Ops.VectorContinuous | inc/mat_ops.h:383 | a valid rank-1 matrix is continuous with stride 1 |
| Gemm.Gemm | inc/mat_ops.h:131-180 | for any tile size, every dst cell becomes its old value plus the tile sum, which puts the product entry at i * step_dst + j and changes no other cell |
| Gemm.RowTile | inc/mat_ops.h:143-178 | one row tile adds the products of its rows over all of K and all columns, and leaves the accumulator zero |
| Gemm.KTile | inc/mat_ops.h:144-177 | one inner tile of a row tile: copies a's tile, then adds that tile's products over all columns to dst, and leaves the accumulator zero |
| Gemm.ColTiles | inc/mat_ops.h:152-177 | the column-tile loop adds the row tile's contribution for one K tile over all columns |
| Gemm.Tile | inc/mat_ops.h:153-176 | one (i, k, j) tile adds exactly its block of products to dst and leaves the accumulator zero |
| Gemm.CopyA | inc/mat_ops.h:146-150 | a_buf[i][k] is a[(i + bi) * step_a + bk + k] for the tile |
| Gemm.CopyARow | inc/mat_ops.h:147-149 | one row of a_buf is copied and the other rows are unchanged |
| Gemm.CopyB | inc/mat_ops.h:155-159 | b_buf[k][j] is b[(k + bk) * step_b + bj + j] for the tile |
| Gemm.CopyBRow | inc/mat_ops.h:156-158 | one row of b_buf is copied and the other rows are unchanged |
| Gemm.Multiply | inc/mat_ops.h:161-168 | the accumulator holds, in the tile, the partial products over the K tile and zero elsewhere |
| Gemm.MulRow | inc/mat_ops.h:162-167 | the accumulator row i holds the partial products of its columns over the K tile |
| Gemm.MulAxpy | inc/mat_ops.h:164-166 | one step of the innermost loop adds a[i][k] * b[k][j] to every column of accumulator row i |
| Gemm.Flush | inc/mat_ops.h:170-176 | the flush adds the accumulator tile into dst at the destination stride and zeroes the accumulator |
| Gemm.FlushRow | inc/mat_ops.h:171-175 | flushing one row adds it into dst at (i + bi) * step_dst + bj and zeroes it |
| Gemm.BlockSplitR | inc/mat_ops.h:142-143 | the tile sum over rows splits at any row boundary |
| Gemm.BlockSplitK | inc/mat_ops.h:144-145 | the tile sum over the inner axis splits at any K boundary |
| Gemm.BlockSplitC | inc/mat_ops.h:152-153 | the tile sum over columns splits at any column boundary |
| Gemm.BlockHit | inc/mat_ops.h:170-175 | with the destination stride at least N, the cell at i * step_dst + j receives exactly the product sum of (i, j) |
| Gemm.BlockMiss | inc/mat_ops.h:170-175 | rows outside a row tile add nothing to a cell of a row inside it |
| Gemm.ProdIsEntry | inc/mat_ops.h:161-168 | the accumulated sum of a[i][k] * b[k][j] is the naive product entry |
| Gemm.ProductCell | inc/mat_ops.h:131-180 | with destination stride N the tile sum at every cell q is entry q of the matrix product |
| Gemm.ProductWhole | inc/mat_ops.h:131-180 | a sequence equal to the tile sums at destination stride N is the matrix product |
| Gemm.VectorProductAsWritten | inc/mat_ops.h:365-399 | for a one-row or one-column result, a sequence equal to the stride-1 tile sums is the matrix product |
| Gemm.StrideOneOnVectors | inc/mat_ops.h:349-350 | for M == 1 or N == 1 destination stride 1 gives the same result as stride N, so the rank-1 products are unaffected by Finding 1 |
| Gemm.StrideOneMissesEntry | inc/mat_ops.h:349-350 | for A = [[1,1,4],[5,1,4]] and B = [[1,2],[3,4],[5,6]] the stride-1 call leaves flat cell 3 at 0 while the product has 38 there |
| Gemm.StrideOneSkipsThree | inc/mat_ops.h:349-350 | for every 2 x 3 and 3 x 2 operands, the stride-1 call never writes flat cell 3 of the result |
| Gemm.EntryOneOne | inc/mat_ops.h:337-363 | on the example operands the product has 38 at flat cell 3 |
| Func.Accumulate | inc/mat_func.h:8-22 | seeded accumulate: logic_error on an invalid matrix, otherwise func folded over the row-major elements from the seed, on either branch |
| Func.AccumulateFront | inc/mat_func.h:24-41 | unseeded accumulate: logic_error on an invalid matrix, otherwise func folded over the elements after front() starting from front() |
| Func.Max | inc/mat_func.h:43-48 | max() is an element and no element exceeds it |
| Func.Min | inc/mat_func.h:50-55 | min() is an element and no element is below it |
| Func.Total | inc/mat_func.h:57-63 | sum() is the total of the elements |
| Func.FrontFoldMax | inc/mat_func.h:45-47 | folding the max step from the first element gives a maximum of the sequence |
| Func.FrontFoldMin | inc/mat_func.h:52-54 | folding the min step from the first element gives a minimum of the sequence |
| Func.CountIf | inc/mat_func.h:77-83 | count_if is the number of elements satisfying cond, hence at most size() |
| Func.Count | inc/mat_func.h:85-88 | count(v) is the number of positions holding v |
| Func.CountNonzero | inc/mat_func.h:90-94 | count_nonzero is the number of positions holding a non-zero value |
| Func.Maps | inc/mat_func.h:101-109 | maps: logic_error on an invalid matrix, otherwise a fresh matrix of the same shape whose k-th element is mapper of the k-th element |
| Func.Apply | inc/mat_func.h:111-123 | apply: logic_error on an invalid matrix, otherwise every element is replaced by op of it, once, in place, and nothing outside the footprint changes |
| Func.Zeros | inc/mat_func.h:125-131 | zeros: a fresh matrix of the shape with every element 0, invalid_argument on a zero extent |
| Func.Ones | inc/mat_func.h:133-139 | ones: a fresh matrix of the shape with every element 1, invalid_argument on a zero extent |
| Func.Eye | inc/mat_func.h:141-151 | eye(n): a zero size throws invalid_argument; otherwise a fresh n x n matrix holding the identity |
| Func.OnDiagonalNext | inc/mat_func.h:146-149 | after i + 1 pointer steps exactly the offsets of the first i + 1 diagonal cells have been written |
| Func.DiagonalStep | inc/mat_func.h:148 | the i-th step of siz + 1 lands on cell (i, i) |
| Func.IdentityCell | inc/mat_func.h:141-151 | the cell (i, j) of eye(n) is 1 when i == j and 0 otherwise |
| Func.EyeIsIdentity | inc/mat_func.h:141-151 | eye(n) times any n x N matrix is that matrix |
| Seqs.FoldAddIsSum | inc/mat_func.h:60-62 | folding += from r gives r plus the total |
| Seqs.FoldMaxIsMaximum | inc/mat_func.h:45-47 | folding the max step from r gives a value at least r and every element, equal to r or to some element |
| Seqs.FoldMinIsMinimum | inc/mat_func.h:52-54 | folding the min step from r gives a value at most r and every element, equal to r or to some element |
| Seqs.FoldCountIsMatching | inc/mat_func.h:80-82 | folding res += cond(ele) from 0 counts the matching elements |
| Seqs.FoldCountBound | inc/mat_func.h:80-82 | that count never exceeds the number of elements |

## Left out

- `bind` and the pointer overloads of `create` and the constructors (inc/mat_impl.h:106-111, 144-167, 272-293) wrap caller-owned memory through an unchecked pointer with `clone = false`. They are not modelled. `Data.MatrixData.FromPointer` keeps the aliasing case at the manager level.
- `print`, `operator<<` and the formatter (inc/mat_ops.h:11-63) are text formatting and stream output.
- `mean` (inc/mat_func.h:65-75), `_Mat_cmp_eps_n` and `mat_cmp_eps` (inc/mat_ops.h:87-116), the `==` branch for floating types, and the global epsilon all need floating point, which is not modelled.
- `random` (inc/mat_func.h:153-164) needs a random engine. It also has no return statement, which is undefined behaviour.
- The compound assignments `+=`, `-=`, scalar `*=`, `/=` and `fill` (inc/mat_ops.h:249-259, 325-335, 401-411, 519-529; inc/mat_func.h:96-99) call the comparison `<=` and discard its bool matrix instead of assigning. They do not do what their names say, and are not modelled. The rank-2 `*=` is a const member that assigns to `*this`, and is not modelled either.
- The scalar `/` fast path (inc/mat_ops.h:497-502) is taken when the scalar has the element type. It calls `simd::vec_div(raw_begin(), b, ...)` with a scalar `b`, but the only `vec_div` (inc/kernel/simd.h:65-70) takes a pointer as its second argument, so `Matrix<int> / int` does not compile. `Ops.DivScalar` models the instantiation in which the scalar has another arithmetic type, which takes the `mat_apply` path.
- Returning a local matrix by value (`return res;` in `clone`, `reinterpret`, `transposed` and every operator) is modelled as named-return copy elision. Without elision, the move constructor (inc/mat_impl.h:123-126) copy-assigns, which adds VIEW to the flag (inc/mat_impl.h:544). Then the flags that Mat.Matrix.Clone, Mat.Matrix.Reinterpret, Mat.Matrix.Transposed and the fresh results of the operators state would also carry VIEW. Elements, layout and buffers are the same either way.
- Mat.Matrix.Reinterpret: only the same element type is modelled. The byte-size check `tot * sizeof(U) == size() * sizeof(T)` is taken with equal sizes, so it is the element-count check. The `elemSize` parameter is only carried. Type punning of the bits is not modelled.
- Element arithmetic in `Ops`, `Simd`, `Func` and `Gemm` is on unbounded `int`. C++ overflow of `int`, `size_t` extents and `ptrdiff_t` offsets is not modelled.
- Gemm.Gemm: the tile size `BS = 1024 / sizeof(T)` is a parameter `bs > 0`, and the result is proved for every value of it. The `alignas` and `#pragma omp simd` hints have no semantic effect.
- The non-arithmetic branch of rank-2 `operator*` (inc/mat_ops.h:351-361) is only used for non-arithmetic element types. The model's element type is `int`, so that branch is not modelled.
- Ops.AssignFrom: when target and source share a buffer and have one shape, requires their blocks to be disjoint (e.g. `m[0] <<= m[1]`) or to be the same block walked the same way (a self-copy). Partly overlapping blocks, such as a view assigned from a shifted view of the same rows, are excluded: copy_n walking both at once reads cells that its earlier steps have already overwritten, so the target does not in general end up with the source's old elements, and the model does not describe what it holds instead.
- Ops.AssignFrom: requires that a source without storage is not flagged continuous. Such a source, e.g. a non-const view of a moved-from matrix, would be read through a null raw pointer, which is undefined behaviour.
- Ops.Div, Ops.ScalarDiv and Ops.DivScalar: require every divisor to be non-zero once the validity and shape checks have passed. C++ integer division by zero is undefined behaviour. The error paths before any division are modelled for every divisor.
- Func.Maps, Mat.Matrix.Transposed and Mat.Matrix.CreateNested take an explicit `zero` value. It stands in for the value-initialisation of `T()` in a fresh buffer.
- Every `vec_*` kernel of inc/kernel/simd.h is modelled. The operators call only `vec_sub` and `vec_mul`, in both their array and scalar forms, and the array form of `vec_div` (inc/mat_ops.h:285, 305, 426, 446, 479). `Simd.VecAdd` and the add kernels are never called: `+` always goes through `mat_apply`.
- The const and non-const duplicates of `operator[]`, `at`, `begin`/`end`, `raw_begin`/`raw_end`, `front`/`back`, `view`, `row_view` and `col_view` share one model. An `isConst` flag selects the extra validity check where the const form has one.
- Ops and Func require operands that satisfy the class invariant `Valid()`. An invalid handle, with no manager, is one such state and is modelled with its errors. Handles with a zero extent exist only after `reset` and have no buffer.
- `std::allocator`, `shared_ptr` reference counting and destructors (inc/kernel/data.h:72-78) are memory management. A manager is a Dafny object with an array, and sharing is object identity.
- The `dims`, `rows`, `cols`, `size(i)`, `step(i)`, `get_flag`, `data` and `index` accessors are field reads in the model.
- Iterator comparisons (inc/kernel/iter.h:187-209) compare the pointer only. They are predicates on `ptr`, and `Iter.PointerOrderIsPositionOrder` relates them to positions.

## Findings

| source | as written | input that shows it | evidently intended | confidence | as-written member | corrected member |
|---|---|---|---|---|---|---|
| inc/mat_ops.h:349-350 | rank-2 `operator*` passes `1` as `step_dst` to `gemm`, so result row i is written at offset i instead of i * N; for M, N >= 2 the rows overlap and cells are summed into the wrong places | A = [[1,1,4],[5,1,4]], B = [[1,2],[3,4],[5,6]]: flat cell 3 (row 1, column 1) is never written and stays 0, while the product has 38 there | `step_dst = N` (the result's row stride), giving the matrix product | not executed | Ops.MatMulAsWritten, Gemm.StrideOneMissesEntry | Ops.MatMul, Gemm.ProductWhole |
| inc/mat_impl.h:671-674, inc/kernel/iter.h:141-145 | `back()` is `*--end()`, but prefix `operator--` returns a copy of the iterator taken before the move, so the dereference is of `end()` itself and always throws out_of_range | any valid matrix, e.g. the rank-1 matrix [1, 2, 3]: `back()` throws instead of returning 3 | `back()` returns the last row-major element | not executed | Mat.Matrix.BackAsWritten | Mat.Matrix.Back |
