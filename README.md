# dapx over WebAssembly memory, in Dafny

This project models the `dapx` routine of `@stdlib/blas-ext-base-wasm-dapx`. The
routine adds a scalar `alpha` to the `N` elements of a strided array `x` that sit at
positions `offsetX + i*strideX`, for `0 <= i < N`, and updates `x` in place. The
arithmetic runs in a compiled WebAssembly module over that module's linear memory. The
JavaScript `Routine` object around it has two entry points:

- `main(N, alpha, x, strideX)` derives the start from the stride, using offset 0 for a
  positive stride and `(1-N)*strideX` otherwise. It then calls `ndarray`.
- `ndarray(N, alpha, x, strideX, offsetX)` works in three steps:
  1. It stages `x` into module memory. The memory is reused if `x` already lives there.
     Otherwise the `N` visited elements are copied into a unit-stride block at offset 0.
  2. It runs the kernel on memory.
  3. When a copy was made, it reads the `N` results back into `x` with the original
     stride and offset. It returns `x` itself.

Files:

- `strided.dfy` (module `Strided`) holds the pure part:
  - the indexing law `Pos`;
  - the offset rule `Stride2Offset`;
  - `AddStrided`, the direct meaning of the kernel, defined step by step the way the kernel loop runs;
  - `Gather`, `Shift` and `Scatter`, the staging copy, the block after the kernel and the read-back;
  - the lemmas that relate them.
- `routine.dfy` (module `WasmDapx`) holds the `Routine` class:
  - its memory is an `array<real>`;
  - `CopyIn`, `Kernel` and `ReadBack` are the three loops;
  - `Stage` models the staging step;
  - `Ndarray` and `Dapx` are the two entry points. `Dapx` is `main`.
  Each method is proved against the functions in `Strided`.
- `examples.dfy` (module `DapxExamples`) states the outcome of each documented and each
  tested call of the routine as assertions that the verifier checks against the model's
  contracts. It also covers a stride-0 call on each of the two paths.

Array semantics follow typed arrays. A store at a position outside `x` is dropped, so
the read-back leaves `x` unchanged there. The tail test relies on this: the third visit
of `ndarray(3, 5.0, x, 2, 1)` on five elements lands on index 5.

Stride 0 behaves differently on the two paths, and the model states both as the code
behaves:
- On the copy path, staging copies the one element `N` times and the kernel adds `alpha`
  to each copy. Every read-back store then goes to the same position, so that element
  gains `alpha` once (`StagedRoundTrip`, and `Ndarray`'s contract).
- Updating module memory in place adds `alpha` at every visit, so the element gains
  `N*alpha` (`ZeroStrideAccumulates`).

## Model

| member | source | states |
|---|---|---|
| Strided.Stride2Offset | lib/routine.js:119 | offset 0 for a positive stride and for stride 0; for a negative stride and `N > 0`, the offset is `(N-1)*(-stride)`, so the first visit is the highest position and the last visit lands on 0 |
| Strided.Stride2OffsetPositions | lib/routine.js:118-120 | under the simple entry point, visit `i` lands on `i*stride` for a positive stride and on `(N-1-i)*(-stride)` for a negative one |
| Strided.Stride2OffsetInBounds | lib/routine.js:118-120 | storage longer than `N-1` times the stride's magnitude holds every position the simple entry point visits |
| Strided.SimpleEntrySignOfStride | lib/routine.js:118-120 | under the simple entry point, a negative stride updates the same array as its magnitude |
| Strided.AddStrided | test/test.ndarray.js:65-79 | the direct update keeps the array's length; with `N <= 0` it leaves the array unchanged |
| Strided.AddStridedVisited | test/test.ndarray.js:41-52 | with a non-zero stride, every visited position inside the array ends up as its old value plus `alpha` |
| Strided.AddStridedUntouched | test/test.ndarray.js:81-91 | every position that no visit reaches keeps its old value |
| Strided.ZeroStrideAccumulates | lib/routine.js:163 | with stride 0, the single visited element gains `N*alpha` when updated in place |
| Strided.ReverseStride | test/test.ndarray.js:93-103 | starting at the last position and stepping by `-stride` gives the same result as the forward traversal |
| Strided.InBoundsIff | lib/routine.js:163 | the kernel's bounds condition holds exactly when every position `offset + i*stride`, `0 <= i < N`, lies inside memory |
| Strided.InBoundsUnitStride | lib/routine.js:157-163 | a staged unit-stride block of `N` slots that fits in memory satisfies the kernel's bounds condition |
| Strided.Gather | lib/routine.js:157-159 | the staging copy has one slot per visit; slot `i` holds the element at `offsetX + i*strideX` whenever that position is inside `x` |
| Strided.UnitStrideKernel | lib/routine.js:163 | the kernel on a unit-stride block adds `alpha` to each of its `N` slots and leaves the rest of memory as it was |
| Strided.UnitStrideBlock | lib/routine.js:163 | the same fact, stated slot by slot |
| Strided.ScatterAddedBlock | lib/routine.js:166-168 | with a non-zero stride, reading back a block that holds the old values plus `alpha` gives the direct update |
| Strided.CopyRoundTrip | lib/routine.js:157-168 | with a non-zero stride, gathering, adding `alpha` to every slot and scattering back with the original stride and offset gives the direct update |
| Strided.ScatterZeroStride | lib/routine.js:166-168 | with stride 0, reading back a block whose slots all hold the same value stores that value once |
| Strided.StagedRoundTrip | lib/routine.js:157-168 | the whole copy path, from staged memory through the kernel to the read-back, gives the direct update; with stride 0 the repeated visits collapse into one |
| WasmDapx.Routine.constructor | lib/routine.js:76-84 | a new routine owns a fresh, empty memory and is not yet initialized |
| WasmDapx.Routine.InitializeSync | lib/routine.js:51 | after the call the routine is initialized, which both entry points require; the module lifecycle behind it is listed under "## Left out" |
| WasmDapx.Routine.Allocate | lib/routine.js:157-159 | reserves `n` slots inside memory; growing memory keeps its old contents |
| WasmDapx.Routine.CopyIn | lib/routine.js:157-159 | the `N` reserved slots hold the gathered strided elements of `x`; no other memory slot changes |
| WasmDapx.KernelKeepsOutside | lib/routine.js:163 | the kernel on a staged unit-stride block writes no memory slot outside that block |
| WasmDapx.Routine.Kernel | lib/routine.js:163 | memory becomes the direct update of the view `(N, stride, ptr + offset)` |
| WasmDapx.Routine.ReadBack | lib/routine.js:166-168 | `x` becomes the old `x` with the `N` memory slots scattered into it at `offsetX + i*strideX`; stores outside `x` are dropped |
| WasmDapx.Routine.Stage | lib/routine.js:157-160 | it reports a copy exactly when `x` is not module memory; without a copy, the descriptor keeps `x`'s stride and offset and memory is untouched; with a copy, memory holds the staged elements at unit stride and offset 0, and every other slot of the old memory keeps its contents; `x` is never changed |
| WasmDapx.Routine.Ndarray | lib/routine.js:152-170 | it returns `x` itself; `N <= 0` changes nothing; when `x` is module memory, `x` becomes the direct update; otherwise `x` becomes the direct update too, except that stride 0 adds `alpha` once, and memory keeps its old contents outside one block of `N` slots |
| WasmDapx.Routine.Dapx | lib/routine.js:118-120 | `main`: the same as `Ndarray`, memory frame included, with the offset `Stride2Offset(N, strideX)` |

## Left out

- Numbers are exact reals. IEEE-754 rounding, NaN and infinities are not modelled.
- Memory is an array of elements, not bytes. The `DataView` encoding, its endianness flag and the `BYTES_PER_ELEMENT` scaling of strides and pointers are not modelled.
- The WebAssembly `Memory` object (0 initial pages), page growth and the growth ceiling are not modelled. A copy that would exceed that ceiling fails in the source; here `Allocate` always succeeds.
- WasmDapx.Routine.Allocate: the pointer policy of `arrays2ptrs` is not part of this model. `Allocate` grows memory to exactly `n` elements when it is too small and returns pointer 0. Only "some block of `n` slots inside memory" is relied on.
- An array that is a view of module memory is modelled as `x` being the memory array itself. Views at a non-zero byte offset into memory are not modelled.
- Reading a position outside `x` yields NaN in the source. Here the staging slot keeps its old value. Either way the read-back's store to that position is dropped, so `x` is the same.
- `lib/module.js` is not part of this model. It holds the compiled kernel and `initializeSync`. The kernel is modelled from its documented and tested behaviour. `initializeSync` is modelled as a ghost flag that the entry points require.
- The kernel checks no bounds. When `x` is module memory, `Ndarray` and `Dapx` therefore require every visited position to lie inside memory. The copy path needs no such condition.
- `@stdlib/strided-base-stride2offset` is not part of this model. `Stride2Offset` assumes its rule: offset 0 for a positive stride, and `(1-N)*stride` otherwise, stride 0 included.
- The non-enumerable read-only properties, `inherits`, and calling the constructor without `new` are JavaScript object plumbing and are not modelled.
- The compiled kernel takes `N`, the stride and the offset as 32-bit integers. The model's integers are unbounded, so wrap-around of very large values is not modelled. One example is a huge `N` with stride 0 on module memory.
- Growing WebAssembly memory detaches the views taken of it earlier. In the source, a `Float64Array` over memory taken before a call that grew memory has length 0 afterwards. In the model, growing allocates a new array, and the old array keeps its length and contents.
- WasmDapx.Routine.Ndarray: it does not name the block used for the copy. It says only that some block of `N` slots exists outside which memory keeps its contents, because the pointer policy is abstracted.
