# Progressive Fourier reconstruction: the spectral bookkeeping

This project models, in Dafny, the index bookkeeping of an openFrameworks/OpenCV
application. The application decomposes a grey-scale image into its Fourier
coefficients and rebuilds it one coefficient pair at a time, largest
magnitude first. The model covers the parts of `src/ofApp.cpp` that carry
that bookkeeping:

- **`fftshift`** (`fftshift.dfy`, module `Shift`): the quadrant swap that
  moves the zero-frequency entry to the centre of a grid. It is a pure
  function over a generic grid `seq<seq<T>>`, built from the same four blocks
  and the same `vconcat`/`hconcat` calls as the source. It is proved equal to
  a cyclic shift by `ceil(rows/2)` and `ceil(cols/2)`.
- **Zero padding** (`padding.dfy`, module `Padding`): `copyMakeBorder` with a
  constant zero border on the bottom and right only.
- **The ranking built by `setup`** (`ranking.dfy`, module `Ranking`):
  - the nested loops that collect `(magnitude, i, j)` tuples (method `Collect`);
  - the descending `std::sort` (function `SortDesc`);
  - the loop that keeps the `(i, j)` pairs (method `BuildRanking`).

  The result is proved to list every position of the image region exactly
  once, in strictly descending `(magnitude, row, column)` order.
- **The step `update`** (`spectrum.dfy`, module `Spectrum`, and `app.dfy`,
  module `Reconstruction`):
  - `Spectrum` states, as functions of the coefficient grid and the ranking,
    what one step writes (`Written`, `PutPair`) and what the buffers hold
    after any number of steps (`Accumulated`, `Current`, `AccumulatedGrid`,
    `CurrentGrid`).
  - `Reconstruction.App` is a class with the application's fields:
    - `frameMat` and `waveMat` are `array2` buffers, updated in place;
    - `currentIndex` is the cursor;
    - `fftMat` and `sortedIndices` are read-only values.

    Its invariant `Valid()` ties the buffers to those functions. `Update`
    keeps it.

Grids, positions and the shared index arithmetic live in `grids.dfy`
(module `Grids`).

The magnitudes are an input grid of reals, and complex entries are pairs of
reals. The padded sizes `m` and `n` (`getOptimalDFTSize`) are constructor
parameters with `height <= m` and `width <= n`.

In these places the code behaves differently from what a reader might expect; the model follows the code:

- **Ranking ties.** `std::greater` on `tuple<float, int, int>` breaks ties
  between equal magnitudes by the larger row, then the larger column. It is
  not a stable row-major order.
- **Conjugate index.** The conjugate index is
  `((height - i) % height, (width - j) % width)`. It is taken modulo the
  image size, not the padded transform size. So it is the Hermitian partner
  of the transform only when no padding is added. `Spectrum.AccumulatedHermitian`
  takes symmetry about the image size as its hypothesis (`Hermitian()`).
- **`fftshift` on odd sizes.** Swapping twice is a cyclic shift by one
  along every odd side and by nothing along every even side
  (`Shift.FftShiftTwice`). So the swap is its own inverse when every odd
  side has length 1 (`Shift.FftShiftSelfInverse`). Along an odd side longer
  than 1 it moves entries: the grid of positions does not come back
  (`Shift.FftShiftTwiceMoves`). The inverse for every size is a shift by the
  smaller halves (`Shift.FftShiftInverse`).
- **Stride 2.** The cursor moves on by 2, so only the even positions of the
  ranking are ever applied (`Spectrum.Decomposition.Applied`).

## Model

| member | source | states |
|---|---|---|
| Grids.Block | src/ofApp.cpp:13-16 | The view `Mat(g, Rect(left, top, w, h))`: an `h` x `w` grid whose entry `(r, c)` is `g[top + r][left + c]`. |
| Grids.VConcat | src/ofApp.cpp:26-27 | `vconcat`: the rows of the first grid followed by those of the second. |
| Grids.HConcat | src/ofApp.cpp:28 | `hconcat`: row `r` is row `r` of the first grid followed by row `r` of the second. |
| Shift.FftShift | src/ofApp.cpp:5-29 | The quadrant swap returns a fresh grid of the same dimensions; the input is a value and stays as it was. |
| Shift.FftShiftRow | src/ofApp.cpp:13-28 | Row `r` of the result is input row `(r + ceil(rows/2)) % rows` rotated left by `ceil(cols/2)`. |
| Shift.FftShiftAt | src/ofApp.cpp:8-28 | `out[r][c] == in[(r + ceil(rows/2)) % rows][(c + ceil(cols/2)) % cols]` for every entry. |
| Shift.FftShiftIsCyclicShift | src/ofApp.cpp:5-29 | The quadrant swap equals the cyclic shift by the larger halves, for even and odd sizes. |
| Shift.CyclicShiftRound | src/ofApp.cpp:8-11 | Shifting by `(dr, dc)` and then by the rest of the way round gives the grid back. |
| Shift.FftShiftInverse | src/ofApp.cpp:8-28 | Shifting the result on by `floor(rows/2)`, `floor(cols/2)` gives the input back for every size, so the swap is a permutation of the entries. |
| Shift.CyclicShiftTwice | src/ofApp.cpp:10-11 | Shifting twice by the larger halves is shifting by one along every odd side and by nothing along every even side. |
| Shift.FftShiftTwice | src/ofApp.cpp:5-29 | For every grid, swapping twice equals the cyclic shift by `rows % 2` rows and `cols % 2` columns. |
| Shift.FftShiftSelfInverse | src/ofApp.cpp:5-29 | When each side is even or has length 1, swapping twice gives the input back. |
| Shift.FftShiftTwiceMoves | src/ofApp.cpp:10-11 | For every size with an odd side longer than 1, swapping the grid of positions twice does not give it back. |
| Shift.FftShiftCentre | src/ofApp.cpp:8-28 | The zero-frequency entry `in[0][0]` lands at `(rows/2, cols/2)`. |
| Padding.Pad | src/ofApp.cpp:53-54 | The padded grid is `m` x `n`, and every entry outside the top-left `rows` x `cols` block is zero. |
| Padding.CropPad | src/ofApp.cpp:53-54 | The top-left `rows` x `cols` block of the padded grid is the original image. |
| Ranking.Greater | src/ofApp.cpp:74 | `greater<tuple<float, int, int>>`: lexicographic on `(magnitude, row, column)`, larger first. |
| Ranking.GreaterIsStrictTotal | src/ofApp.cpp:74 | That order is irreflexive and transitive, and relates two tuples one way or the other exactly when they differ. |
| Ranking.Enumerate | src/ofApp.cpp:67-72 | The row-major list of `(magnitude, i, j)` tuples the nested loops push; its properties are the three lemmas below. |
| Ranking.RowEntries | src/ofApp.cpp:68-71 | The inner loop's tuples for row `i` are `(mag[i][j], i, j)` for `j = 0 .. width - 1`, in order. |
| Ranking.EnumerateLength | src/ofApp.cpp:67-72 | The nested loops collect exactly `height * width` tuples. |
| Ranking.EnumerateMembers | src/ofApp.cpp:67-72 | A tuple is collected if and only if its position lies in the region and its magnitude is that position's. |
| Ranking.EnumerateDistinct | src/ofApp.cpp:67-72 | No tuple is collected twice. |
| Ranking.Collect | src/ofApp.cpp:67-72 | The loops' `magnitudes` equals `Enumerate`, the row-major list of tuples. |
| Ranking.Insert | src/ofApp.cpp:74 | Inserting into a non-increasing sequence adds exactly one element and keeps it non-increasing. |
| Ranking.SortDesc | src/ofApp.cpp:74 | The sorted tuples are a permutation of the input (same multiset), in non-increasing tuple order. |
| Ranking.SortedUnique | src/ofApp.cpp:74 | Two non-increasing permutations of the same tuples are equal, so any correct sort yields `SortDesc`'s order. |
| Ranking.PermutationDistinct | src/ofApp.cpp:74 | A permutation of a sequence without repetitions has no repetitions. |
| Ranking.RearrangedLength | src/ofApp.cpp:67-74 | A permutation of the collected tuples has `height * width` entries. |
| Ranking.RearrangedKeys | src/ofApp.cpp:67-74 | Each entry of such a permutation lies in the region and carries its position's magnitude. |
| Ranking.RearrangedComplete | src/ofApp.cpp:67-74 | Every position of the region has its tuple in such a permutation. |
| Ranking.Positions | src/ofApp.cpp:76-78 | The `(i, j)` pairs of the sorted tuples, in order. |
| Ranking.RankingOf | src/ofApp.cpp:62-78 | `sortedIndices` as `setup` leaves it: the pairs of the sorted tuples. Its properties are `RankingIsSortedPermutation` and `RankingInRegion`. |
| Ranking.PositionsCover | src/ofApp.cpp:67-78 | The kept pairs number `height * width`, all lie in the region, and every position of the region is among them. |
| Ranking.PositionsOrdered | src/ofApp.cpp:70-78 | The kept pairs have no repetitions and are strictly descending by `(magnitude, row, column)`. |
| Ranking.RankingIsSortedPermutation | src/ofApp.cpp:62-78 | `sortedIndices` lists every position of the region exactly once, in strictly descending order: larger magnitude first, then larger row, then larger column. |
| Ranking.RankingInRegion | src/ofApp.cpp:67-78 | Every ranked position lies in the `height` x `width` region. |
| Ranking.BuildRanking | src/ofApp.cpp:62-78 | The loops, the sort and the extraction loop produce `RankingOf`, whose properties are the lemmas above. |
| Spectrum.Conj | src/ofApp.cpp:103 | `conjugate(value[0], -value[1])`: same real part, negated imaginary part. |
| Spectrum.ConjInvolutive | src/ofApp.cpp:103 | Conjugating twice gives the value back. |
| Spectrum.ConjPos | src/ofApp.cpp:106 | The conjugate partner of a position in the image region lies in the image region. |
| Spectrum.ConjPosIsModulo | src/ofApp.cpp:106 | The partner is `((height - i) % height, (width - j) % width)`, the index the source writes the conjugate to. |
| Spectrum.ConjPosInvolutive | src/ofApp.cpp:106 | The partner of the partner is the position itself. |
| Spectrum.Written | src/ofApp.cpp:105-106 | The entry at `p` after the two writes over a previous entry: the conjugate at the partner (it is written second, so it wins when the partner is the position itself), the value at the position, the previous entry elsewhere. |
| Spectrum.Decomposition.Applied | src/ofApp.cpp:95-114 | Update number `t` applies ranking position `2 * t`: the cursor starts at 0 and moves on by 2, so only even positions are ever applied. |
| Spectrum.Decomposition.Accumulated | src/ofApp.cpp:102-106 | Entry `p` of `frameMat` after `steps` updates: zero at the start, then each update's two writes over the previous contents. |
| Spectrum.Decomposition.Current | src/ofApp.cpp:108-110 | Entry `p` of `waveMat` after `steps` updates: the last update's two writes over zeros. |
| Spectrum.AccumulatedStable | src/ofApp.cpp:105-106 | Steps that write neither their position nor its partner at `p` leave the accumulated entry at `p` unchanged. |
| Spectrum.AccumulatedUntouched | src/ofApp.cpp:105-106 | An entry that no step so far has touched is still zero. |
| Spectrum.AccumulatedLastWrite | src/ofApp.cpp:102-106 | After step `t`, the partner holds the conjugate and the applied position holds the coefficient (unless they coincide); untouched later, they keep these values. |
| Spectrum.HermitianFixedPoint | src/ofApp.cpp:103-106 | In a Hermitian grid, a self-partnered coefficient equals its conjugate, so the two writes agree there. |
| Spectrum.HermitianStep | src/ofApp.cpp:105-106 | One step keeps the accumulated entry at a partner the conjugate of the entry at the position. |
| Spectrum.AccumulatedHermitian | src/ofApp.cpp:102-106 | For a coefficient grid Hermitian about the image size, the accumulation buffer stays Hermitian on the region after every number of steps. |
| Spectrum.CurrentIsLastWrite | src/ofApp.cpp:108-110 | `waveMat` equals `frameMat` at the two positions the last step wrote, and is zero everywhere else. |
| Spectrum.Zeros | src/ofApp.cpp:81-82 | `Mat::zeros`: a `rows` x `cols` grid whose every entry is zero. |
| Spectrum.PutPair | src/ofApp.cpp:105-110 | A whole buffer after the two writes of an update; it keeps the buffer's shape. Its entries are stated by `PutPairAt`. |
| Spectrum.PutPairAt | src/ofApp.cpp:105-110 | After the two writes, the partner holds the conjugate, the position holds the value unless it is its own partner, and every other entry is unchanged. |
| Spectrum.AccumulatedGrid | src/ofApp.cpp:81-106 | `frameMat` after `steps` updates as a `rows` x `cols` grid of `Accumulated` entries. |
| Spectrum.CurrentGrid | src/ofApp.cpp:82-110 | `waveMat` after `steps` updates as a `rows` x `cols` grid of `Current` entries. |
| Spectrum.GridsStartZero | src/ofApp.cpp:81-82 | Before any step both buffers are all zero. |
| Spectrum.GridsNext | src/ofApp.cpp:105-110 | Step `s` writes its pair over the accumulated buffer and over a zero buffer for the current component. |
| Reconstruction.App.WritePair | src/ofApp.cpp:105-106 | The two writes into a buffer change it exactly as `PutPair` says. |
| Reconstruction.App.ZeroBuffer | src/ofApp.cpp:108 | `Mat::zeros` yields a buffer of the given size, all zero. |
| Reconstruction.App.SnapshotOfPair | src/ofApp.cpp:105-110 | A buffer holding the written pair and agreeing elsewhere with the old contents is `PutPair` of those contents. |
| Reconstruction.App.SnapshotOfZeros | src/ofApp.cpp:81-82 | A buffer whose entries are all zero is the zero grid. |
| Reconstruction.App.Valid | src/ofApp.cpp:81-114 | The invariant: buffers of the coefficient grid's size holding the image region, a ranking inside the region, a cursor equal to twice the updates done and at most one past the ranking, `frameMat` equal to `AccumulatedGrid` and `waveMat` to `CurrentGrid` of those updates. |
| Reconstruction.App.StartValid | src/ofApp.cpp:81-90 | Zero buffers, a ranking inside the region and a cursor at 0 satisfy the invariant. |
| Reconstruction.App.constructor | src/ofApp.cpp:62-90 | After setup, `sortedIndices` is the ranking of the magnitudes, both buffers are zero grids of the transform size, the cursor is 0 and the invariant holds. |
| Reconstruction.App.StepValid | src/ofApp.cpp:94-115 | Writing step `applied - 1` over the accumulated buffer, and over zeros, gives a state satisfying the invariant. |
| Reconstruction.App.Update | src/ofApp.cpp:94-115 | Past the end of the ranking, nothing changes. Otherwise `frameMat` becomes `PutPair` of its old contents, `waveMat` `PutPair` over zeros, and the cursor moves on by 2. The buffers always equal `AccumulatedGrid`/`CurrentGrid` of the steps done. |

## Left out

- The forward and inverse DFTs (`dft`, src/ofApp.cpp:59, 121, 133) are OpenCV calls on float32 data. The coefficient grid is a constructor parameter.
- The magnitude grid (`magnitude`, src/ofApp.cpp:64-65) is a parameter, a grid of reals.
- Mean removal and the float conversion (src/ofApp.cpp:43-47) are float32 arithmetic.
- `getOptimalDFTSize` (src/ofApp.cpp:51-52) is a library heuristic. The padded sizes are parameters with `height <= m` and `width <= n`.
- Image loading and the `toCv` conversion (src/ofApp.cpp:34-42) are I/O and library glue.
- `updateFbos`, `draw` and the progress text (src/ofApp.cpp:112, 118-210) are rendering. Their one use of the core, `fftshift` on `frameMat`, is the modelled `Shift.FftShift`.
- Float32 values are modelled as reals. This affects the magnitude keys, which are compared exactly as written, and complex entries.
- `int` widths are modelled as unbounded integers. `currentIndex` cannot overflow for an image the application can load.
- `Ranking.SortDesc`: the in-place `std::sort` is modelled as a pure insertion sort on values. `Ranking.SortedUnique` shows that any correct sort gives the same order, so the in-place mechanics of the library sort are not modelled.
- `Shift.FftShift`: it is modelled on values. The in-place copies through `tmp` on OpenCV views of `out` are not modelled, only the contents they produce. Neither is OpenCV's handling of empty blocks when a dimension is 1.
- `fftMat` and `sortedIndices` are immutable values (`const` fields), because nothing writes to them after `setup`.
- `Reconstruction.App.ZeroBuffer`: it allocates a new array, and `Update` points `waveMat` at it. `Mat::zeros` assigned to a matrix of the same size may instead zero the existing buffer in place; nothing else refers to `waveMat`, so its contents are the same either way.
- The counter `applied` (ghost) records the number of steps that did their work. It is `currentIndex / 2` and exists only for the invariant.
