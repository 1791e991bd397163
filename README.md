# purify visibility utilities, modelled in Dafny

This project models the computational core of `cpp/utilities.cc` in purify,
a radio-interferometric imaging package. Before gridding, the utilities get a
set of visibilities ready: each sample has baseline coordinates (u, v), a
complex visibility and a complex weight. The modelled operations are:

- **`sub2ind` / `ind2sub`**: conversion between a (row, col) pair and a linear
  offset, with C++'s truncating `/` and `%`. `ind2sub` writes through two
  out-pointers, so it is modelled as a method with two out-parameters.
- **`mod`**: a remainder wrapped into `[0, y)` for negative arguments.
- **`uv_symmetry`**: completes the measured half-plane. It appends, after the
  n measured samples, their mirror images: negated coordinates, conjugated
  visibility, same weight. It is modelled as a method that fills four fresh
  arrays in the source's two loops.
- **`apply_weights`**: the elementwise complex product of visibilities and
  weights.
- **`set_cell_size`**: chooses the pixel size in arcseconds. It derives the
  size from the longest baseline when none is given, and copies the u size to
  v when only u is given. It then scales (u, v) to radians times 2π.
- **`uv_scale`**: scales radians times 2π to pixels of an FFT grid.
- **The pixel loop of `readfits2d`**: copies a flat list of stored values into
  an `ax1` x `ax2` complex image through `sub2ind(j, i, ax2, ax1)`.

Modules, one per concern:

- `ComplexNumbers` (complex.dfy): complex numbers as pairs of reals.
- `VisData` (vis_data.dfy): the `vis_params` record, π and the arcsecond
  conversion.
- `GridIndex` (grid_index.dfy): index mapping, `mod` and the image loop.
- `CoordinateScaling` (scaling.dfy): `set_cell_size` and `uv_scale`.
- `Symmetry` (symmetry.dfy): `uv_symmetry`.
- `Weighting` (weighting.dfy): `apply_weights`.

Reals are exact mathematical reals and integers are unbounded. π is the
`double` value of the constant, written as the decimal literal
3.141592653589793.

## Model

| member | source | states |
|---|---|---|
| GridIndex.Sub2Ind | cpp/utilities.cc:152-163 | an in-range (row, col) of a rows x cols grid maps to an offset in [0, rows*cols) |
| GridIndex.Sub2IndInjective | cpp/utilities.cc:162 | two subscripts with in-range columns that map to the same offset are the same subscript |
| GridIndex.Ind2Sub | cpp/utilities.cc:165-179 | the out-values are col = sub % cols and row = (sub - col) / cols with C++ truncation; row*cols + col == sub always; for sub >= 0 and cols > 0, col lies in [0, cols) and row >= 0; for sub < rows*cols, also row < rows |
| GridIndex.SubscriptOfSub2Ind | cpp/utilities.cc:162-178 | round trip: ind2sub(sub2ind(row, col)) == (row, col) for every row >= 0 and 0 <= col < cols |
| GridIndex.Sub2IndOfSubscript | cpp/utilities.cc:162-178 | other direction: sub2ind(ind2sub(sub)) == sub for every offset and every nonzero column count |
| GridIndex.SubscriptInGrid | cpp/utilities.cc:165-179 | an offset in [0, rows*cols) has row in [0, rows) and col in [0, cols) |
| GridIndex.Mod | cpp/utilities.cc:181-190 | for y > 0 the result lies in [0, y), and it equals x when 0 <= x < y |
| GridIndex.ModIsEuclidean | cpp/utilities.cc:186-189 | for y > 0, the truncating remainder corrected by + y is the mathematical (Euclidean) remainder |
| GridIndex.ModPeriodic | cpp/utilities.cc:184-189 | wraps circularly: mod(x + k*y, y) == mod(x, y) for y > 0 |
| GridIndex.ModExamples | cpp/utilities.cc:181-190 | mod(-1,5)=4, mod(7,5)=2, mod(5,5)=0, mod(-5,5)=0, mod(-6,5)=4 |
| GridIndex.ReadImage | cpp/utilities.cc:236-245 | the image is newly allocated and ax1 x ax2, and pixel (i, j) is stored value sub2ind(j, i, ax2, ax1) with zero imaginary part; every read is in bounds |
| GridIndex.ReadImageCoversContents | cpp/utilities.cc:238-245 | every stored value is read into some pixel (i, j) of the image; with Sub2IndInjective, each is read exactly once |
| CoordinateScaling.MaxAbs | cpp/utilities.cc:69-70 | the largest magnitude bounds every coordinate and is never negative |
| CoordinateScaling.MaxAbsAttained | cpp/utilities.cc:69-70 | the largest magnitude of a non-empty sequence is the magnitude of one of its samples |
| CoordinateScaling.AutoCellSize | cpp/utilities.cc:71 | the derived pixel size is positive, and in radians it is 0.34 over the longest baseline |
| CoordinateScaling.CellSizes | cpp/utilities.cc:67-81 | both sizes 0: both derived from the longest baseline on each axis; only v 0: v takes u's size; otherwise the caller's sizes are kept; the adopted v size is never 0, and the u size is 0 exactly when the caller gave u = 0 and v != 0 |
| CoordinateScaling.AngularCoordinate | cpp/utilities.cc:86-89 | coordinate / (180*3600/cell/π) * 2π equals the coordinate times the pixel size in radians times 2π |
| CoordinateScaling.SetCellSize | cpp/utilities.cc:56-93 | lengths kept, vis and weights unchanged, u[i] and v[i] each times the adopted pixel size in radians times 2π |
| CoordinateScaling.UvScale | cpp/utilities.cc:105-116 | lengths kept, vis and weights unchanged, u[i] * 2π == input u[i] * ftsizeu, and likewise v with ftsizev |
| CoordinateScaling.PixelCoordinates | cpp/utilities.cc:86-89 | set_cell_size then uv_scale puts each sample at its coordinate times the pixel size in radians times the grid size |
| CoordinateScaling.AutoCellSizeBand | cpp/utilities.cc:67-89 | with derived pixel sizes every scaled coordinate lies within 0.68π of the origin, and the longest baseline on each axis lies exactly there |
| CoordinateScaling.AutoCellSizeFitsGrid | cpp/utilities.cc:67-112 | with derived pixel sizes, uv_scale puts every sample within 0.34 times the grid size of the centre, so inside the grid |
| Symmetry.Symmetrized | cpp/utilities.cc:118-150 | the expanded set has 2n samples in all four fields; slots 0..n-1 copy the input; slot n+i holds -u[i], -v[i], conj(vis[i]) and weights[i] |
| Symmetry.SymmetrizationIsUnique | cpp/utilities.cc:125-149 | any set satisfying the slot-by-slot description is the expanded set |
| Symmetry.CopyMeasured | cpp/utilities.cc:131-137 | the first loop writes the n measured samples to slots 0..n-1 of the four buffers and leaves slots n..2n-1 as they were |
| Symmetry.AppendMirrors | cpp/utilities.cc:138-144 | the second loop writes the mirror of sample i to slot n+i and leaves slots 0..n-1 as they were |
| Symmetry.UvSymmetry | cpp/utilities.cc:118-150 | the returned set has length 2n, copies the input in slots 0..n-1 and the mirrors in n..2n-1, and equals the expanded set |
| Symmetry.SymmetrizedIsConjugateSymmetric | cpp/utilities.cc:121 | every sample of the expanded set, measured or mirrored, has its conjugate mirror in the set |
| Symmetry.SymmetrizedExample | cpp/utilities.cc:118-150 | two measured samples expand to the four samples, with the mirrors conjugated |
| Weighting.ApplyWeights | cpp/utilities.cc:95-103 | length kept; out[i] == vis[i] * weights[i] as a complex product |
| Weighting.ApplyUnitWeights | cpp/utilities.cc:101 | all-ones weights leave the visibilities unchanged |
| Weighting.WeightingCommutesWithSymmetry | cpp/utilities.cc:101-143 | for real weights, weighting the expanded set gives the weighted measured half followed by its conjugate |
| ComplexNumbers.ConjMulReal | cpp/utilities.cc:142 | conjugation commutes with multiplication by a real weight |

## Left out

- `read_visibility` (cpp/utilities.cc:6-54): text-file input and `std::stod` parsing. It also holds the v reflection and the 1/sigma^2 weights, which belong to ingestion.
- `writefits2d` and the CCfits calls of `readfits2d` are file I/O. The stored values reach `ReadImage` as a parameter whose length is `ax1 * ax2`. Eigen's storage layout for `Image` is not part of this model, so no write/read round trip is stated.
- The `std::cout` reports of `set_cell_size` (lines 76 and 84) are output only.
- Floating-point rounding is not modelled: all arithmetic is on exact reals. The same goes for `sqrt(maxCoeff(u*u))`, which is modelled as the largest magnitude.
- π is the decimal literal of the `double` constant. The constant's definition is not part of this model.
- GridIndex.Mod: arguments are integers. The source takes `double`s, calls `fmod` and truncates to `int`. For a tiny negative remainder, `y + r` can round up to `y`; that is not modelled. Results for `y < 0` are computed as written but not characterised.
- CoordinateScaling.CellSizes: when both sizes are 0, it requires a nonzero coordinate on each axis (`CellSizesDerivable`). The source divides by the longest baseline without a guard, so an all-zero axis has no meaningful result there.
- CoordinateScaling.AngularCoordinate: a zero pixel size (u size 0 with a nonzero v size) makes the `double` scale factor infinite in the source, and the coordinates become 0 for finite input. The model returns 0 directly.
- Symmetry.UvSymmetry: it requires `v`, `vis` and `weights` to be at least as long as `u`, the vectors the source indexes. Eigen's Vector objects become value sequences and fresh arrays, so aliasing between the input and the output is not modelled.
- GridIndex.Sub2Ind: `row * cols + col` is computed on unbounded integers. The source computes it in `t_int`, where signed overflow is undefined behaviour, so the model assumes grids whose offsets fit in `t_int` and says nothing about larger ones.
- The `rows` parameter of `sub2ind` and `ind2sub` is not read by the source. The model keeps it as an unused parameter.
- `scripts/padmm_plot_m31_SNR_and_time.py` is a benchmark and plotting driver built on processes and file I/O. It is not part of this model.
