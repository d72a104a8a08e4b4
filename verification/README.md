# VoxelGrid model

A Dafny model of the voxel grid of OpenPAF's `core` package, the dense 3-D
container a procedural asset pipeline fills with occupancy values before it
is turned into a mesh. A grid holds a resolution (voxels per world unit), the
voxel counts `(w, h, d)` along the three axes and a flat sequence of voxel
values, one per cell, with the cell `(x, y, z)` stored at position
`w*h*z + w*y + x`.

The model follows the Go code as written:

- `utils.dfy` (module `Utils`) models `divmod`, the truncating unsigned
  quotient and remainder. Dafny's `/` and `%` on `nat` agree with Go's `uint`
  division.
- `voxelgrid.dfy` (module `VoxelGrid`) models the grid: construction from
  integer counts, `getIndex`, `getCoordinate`, `Get`, `Set`, `Copy`, `Fill`,
  `HighPass` and the integer part of `VertexPoints`. The grid is an immutable
  value. Every mutator returns a new grid.
- `findings.dfy` (module `Findings`) shows where the code departs from its
  doc-comments. It holds concrete counterexamples on the code as written and,
  beside each one, a corrected definition with the documented property
  proved.

Every Go panic is a `Panic` result: a coordinate or index out of range, a
slice access past the end, and a division by a zero count. `Get` and `Set` do
not assume the length invariant `|voxels| == w*h*d`. On a grid whose voxel
sequence is too short, such as the result of `Copy`, they panic like Go's
slice access.

Where the code and its own doc-comments disagree, the model follows the
code:

- The doc-comment of `getCoordinate` (core/voxelgrid.go:41) promises the
  "equivalent 3D coordinates" of an index, and its panic (:43-44) is meant
  for an index that "exceeds the size of the voxel grid". The code decodes
  the axes in the transposed order, and its guard `index > len` admits
  `index == len`, where no voxel is stored.
- The doc-comment of `Copy` (:63) promises the "configuration and contents"
  of the grid. The code copies into a nil slice, so no voxel is copied, and
  it leaves the resolution at zero.
- `NewVoxelGrid` does not check the resolution. With resolution 0 every count
  becomes 0 and the grid holds no voxel; `New` likewise takes any resolution.
- The doc-comment of `VertexPoints` (:104) says voxels "greater than 0.5".
  The code skips only values `< 0.5`, so a voxel of exactly 0.5 is kept.
  The model keeps it too, and `HalfIsSelected` states it.

## Model

| member | source | states |
|---|---|---|
| Utils.DivMod | core/utils.go:3-7 | the quotient times the denominator plus the remainder gives back the numerator; the remainder is below the denominator; the quotient is at most the numerator; a zero denominator is excluded (Go panics on it) |
| Utils.DivModUnique | core/utils.go:4-5 | any pair that reassembles the numerator with a remainder below the denominator is the pair `divmod` returns, so `divmod` is exactly truncating division |
| VoxelGrid.New | core/voxelgrid.go:18-28 | a new grid keeps the given counts and resolution, holds `w*h*d` voxels (the length invariant) and every voxel is zero |
| VoxelGrid.GetIndex | core/voxelgrid.go:31-39 | succeeds exactly when `x < w`, `y < h` and `z < d`, otherwise panics out of bounds; a successful index is below `w*h*d` |
| VoxelGrid.GetIndexRowMajor | core/voxelgrid.go:38 | the layout is row-major: the origin has index 0, and one step along x, y or z adds 1, `w` or `w*h` to the index |
| VoxelGrid.GetIndexInjective | core/voxelgrid.go:38 | two in-bounds coordinates with the same index are the same coordinate |
| VoxelGrid.GetCoordinate | core/voxelgrid.go:42-51 | succeeds exactly when `index <= len(voxels)` and all counts are positive; a larger index panics out of bounds, a zero count panics dividing by zero; every decoded component is below its count |
| VoxelGrid.Get | core/voxelgrid.go:54-56 | on a grid with the length invariant, succeeds exactly on in-bounds coordinates; a successful read is one of the grid's voxels; every failure is an out-of-bounds panic |
| VoxelGrid.Set | core/voxelgrid.go:59-61 | succeeds exactly when the read at that coordinate succeeds (on valid grids: exactly in bounds); keeps counts, resolution and length; reading the coordinate back gives the written value unclamped |
| VoxelGrid.SetFrame | core/voxelgrid.go:59-61 | after a write, every other in-bounds coordinate reads as before |
| VoxelGrid.SetKeepsValid | core/voxelgrid.go:59-61 | an in-bounds write on a valid grid succeeds and keeps the length invariant |
| VoxelGrid.Copy | core/voxelgrid.go:64-68 | the copy keeps the counts but has resolution 0 and no voxels |
| VoxelGrid.Clamp | core/voxelgrid.go:72 | the clamped value lies in [0, 1], equals the input inside that range, is 0 below it and 1 above it |
| VoxelGrid.Fill | core/voxelgrid.go:71-78 | counts, resolution and length are kept and every voxel becomes the clamped value |
| VoxelGrid.FillThenGet | core/voxelgrid.go:71-78 | after a fill of a valid grid, the grid is still valid and every in-bounds read returns the clamped value |
| VoxelGrid.FillAboveOne | core/voxelgrid.go:72 | filling with 1.5 gives the same grid as filling with 1.0 |
| VoxelGrid.FillTwice | core/voxelgrid.go:71-78 | a second fill fully overrides the first |
| VoxelGrid.MutatorsKeepValid | core/voxelgrid.go:71-102 | `Fill` and `HighPass` keep the length invariant |
| VoxelGrid.HighPass | core/voxelgrid.go:93-102 | counts, resolution and length are kept; every voxel becomes 0 or 1, and it is 1 exactly when the old value was strictly above the tolerance |
| VoxelGrid.HighPassBoundary | core/voxelgrid.go:95-98 | a voxel equal to the tolerance becomes 0; a voxel above it becomes 1 |
| VoxelGrid.HighPassIdempotent | core/voxelgrid.go:93-102 | once binarised with any tolerance, a grid is unchanged by a second `HighPass` with any tolerance in [0, 1) |
| VoxelGrid.Selected | core/voxelgrid.go:108-111 | every voxel that is not below 0.5 has its index among the indices `VertexPoints` visits |
| VoxelGrid.SelectedSound | core/voxelgrid.go:108-111 | every selected index lies in the grid and its voxel is not below 0.5 |
| VoxelGrid.SelectedAscending | core/voxelgrid.go:108 | selected indices appear in strictly ascending order |
| VoxelGrid.SelectedExactly | core/voxelgrid.go:108-111 | an index is selected if and only if it is in range and its voxel is at least 0.5 |
| VoxelGrid.HalfIsSelected | core/voxelgrid.go:104-111 | a voxel of exactly 0.5 is selected, unlike the "greater than 0.5" of the doc-comment |
| VoxelGrid.VertexPoints | core/voxelgrid.go:106-123 | on a grid with the length invariant it never panics; the k-th point is the decoded coordinate of the k-th selected index; a panic happens only when some selected index cannot be decoded |
| Findings.GetCoordinateInvertsTransposed | core/voxelgrid.go:47-49 | the transposed index `d*h*x + d*y + z` of every in-bounds coordinate decodes back to that coordinate, not the one `getIndex` stores there |
| Findings.TransposedInvertsGetCoordinate | core/voxelgrid.go:47-49 | every index below the voxel count decodes without a panic, to the coordinate whose transposed index is that index; with the lemma above, `getCoordinate` is exactly the inverse of `d*h*x + d*y + z` |
| Findings.CubicGridSwapsAxes | core/voxelgrid.go:38-49 | on a cubic grid, decoding the index of `(x, y, z)` yields `(z, y, x)` |
| Findings.AxisOrderCounterexample | core/voxelgrid.go:38-49 | on a 2 x 1 x 3 grid, index 1 decodes to (0, 0, 1), whose index is 2; the coordinate at index 1 is (1, 0, 0) |
| Findings.GuardAdmitsEnd | core/voxelgrid.go:43-49 | on a non-empty valid grid, the index equal to the voxel count passes the guard and decodes to the origin, like index 0 |
| Findings.GuardCounterexample | core/voxelgrid.go:43 | on a 1 x 1 x 1 grid, index 1 decodes to (0, 0, 0) without a panic |
| Findings.CorrectedCoordinate | core/voxelgrid.go:41-51 | the corrected decoding succeeds on a valid grid exactly for indices below the voxel count, and every component is below its count |
| Findings.CorrectedCoordinateInvertsGetIndex | core/voxelgrid.go:41-49 | the corrected decoding undoes `getIndex` on every in-bounds coordinate |
| Findings.GetIndexInvertsCorrectedCoordinate | core/voxelgrid.go:30-49 | `getIndex` undoes the corrected decoding on every valid index, so the two are inverse bijections |
| Findings.CopyLosesContents | core/voxelgrid.go:63-68 | the copy of a non-empty valid grid breaks the length invariant, and every in-bounds read of it panics while the same read of the original succeeds |
| Findings.CorrectedCopy | core/voxelgrid.go:63 | the corrected copy keeps resolution and counts, keeps the length invariant, and reads the same value as the original at every coordinate |

## Findings

| source | as written | input that shows it | evidently intended | confidence | as-written member | corrected member |
|---|---|---|---|---|---|---|
| core/voxelgrid.go:47-49 | the index is reduced by the depth first, then the height, then the width | w=2, h=1, d=3, index 1 decodes to (0, 0, 1), whose index is 2 | reduce by the width first, then the height, then the depth, so that decoding inverts `getIndex` | high; not executed | Findings.AxisOrderCounterexample | Findings.CorrectedCoordinate |
| core/voxelgrid.go:43 | the guard panics only for `index > len(voxels)` | w=h=d=1, index 1 decodes to (0, 0, 0) | panic for `index >= len(voxels)` | high; not executed | Findings.GuardCounterexample | Findings.CorrectedCoordinate |
| core/voxelgrid.go:65-66 | the new grid gets only the counts, and `copy` into its nil slice copies nothing | any grid with at least one voxel: the copy holds no voxel and resolution 0 | allocate `w*h*d` voxels, copy them and the resolution | high; not executed | Findings.CopyLosesContents | Findings.CorrectedCopy |

The corrected definitions stand beside the code as written. `VertexPoints`
keeps using the decoding as written, because its output is what the code
returns.

## Left out

- `Randomize`: its values come from Go's `math/rand` generator, which is not part of this model.
- `Mesh`: the function body is empty. There is no surface extraction to model.
- `editor/main.go`: the window and render loop. It is UI, I/O and foreign OpenGL/GLFW calls.
- `NewVoxelGrid` computes the counts as `ceil(|extent * resolution|)` in single-precision floats. `New` takes the integer counts directly.
- Voxel values are `real`s. Single-precision rounding and NaN behaviour are not modelled: in the clamp of `Fill`, in the comparison of `HighPass`, and in the `v < 0.5` test of `VertexPoints`, which is false for NaN and so keeps a NaN voxel.
- `uint` overflow of `w*h*d` and of the index arithmetic is not modelled. All counts and indices are unbounded naturals.
- Pointer identity and method chaining are not modelled. The Go mutators update the grid in place and return the same pointer. Here they return a new grid value.
- VoxelGrid.VertexPoints: returns grid-space integer coordinates. The Go code also divides each coordinate by the resolution in single-precision floats, and that step is not modelled.
- Utils.DivMod: requires a positive denominator instead of modelling Go's divide-by-zero panic. Its only caller, `GetCoordinate`, checks the counts first and returns that panic itself.
