# Interpolation with gap filling — a Dafny model

This project models `interpolate_with_gap_filling` from the Sri Lanka climate-zones
application. The function turns scattered climate observations into a 500 x 500
raster clipped to the country boundary, in five steps:

1. **Sampling grid.** Two 500-sample `linspace` axes over the boundary's bounding box
   are expanded by `meshgrid` with "xy" indexing. Longitude varies along columns and
   latitude along rows (module `SamplingGrid`).
2. **Affine transform.** Mask cell `(row, col)` has its corner at
   `(lonMin + col * (lonMax - lonMin) / ncols, latMin + row * (latMax - latMin) / nrows)`.
   It is handed to the boundary rasteriser in rasterio's `Affine(a, b, c, d, e, f)`
   convention (module `Transform`).
3. **Gap cells.** These are the NaN cells of the primary interpolation that lie inside
   the boundary mask (module `GapFill`).
4. **Two-stage fill.** If there is a gap cell, the nearest-neighbour raster is copied
   into the gap cells. Then, if any NaN is left anywhere in the raster, every remaining
   NaN is filled from a smoothed copy. The smoother's input is the raster with its NaNs
   replaced by the mean of the defined cells (modules `GapFill` and `NanMean`).
5. **Final mask.** The result is a masked array that excludes exactly the cells outside
   the boundary (module `Pipeline`).

Rasters are `seq<seq<_>>` indexed `[row][col]`. A floating-point raster that may hold
NaN is a grid of `Option<real>`, and `None` stands for NaN (module `Raster`).

The library calls are parameters:
- The primary `griddata` interpolation is `primary: (real, real) -> Option<real>`.
  `griddata` evaluates its interpolant point by point, so the primary raster is this
  function sampled at the grid points.
- The `nearest` interpolation is `nearest: (real, real) -> real`. It holds a number
  everywhere.
- `geometry_mask(..., invert=True, all_touched=True)` is `touches: Rect -> bool`. It
  decides each cell from the cell's footprint under the transform.
- `gaussian_filter(g, sigma=10)` is `smooth: (Grid<real>, nat, nat) -> real`, which
  returns cell `(r, c)` of the smoothed copy of `g`.
- The bounding box (`total_bounds`) is the `Bounds` argument.

Points of the code's behaviour that the model makes explicit:
- The function raises no error of its own. Degenerate bounds yield a constant axis and
  inverted bounds a decreasing one; both are modelled.
- The smoothing stage is guarded by "any NaN anywhere", not "any NaN inside the mask".
  So it also writes NaN cells outside the mask. It is reachable: one NaN inside the mask
  and one outside are enough (`GapFill.SmoothingReachable`, `GapFill.StagesRunIff`).
- The mean substituted before smoothing is taken over every defined cell of the raster,
  including cells outside the mask.
- The grid spacing is `(max - min) / 499`, but the transform's cell size is
  `(max - min) / 500`. The two do not coincide (`Transform.SampleOffsetFromCorner`).
  Even so, every grid point lies inside its own mask cell's footprint
  (`Transform.SampleInsideFootprint`).

## Model

| member | source | states |
|---|---|---|
| `SamplingGrid.LinspaceSample` | src/interpolate.py:14-15 | sample `i` of a `linspace` axis is `lo + i * (hi - lo) / (n - 1)`, the forced last sample included |
| `SamplingGrid.LinspaceEndpoints` | src/interpolate.py:14-15 | the axis starts at the minimum and ends at the maximum |
| `SamplingGrid.LinspaceUniformStep` | src/interpolate.py:14-15 | consecutive samples are exactly `(hi - lo) / (n - 1)` apart |
| `SamplingGrid.LinspaceMonotone` | src/interpolate.py:14-15 | the axis is non-decreasing for `lo <= hi`, strictly increasing for `lo < hi`, constant for `lo == hi` |
| `SamplingGrid.LinspaceWithin` | src/interpolate.py:14-15 | every sample of an axis over `lo <= hi` lies in `[lo, hi]` |
| `SamplingGrid.MeshgridSeparable` | src/interpolate.py:13-16 | the longitude grid depends only on the column and the latitude grid only on the row, and the values are the axes' samples |
| `SamplingGrid.BuildGrid` | src/interpolate.py:13-16 | both coordinate grids are 500 x 500 |
| `SamplingGrid.GridSample` | src/interpolate.py:13-16 | grid cell `(r, c)` samples `(lonMin + c * (lonMax - lonMin) / 499, latMin + r * (latMax - latMin) / 499)` |
| `SamplingGrid.GridCorners` | src/interpolate.py:13-16 | the first grid cell sits on `(lonMin, latMin)` and the last on `(lonMax, latMax)` |
| `Transform.GridTransformCells` | src/interpolate.py:34-38 | the rotation terms are zero; cell `(row, col)` maps to `lonMin + col * width`, `latMin + row * height`, with the cell size taken from the raster shape, and the far corner `(ncols, nrows)` maps to `(lonMax, latMax)` |
| `Transform.InvertRoundTrip` | src/interpolate.py:34-38 | for bounds of non-zero extent, the grid's transform and its inverse (pixel position of a coordinate) undo each other in both directions |
| `Transform.AxisSampleInCell` | src/interpolate.py:13-38 | along one axis, linspace sample `i` (spacing `/ 499`) falls inside transform cell `i` (width `/ 500`) |
| `Transform.SampleInsideFootprint` | src/interpolate.py:13-38 | every grid point `(r, c)` lies inside the footprint of mask cell `(r, c)`, whatever the bounds |
| `Transform.SampleOffsetFromCorner` | src/interpolate.py:13-38 | grid point `c` sits `c * (max - min) / 249500` past the corner of mask cell `c`, so grid and transform agree only at index 0 or on a degenerate axis |
| `GapFill.AnyGapIff` | src/interpolate.py:50-53 | the fill branch is taken iff some in-mask cell is NaN |
| `GapFill.NearestFillCells` | src/interpolate.py:55-63 | the nearest stage writes the nearest value into every gap cell and changes no other cell; afterwards no in-mask cell is NaN, and the NaNs left are exactly the NaNs outside the mask |
| `GapFill.FilledHasDefined` | src/interpolate.py:53-71 | after the nearest stage has run, some cell is defined, so the mean the smoothing stage needs exists |
| `GapFill.SmoothingStage` | src/interpolate.py:66-77 | the smoothing stage leaves no NaN anywhere and keeps every defined cell's value |
| `GapFill.SmoothingStageCells` | src/interpolate.py:68-77 | the smoother's input keeps every defined value and holds the mean of the defined cells in every NaN cell; each NaN cell gets the smoothed value of that input |
| `GapFill.SubstitutionKeepsMean` | src/interpolate.py:71 | replacing the NaNs by the mean of the defined cells leaves the mean unchanged: the smoother's input has, over all its cells, the mean of the defined cells |
| `GapFill.StagesRunIff` | src/interpolate.py:53-66 | no stage runs iff no in-mask cell is NaN; the smoothing stage runs iff some in-mask cell and some out-of-mask cell are both NaN |
| `GapFill.ResolveCells` | src/interpolate.py:50-77 | defined cells are never changed; NaN cells in the mask get the nearest value; no in-mask cell is NaN afterwards; with no gap cell the raster passes through unchanged, NaNs outside the mask included; with a gap cell no cell at all is NaN afterwards |
| `GapFill.ResolveSmoothedCell` | src/interpolate.py:66-77 | when smoothing runs, a NaN cell outside the mask gets the smoothed value of the nearest-filled raster with its NaNs set to the mean of its defined cells |
| `GapFill.SmoothingReachable` | src/interpolate.py:53-77 | a concrete raster for which both stages run and an out-of-mask cell is filled by the smoother |
| `NanMean.Mean` | src/interpolate.py:71 | `nanmean` is defined exactly when some cell is defined |
| `NanMean.CountPositiveIff` | src/interpolate.py:71 | the number of defined cells is positive iff some cell is defined |
| `NanMean.MeanWithin` | src/interpolate.py:71 | any bounds on the defined cells also bound their mean |
| `Pipeline.ApplyMaskCells` | src/interpolate.py:80-83 | masking keeps the data, excludes a cell iff the mask is false there, and shows data exactly where the mask holds |
| `Pipeline.InterpolateWithGapFilling` | src/interpolate.py:8-85 | both coordinate grids, the data and the exclusion flags are 500 x 500 |
| `Pipeline.InterpolateCells` | src/interpolate.py:8-85 | end to end, per cell: grid coordinates, exclusion iff the boundary misses the cell's footprint, a number in every non-excluded cell, primary values kept, in-mask NaNs given the nearest value, and the primary raster returned unchanged when no in-mask cell is NaN |
| `Pipeline.RegionPointsShown` | src/interpolate.py:13-47 | with an all-touched rasteriser, every grid point inside the boundary region is not excluded and holds a number |
| `Pipeline.ConstantInterpolant` | src/interpolate.py:22-28 | an interpolant that is one number everywhere yields that number in every non-excluded cell |

## Left out

- `scipy.interpolate.griddata` internals: the Delaunay-based linear and the Clough–Tocher
  cubic interpolation are floating-point library numerics. The primary and the
  nearest-neighbour interpolants are parameters.
- NaN feature values in the observations: the nearest-neighbour raster is taken to hold
  a number in every cell, which is what `griddata` gives for finite values.
- `rasterio.features.geometry_mask` and shapely's `union_all` and `total_bounds`:
  polygon rasterisation and geometry live in foreign libraries. The rasteriser is a
  parameter that decides each cell from its footprint, and the bounds are an argument.
- `ndimage.gaussian_filter`: floating-point convolution. It is a parameter that returns
  each cell of the smoothed raster.
- `np.nan_to_num` also replaces infinities with large finite numbers. `real` has no
  infinities, so only the NaN replacement is modelled.
- IEEE floating point: values are exact `real`s and NaN is `None`. Rounding in
  `linspace` and in the transform's divisions is not modelled.
- `Transform.GridTransform` requires a raster of at least one row and one column. The
  raster is always 500 x 500, so the division by a zero-sized shape never arises.
- Exceptions raised inside `griddata`, `geometry_mask` or `gaussian_filter` reach the
  caller unchanged: a `ValueError` for an unknown method name, and a Qhull error when the
  `linear` or `cubic` method gets fewer than three points or only collinear ones. The model
  takes every library call to succeed.
- `Pipeline.AllTouched`: the all-touched rule is idealised as "the closed box spanned by
  the cell's footprint contains a point of the region". The first and last grid samples
  sit exactly on a cell corner or edge, so `Pipeline.RegionPointsShown` relies on this
  closed-box reading for them; GDAL's own boundary handling is not modelled.
- `src/plotmap.py`: matplotlib rendering and Streamlit error reporting. Its only
  decision is to plot the first selected feature.
- `src/load_data.py`: CSV and shapefile input, pandas aggregation, scikit-learn scaling
  and clustering, and Streamlit widgets.
- `app.py`: Streamlit user interface and session state.
