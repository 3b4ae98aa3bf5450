/**
 `interpolate_with_gap_filling` end to end: build the 500 x 500 sampling
 grid over the boundary's bounding box, interpolate the observations onto
 it, rasterise the boundary through the grid's affine transform, resolve the
 gap cells, and return the grids together with a masked array that excludes
 every cell outside the boundary.

 The library calls are parameters. `griddata` evaluates its interpolant
 point by point, so the primary and the nearest-neighbour interpolations are
 functions of a grid point's coordinates; the boundary rasteriser decides
 each cell from that cell's footprint under the transform.
 */
module Pipeline {
  import opened Raster
  import opened SamplingGrid
  import opened Transform
  import opened GapFill

  /** `griddata(points, values, method)` at one point; `None` where it yields NaN. */
  type Interpolant = (real, real) -> Option<real>

  /** `griddata(points, values, method='nearest')` at one point: always a number. */
  type NearestInterpolant = (real, real) -> real

  /** `geometry_mask(..., invert=True, all_touched=True)` for one cell: true when the boundary touches the footprint. */
  type Rasterizer = Rect -> bool

  /** numpy's masked array: the data and, per cell, whether it is excluded. */
  datatype MaskedArray = MaskedArray(data: Field, excluded: Grid<bool>)

  /** What the entry point returns: the two coordinate grids and the masked raster. */
  datatype Output = Output(gridLon: Grid<real>, gridLat: Grid<real>, values: MaskedArray)

  /** A pointwise interpolant evaluated at every point of the mesh, as `griddata` does with `xi=(grid_lon, grid_lat)`. */
  function Sample<T>(f: (real, real) -> T, m: Mesh): (v: Grid<T>)
    requires SameShape(m.lon, m.lat)
    ensures SameShape(v, m.lon)
  {
    seq(|m.lon|, r requires 0 <= r < |m.lon| =>
      seq(|m.lon[r]|, c requires 0 <= c < |m.lon[r]| => f(m.lon[r][c], m.lat[r][c])))
  }

  /** The boundary mask of shape `(rows, cols)`: cell `(r, c)` is inside when the boundary touches its footprint. */
  function BoundaryMask(touches: Rasterizer, t: Affine, rows: nat, cols: nat): (mask: Grid<bool>)
    ensures Shaped(mask, rows, cols)
  {
    seq(rows, r requires 0 <= r < rows => seq(cols, c requires 0 <= c < cols => touches(Footprint(t, r, c))))
  }

  /** `np.ma.masked_array(v, mask=~mask)`. */
  function ApplyMask(v: Field, mask: Grid<bool>): (ma: MaskedArray)
    requires SameShape(v, mask)
    ensures SameShape(ma.excluded, v)
  {
    MaskedArray(v, seq(|mask|, r requires 0 <= r < |mask| => seq(|mask[r]|, c requires 0 <= c < |mask[r]| => !mask[r][c])))
  }

  /** What a renderer shows at a cell of a masked array: nothing when excluded, the data otherwise. */
  function Shown(ma: MaskedArray, r: nat, c: nat): Option<real>
    requires InGrid(ma.data, r, c) && InGrid(ma.excluded, r, c)
  {
    if ma.excluded[r][c] then None else ma.data[r][c]
  }

  /** The entry point. */
  function InterpolateWithGapFilling(bd: Bounds, primary: Interpolant, nearest: NearestInterpolant,
                                     touches: Rasterizer, smooth: Smoother): (out: Output)
    ensures Shaped(out.gridLon, Resolution, Resolution) && Shaped(out.gridLat, Resolution, Resolution)
    ensures Shaped(out.values.data, Resolution, Resolution) && Shaped(out.values.excluded, Resolution, Resolution)
  {
    var mesh := BuildGrid(bd);
    var values := Sample(primary, mesh);
    var t := GridTransform(bd, |values|, |values[0]|);
    var mask := BoundaryMask(touches, t, |values|, |values[0]|);
    var resolved := Resolve(values, mask, Sample(nearest, mesh), smooth);
    Output(mesh.lon, mesh.lat, ApplyMask(resolved, mask))
  }

  /** The boundary mask the entry point builds for the bounds `bd`. */
  function MaskFor(bd: Bounds, touches: Rasterizer): Grid<bool>
  {
    BoundaryMask(touches, GridTransform(bd, Resolution, Resolution), Resolution, Resolution)
  }

  /**
   Masking keeps the data and excludes exactly the cells outside the mask,
   so a renderer shows a cell's data exactly where the mask holds.
   */
  lemma ApplyMaskCells(v: Field, mask: Grid<bool>, r: nat, c: nat)
    requires SameShape(v, mask) && InGrid(v, r, c)
    ensures ApplyMask(v, mask).data == v
    ensures ApplyMask(v, mask).excluded[r][c] <==> !mask[r][c]
    ensures Shown(ApplyMask(v, mask), r, c) == if mask[r][c] then v[r][c] else None
  {
  }

  /**
   Cell by cell, the returned value of the entry point:
   - the coordinate grids sample the bounding box with spacing `/ 499`;
   - a cell is excluded exactly when the boundary does not touch its
     footprint under the `/ 500` transform;
   - every cell not excluded holds a number;
   - where the primary interpolation is defined, the data is that value;
   - where it is NaN inside the mask, the data is the nearest-neighbour value;
   - when the primary interpolation has no NaN inside the mask, the data is
     the primary raster unchanged, NaNs outside the mask included.
   */
  lemma InterpolateCells(bd: Bounds, primary: Interpolant, nearest: NearestInterpolant,
                         touches: Rasterizer, smooth: Smoother, r: nat, c: nat)
    requires r < Resolution && c < Resolution
    ensures var out := InterpolateWithGapFilling(bd, primary, nearest, touches, smooth);
            var lon := bd.lonMin + c as real * ((bd.lonMax - bd.lonMin) / 499.0);
            var lat := bd.latMin + r as real * ((bd.latMax - bd.latMin) / 499.0);
            var inside := touches(Footprint(GridTransform(bd, Resolution, Resolution), r, c));
            && out.gridLon[r][c] == lon && out.gridLat[r][c] == lat
            && (out.values.excluded[r][c] <==> !inside)
            && (!out.values.excluded[r][c] ==> out.values.data[r][c].Some?)
            && (primary(lon, lat).Some? ==> out.values.data[r][c] == primary(lon, lat))
            && (primary(lon, lat).None? && inside ==> out.values.data[r][c] == Some(nearest(lon, lat)))
            && (!Any(GapCells(Sample(primary, BuildGrid(bd)), MaskFor(bd, touches))) ==>
                  out.values.data[r][c] == primary(lon, lat))
  {
    var mesh := BuildGrid(bd);
    var values := Sample(primary, mesh);
    var mask := MaskFor(bd, touches);
    var near := Sample(nearest, mesh);
    GridSample(bd, r, c);
    assert values[r][c] == primary(mesh.lon[r][c], mesh.lat[r][c]);
    assert near[r][c] == nearest(mesh.lon[r][c], mesh.lat[r][c]);
    ResolveCells(values, mask, near, smooth, r, c);
    ApplyMaskCells(Resolve(values, mask, near, smooth), mask, r, c);
  }

  /**
   The rasteriser has all-touched semantics for the region `inside`: it marks
   every cell whose footprint covers some point of the region. This reads
   "touched" as "the closed box spanned by the footprint contains a region
   point", so a point on a cell's corner or edge touches that cell; GDAL's
   own handling of such boundary points is not modelled.
   */
  ghost predicate AllTouched(touches: Rasterizer, inside: Point -> bool)
  {
    forall rect: Rect, p: Point :: Covers(rect, p) && inside(p) ==> touches(rect)
  }

  /**
   Every grid point that lies in the boundary region is shown with a number:
   the grid point falls inside its own mask cell's footprint, so an
   all-touched rasteriser keeps that cell.
   */
  lemma RegionPointsShown(bd: Bounds, primary: Interpolant, nearest: NearestInterpolant,
                          touches: Rasterizer, smooth: Smoother, inside: Point -> bool, r: nat, c: nat)
    requires r < Resolution && c < Resolution
    requires AllTouched(touches, inside)
    requires inside(Point(BuildGrid(bd).lon[r][c], BuildGrid(bd).lat[r][c]))
    ensures var out := InterpolateWithGapFilling(bd, primary, nearest, touches, smooth);
            && !out.values.excluded[r][c]
            && out.values.data[r][c].Some?
  {
    SampleInsideFootprint(bd, r, c);
    InterpolateCells(bd, primary, nearest, touches, smooth, r, c);
  }

  /**
   With an interpolant that is the same number everywhere (one observation
   under `nearest`), every cell that is not excluded shows that number.
   */
  lemma ConstantInterpolant(bd: Bounds, k: real, nearest: NearestInterpolant,
                            touches: Rasterizer, smooth: Smoother, r: nat, c: nat)
    requires r < Resolution && c < Resolution
    ensures var out := InterpolateWithGapFilling(bd, (x: real, y: real) => Some(k), nearest, touches, smooth);
            !out.values.excluded[r][c] ==> out.values.data[r][c] == Some(k)
  {
    InterpolateCells(bd, (x: real, y: real) => Some(k), nearest, touches, smooth, r, c);
  }
}
