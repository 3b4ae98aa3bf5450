/**
 The affine transform handed to the boundary rasteriser, in rasterio's
 convention: `Affine(a, b, c, d, e, f)` maps pixel `(col, row)` to
 `x = a * col + b * row + c` and `y = d * col + e * row + f`. Cell `(row, col)`
 covers the parallelogram between the images of its corner `(col, row)` and
 of the opposite corner `(col + 1, row + 1)`.
 */
module Transform {
  import opened SamplingGrid

  datatype Affine = Affine(a: real, b: real, c: real, d: real, e: real, f: real)

  /** A point in geographic coordinates. */
  datatype Point = Point(x: real, y: real)

  /** The footprint of one cell: the images of its two opposite corners. */
  datatype Rect = Rect(corner: Point, opposite: Point)

  /** Image of pixel position `(col, row)` under `t`. */
  function Apply(t: Affine, col: real, row: real): Point
  {
    Point(t.a * col + t.b * row + t.c, t.d * col + t.e * row + t.f)
  }

  /** A transform without rotation or shear. */
  predicate AxisAligned(t: Affine)
  {
    t.b == 0.0 && t.d == 0.0
  }

  /**
   The transform built from the bounding box and the raster shape
   `(rows, cols)`: cell width `(lonMax - lonMin) / cols`, cell height
   `(latMax - latMin) / rows`, origin `(lonMin, latMin)`, rotation terms zero.
   */
  function GridTransform(bd: Bounds, rows: nat, cols: nat): (t: Affine)
    requires rows > 0 && cols > 0
    ensures AxisAligned(t)
  {
    Affine((bd.lonMax - bd.lonMin) / cols as real, 0.0, bd.lonMin,
           0.0, (bd.latMax - bd.latMin) / rows as real, bd.latMin)
  }

  /**
   Pixel position of a point under an axis-aligned transform with non-zero
   cell sizes: the inverse rasterio applies to locate a coordinate in the grid.
   */
  function Invert(t: Affine, p: Point): Point
    requires AxisAligned(t) && t.a != 0.0 && t.e != 0.0
  {
    Point((p.x - t.c) / t.a, (p.y - t.f) / t.e)
  }

  /**
   For bounds of non-zero extent, the grid's transform and its inverse undo
   each other: inverting the image of a pixel position gives the position
   back, and applying the transform to the inverted point gives the point back.
   */
  lemma InvertRoundTrip(bd: Bounds, col: real, row: real, p: Point)
    requires bd.lonMin != bd.lonMax && bd.latMin != bd.latMax
    ensures var t := GridTransform(bd, Resolution, Resolution);
            && t.a != 0.0 && t.e != 0.0
            && Invert(t, Apply(t, col, row)) == Point(col, row)
            && Apply(t, Invert(t, p).x, Invert(t, p).y) == p
  {
    var t := GridTransform(bd, Resolution, Resolution);
    assert t.a != 0.0 && t.e != 0.0;
    AxisAlignedRoundTrip(t, col, row, p);
  }

  /** `Invert` and `Apply` are mutually inverse for any axis-aligned transform with non-zero cell sizes. */
  lemma AxisAlignedRoundTrip(t: Affine, col: real, row: real, p: Point)
    requires AxisAligned(t) && t.a != 0.0 && t.e != 0.0
    ensures Invert(t, Apply(t, col, row)) == Point(col, row)
    ensures Apply(t, Invert(t, p).x, Invert(t, p).y) == p
  {
    var q := Invert(t, p);
    assert t.a * q.x == p.x - t.c;
    assert t.e * q.y == p.y - t.f;
  }

  /**
   The grid transform has no rotation terms; cell `(row, col)` has its corner at
   `(lonMin + col * width, latMin + row * height)`, and the far corner of the
   whole raster, `(cols, rows)`, lands on `(lonMax, latMax)`.
   */
  lemma GridTransformCells(bd: Bounds, rows: nat, cols: nat, row: nat, col: nat)
    requires rows > 0 && cols > 0
    ensures AxisAligned(GridTransform(bd, rows, cols))
    ensures Apply(GridTransform(bd, rows, cols), col as real, row as real)
         == Point(bd.lonMin + col as real * ((bd.lonMax - bd.lonMin) / cols as real),
                  bd.latMin + row as real * ((bd.latMax - bd.latMin) / rows as real))
    ensures Apply(GridTransform(bd, rows, cols), cols as real, rows as real) == Point(bd.lonMax, bd.latMax)
  {
    var t := GridTransform(bd, rows, cols);
    assert cols as real * t.a == bd.lonMax - bd.lonMin;
    assert rows as real * t.e == bd.latMax - bd.latMin;
  }

  /** The footprint of cell `(row, col)` under `t`. */
  function Footprint(t: Affine, row: nat, col: nat): Rect
  {
    Rect(Apply(t, col as real, row as real), Apply(t, col as real + 1.0, row as real + 1.0))
  }

  /** `v` lies between `a` and `b`, in either order. */
  predicate Between(v: real, a: real, b: real)
  {
    (a <= v <= b) || (b <= v <= a)
  }

  /** `p` lies in the axis-aligned box spanned by the footprint's corners. */
  predicate Covers(rect: Rect, p: Point)
  {
    Between(p.x, rect.corner.x, rect.opposite.x) && Between(p.y, rect.corner.y, rect.opposite.y)
  }

  /**
   Along one axis, sample `i` of a 500-point linspace over `[lo, hi]`
   (spacing `(hi - lo) / 499`) falls inside cell `i` of the 500-cell
   partition of the same interval (cell width `(hi - lo) / 500`).
   */
  lemma AxisSampleInCell(lo: real, hi: real, i: nat, width: real)
    requires i < Resolution && width == (hi - lo) / 500.0
    ensures Between(Linspace(lo, hi, Resolution)[i], lo + i as real * width, lo + (i as real + 1.0) * width)
  {
    LinspaceSample(lo, hi, Resolution, i);
    var w := hi - lo;
    var k := i as real;
    var u := w / 249500.0;
    assert w / 499.0 == 500.0 * u;
    assert w / 500.0 == 499.0 * u;
    assert k * (w / 499.0) - k * (w / 500.0) == k * u;
    assert (k + 1.0) * (w / 500.0) - k * (w / 499.0) == (499.0 - k) * u;
    if w >= 0.0 {
      MulSigns(k, u);
      MulSigns(499.0 - k, u);
    } else {
      MulSigns(k, -u);
      MulSigns(499.0 - k, -u);
    }
  }

  lemma MulSigns(p: real, q: real)
    requires p >= 0.0 && q >= 0.0
    ensures p * q >= 0.0 && p * -q <= 0.0
  {
  }

  /**
   The grid and the rasterised mask use different spacings (`/ 499` against
   `/ 500`), yet every grid sample `(r, c)` still lies inside the footprint of
   mask cell `(r, c)`, whatever the bounds.
   */
  lemma SampleInsideFootprint(bd: Bounds, r: nat, c: nat)
    requires r < Resolution && c < Resolution
    ensures Covers(Footprint(GridTransform(bd, Resolution, Resolution), r, c),
                   Point(BuildGrid(bd).lon[r][c], BuildGrid(bd).lat[r][c]))
  {
    var w := (bd.lonMax - bd.lonMin) / 500.0;
    var h := (bd.latMax - bd.latMin) / 500.0;
    GridFootprint(bd, r, c, w, h);
    GridPointOnAxes(bd, r, c);
    AxisSampleInCell(bd.lonMin, bd.lonMax, c, w);
    AxisSampleInCell(bd.latMin, bd.latMax, r, h);
    CoversCorners(Footprint(GridTransform(bd, Resolution, Resolution), r, c),
                  Point(BuildGrid(bd).lon[r][c], BuildGrid(bd).lat[r][c]),
                  bd.lonMin + c as real * w, bd.lonMin + (c as real + 1.0) * w,
                  bd.latMin + r as real * h, bd.latMin + (r as real + 1.0) * h);
  }

  lemma CoversCorners(rect: Rect, p: Point, x0: real, x1: real, y0: real, y1: real)
    requires rect == Rect(Point(x0, y0), Point(x1, y1))
    requires Between(p.x, x0, x1) && Between(p.y, y0, y1)
    ensures Covers(rect, p)
  {
  }

  /** Grid point `(r, c)` is sample `c` of the longitude axis and sample `r` of the latitude axis. */
  lemma GridPointOnAxes(bd: Bounds, r: nat, c: nat)
    requires r < Resolution && c < Resolution
    ensures BuildGrid(bd).lon[r][c] == LonAxis(bd)[c] && BuildGrid(bd).lat[r][c] == LatAxis(bd)[r]
  {
    MeshgridSeparable(LonAxis(bd), LatAxis(bd), r, r, c, c);
  }

  /** The footprint of cell `(r, c)` of the reference transform, with cell width `w` and height `h`. */
  lemma GridFootprint(bd: Bounds, r: nat, c: nat, w: real, h: real)
    requires w == (bd.lonMax - bd.lonMin) / 500.0 && h == (bd.latMax - bd.latMin) / 500.0
    ensures Footprint(GridTransform(bd, Resolution, Resolution), r, c)
         == Rect(Point(bd.lonMin + c as real * w, bd.latMin + r as real * h),
                 Point(bd.lonMin + (c as real + 1.0) * w, bd.latMin + (r as real + 1.0) * h))
  {
  }

  /**
   The two spacings do not coincide: grid sample `c` sits `c * w / 249500`
   past the corner of mask cell `c` along an axis of extent `w`, so the two
   agree only at the first sample or on a degenerate axis.
   */
  lemma SampleOffsetFromCorner(bd: Bounds, r: nat, c: nat)
    requires r < Resolution && c < Resolution
    ensures BuildGrid(bd).lon[r][c] - Footprint(GridTransform(bd, Resolution, Resolution), r, c).corner.x
         == c as real * ((bd.lonMax - bd.lonMin) / 249500.0)
    ensures BuildGrid(bd).lat[r][c] - Footprint(GridTransform(bd, Resolution, Resolution), r, c).corner.y
         == r as real * ((bd.latMax - bd.latMin) / 249500.0)
  {
    GridSample(bd, r, c);
    var wx := bd.lonMax - bd.lonMin;
    var wy := bd.latMax - bd.latMin;
    assert c as real * (wx / 499.0) - c as real * (wx / 500.0) == c as real * (wx / 249500.0);
    assert r as real * (wy / 499.0) - r as real * (wy / 500.0) == r as real * (wy / 249500.0);
  }
}
