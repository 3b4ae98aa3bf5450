/**
 The sampling grid: two evenly spaced axes over the boundary's bounding box,
 expanded into a longitude grid and a latitude grid with "xy" indexing
 (longitude varies along columns, latitude along rows).
 */
module SamplingGrid {
  import opened Raster

  /** Samples per axis of the reference grid. */
  const Resolution: nat := 500

  /** `total_bounds` of the boundary geometry. */
  datatype Bounds = Bounds(lonMin: real, latMin: real, lonMax: real, latMax: real)

  /** The two coordinate grids produced by `meshgrid`. */
  datatype Mesh = Mesh(lon: Grid<real>, lat: Grid<real>)

  /** The step between consecutive samples of `Linspace(lo, hi, n)`. */
  function Step(lo: real, hi: real, n: nat): real
    requires n > 1
  {
    (hi - lo) / (n - 1) as real
  }

  /**
   numpy's `linspace(lo, hi, n)` with its default `endpoint=True`: sample `i`
   is `lo + i * step` with `step = (hi - lo) / (n - 1)`, and when `n > 1`
   the last sample is set to `hi` outright. With a single sample there is no
   step and the axis is `[lo]`.
   */
  function Linspace(lo: real, hi: real, n: nat): (xs: seq<real>)
    ensures |xs| == n
  {
    var step := if n > 1 then Step(lo, hi, n) else 0.0;
    seq(n, i requires 0 <= i < n => if n > 1 && i == n - 1 then hi else lo + i as real * step)
  }

  /** Every sample, the forced last one included, lies on the line through `lo` with slope `(hi - lo) / (n - 1)`. */
  lemma LinspaceSample(lo: real, hi: real, n: nat, i: nat)
    requires n > 1 && i < n
    ensures Linspace(lo, hi, n)[i] == lo + i as real * Step(lo, hi, n)
  {
    if i == n - 1 {
      var d := (n - 1) as real;
      calc {
        i as real * Step(lo, hi, n);
        d * ((hi - lo) / d);
        hi - lo;
      }
    }
  }

  /** The axis starts at `lo` and, with at least two samples, ends at `hi`. */
  lemma LinspaceEndpoints(lo: real, hi: real, n: nat)
    requires n > 0
    ensures Linspace(lo, hi, n)[0] == lo
    ensures n > 1 ==> Linspace(lo, hi, n)[n - 1] == hi
  {
  }

  /** Consecutive samples are exactly one step `(hi - lo) / (n - 1)` apart. */
  lemma LinspaceUniformStep(lo: real, hi: real, n: nat, i: nat)
    requires n > 1 && i + 1 < n
    ensures Linspace(lo, hi, n)[i + 1] - Linspace(lo, hi, n)[i] == Step(lo, hi, n)
  {
    var s := Step(lo, hi, n);
    LinspaceSample(lo, hi, n, i);
    LinspaceSample(lo, hi, n, i + 1);
    assert (i + 1) as real * s == i as real * s + s;
  }

  /** The axis is non-decreasing when `lo <= hi`, strictly increasing when `lo < hi`, and constant when `lo == hi`. */
  lemma LinspaceMonotone(lo: real, hi: real, n: nat, i: nat, j: nat)
    requires n > 1 && i <= j < n
    ensures lo <= hi ==> Linspace(lo, hi, n)[i] <= Linspace(lo, hi, n)[j]
    ensures lo < hi && i < j ==> Linspace(lo, hi, n)[i] < Linspace(lo, hi, n)[j]
    ensures lo == hi ==> Linspace(lo, hi, n)[i] == lo
  {
    var s := Step(lo, hi, n);
    LinspaceSample(lo, hi, n, i);
    LinspaceSample(lo, hi, n, j);
    var gap := (j - i) as real;
    assert j as real * s == i as real * s + gap * s;
    if lo <= hi {
      assert s >= 0.0;
      assert gap * s >= 0.0;
    }
    if lo < hi && i < j {
      assert s > 0.0;
      assert gap * s > 0.0;
    }
  }

  /** Every sample of an axis over `lo <= hi` lies inside `[lo, hi]`. */
  lemma LinspaceWithin(lo: real, hi: real, n: nat, i: nat)
    requires lo <= hi && i < n
    ensures lo <= Linspace(lo, hi, n)[i] <= hi
  {
    if n > 1 {
      LinspaceMonotone(lo, hi, n, 0, i);
      LinspaceMonotone(lo, hi, n, i, n - 1);
    }
  }

  /**
   numpy's `meshgrid(xs, ys)` with "xy" indexing: both grids have `|ys|` rows
   of `|xs|` columns; the longitude grid repeats `xs` down every row and the
   latitude grid repeats `ys[r]` along row `r`.
   */
  function Meshgrid(xs: seq<real>, ys: seq<real>): (m: Mesh)
    ensures Shaped(m.lon, |ys|, |xs|) && Shaped(m.lat, |ys|, |xs|)
  {
    Mesh(seq(|ys|, r => xs), seq(|ys|, r requires 0 <= r < |ys| => seq(|xs|, c => ys[r])))
  }

  /**
   The longitude grid depends on the column only and the latitude grid on the
   row only: any two cells in one column share a longitude, any two cells in
   one row share a latitude, and those values are the axes' samples.
   */
  lemma MeshgridSeparable(xs: seq<real>, ys: seq<real>, r1: nat, r2: nat, c1: nat, c2: nat)
    requires r1 < |ys| && r2 < |ys| && c1 < |xs| && c2 < |xs|
    ensures Meshgrid(xs, ys).lon[r1][c1] == Meshgrid(xs, ys).lon[r2][c1] == xs[c1]
    ensures Meshgrid(xs, ys).lat[r1][c1] == Meshgrid(xs, ys).lat[r1][c2] == ys[r1]
  {
  }

  /** The longitude axis of the reference grid. */
  function LonAxis(b: Bounds): seq<real>
  {
    Linspace(b.lonMin, b.lonMax, Resolution)
  }

  /** The latitude axis of the reference grid. */
  function LatAxis(b: Bounds): seq<real>
  {
    Linspace(b.latMin, b.latMax, Resolution)
  }

  /** The 500 x 500 sampling grid over the bounding box `b`. */
  function BuildGrid(b: Bounds): (m: Mesh)
    ensures Shaped(m.lon, Resolution, Resolution) && Shaped(m.lat, Resolution, Resolution)
  {
    Meshgrid(LonAxis(b), LatAxis(b))
  }

  /**
   Grid cell `(r, c)` samples longitude `lonMin + c * (lonMax - lonMin) / 499`
   and latitude `latMin + r * (latMax - latMin) / 499`, so the corner cells
   sit exactly on the corners of the bounding box.
   */
  lemma GridSample(b: Bounds, r: nat, c: nat)
    requires r < Resolution && c < Resolution
    ensures BuildGrid(b).lon[r][c] == b.lonMin + c as real * ((b.lonMax - b.lonMin) / 499.0)
    ensures BuildGrid(b).lat[r][c] == b.latMin + r as real * ((b.latMax - b.latMin) / 499.0)
  {
    LinspaceSample(b.lonMin, b.lonMax, Resolution, c);
    LinspaceSample(b.latMin, b.latMax, Resolution, r);
  }

  /** The grid spans the bounding box: its first samples are the minima and its last samples the maxima. */
  lemma GridCorners(b: Bounds)
    ensures BuildGrid(b).lon[0][0] == b.lonMin && BuildGrid(b).lat[0][0] == b.latMin
    ensures BuildGrid(b).lon[Resolution - 1][Resolution - 1] == b.lonMax
    ensures BuildGrid(b).lat[Resolution - 1][Resolution - 1] == b.latMax
  {
    LinspaceEndpoints(b.lonMin, b.lonMax, Resolution);
    LinspaceEndpoints(b.latMin, b.latMax, Resolution);
  }
}
