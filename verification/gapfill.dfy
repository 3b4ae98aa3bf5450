/**
 The gap-filling resolver of `interpolate_with_gap_filling`: it finds the
 NaN cells inside the boundary mask, copies the nearest-neighbour raster into
 them, and, if any NaN is then left anywhere in the raster, fills every
 remaining NaN from a Gaussian-smoothed copy whose NaNs were first replaced
 by the mean of the defined cells.

 The library rasters are inputs: `nearest` is the `griddata(method='nearest')`
 raster, which holds a number in every cell, and `smooth(g, r, c)` is cell
 `(r, c)` of `gaussian_filter(g, sigma=10)`.
 */
module GapFill {
  import opened Raster
  import NanMean

  /** `smooth(g, r, c)` is cell `(r, c)` of the smoothed copy of the total raster `g`. */
  type Smoother = (Grid<real>, nat, nat) -> real

  /** Which fill stages a call runs, in the order the code tries them. */
  datatype Stages = NoFill | NearestOnly | NearestThenSmooth

  /** `np.isnan(v) & mask`: the NaN cells inside the boundary. */
  function GapCells(v: Field, mask: Grid<bool>): (gaps: Grid<bool>)
    requires SameShape(v, mask)
    ensures SameShape(gaps, v)
    ensures forall r, c | InGrid(v, r, c) :: gaps[r][c] <==> v[r][c].None? && mask[r][c]
  {
    seq(|v|, r requires 0 <= r < |v| =>
      seq(|v[r]|, c requires 0 <= c < |v[r]| => v[r][c].None? && mask[r][c]))
  }

  /** There is a gap cell exactly when some in-mask cell is NaN. */
  lemma AnyGapIff(v: Field, mask: Grid<bool>)
    requires SameShape(v, mask)
    ensures Any(GapCells(v, mask)) <==> exists r, c | InGrid(v, r, c) :: v[r][c].None? && mask[r][c]
  {
    var gaps := GapCells(v, mask);
    if Any(gaps) {
      var r, c :| 0 <= r < |gaps| && 0 <= c < |gaps[r]| && gaps[r][c];
      assert InGrid(v, r, c);
    }
  }

  /** `v[gaps] = nearest[gaps]`. */
  function NearestFill(v: Field, gaps: Grid<bool>, nearest: Grid<real>): (out: Field)
    requires SameShape(v, gaps) && SameShape(v, nearest)
    ensures SameShape(out, v)
  {
    seq(|v|, r requires 0 <= r < |v| =>
      seq(|v[r]|, c requires 0 <= c < |v[r]| => if gaps[r][c] then Some(nearest[r][c]) else v[r][c]))
  }

  /**
   The nearest stage writes the nearest raster's value into every gap cell
   and leaves every other cell as it was; afterwards no in-mask cell is NaN,
   and the NaN cells left are exactly the NaN cells outside the mask.
   */
  lemma NearestFillCells(v: Field, mask: Grid<bool>, nearest: Grid<real>, r: nat, c: nat)
    requires SameShape(v, mask) && SameShape(v, nearest) && InGrid(v, r, c)
    ensures var out := NearestFill(v, GapCells(v, mask), nearest);
            && (v[r][c].None? && mask[r][c] ==> out[r][c] == Some(nearest[r][c]))
            && (v[r][c].Some? || !mask[r][c] ==> out[r][c] == v[r][c])
            && (mask[r][c] ==> out[r][c].Some?)
            && (out[r][c].None? <==> v[r][c].None? && !mask[r][c])
  {
  }

  /** `np.nan_to_num(v, nan=fill)`: NaN cells become `fill`, the others keep their number. */
  function SmootherInput(v: Field, fill: real): (g: Grid<real>)
    ensures SameShape(g, v)
  {
    seq(|v|, r requires 0 <= r < |v| => FillRow(v[r], fill))
  }

  /** One row of `SmootherInput`. */
  function FillRow(row: seq<Option<real>>, fill: real): (xs: seq<real>)
    ensures |xs| == |row|
  {
    seq(|row|, c requires 0 <= c < |row| => match row[c] case Some(x) => x case None => fill)
  }

  lemma {:induction false} FillRowTotals(row: seq<Option<real>>, fill: real)
    ensures NanMean.RowSum(LiftRow(FillRow(row, fill)))
         == NanMean.RowSum(row) + NanMean.Repeat(NanMean.RowMissing(row), fill)
    ensures NanMean.RowCount(LiftRow(FillRow(row, fill))) == NanMean.RowCount(row) + NanMean.RowMissing(row)
  {
    if |row| > 0 {
      var lifted := LiftRow(FillRow(row, fill));
      assert lifted[1..] == LiftRow(FillRow(row[1..], fill));
      FillRowTotals(row[1..], fill);
      NanMean.RepeatAdditive(1, NanMean.RowMissing(row[1..]), fill);
    }
  }

  lemma {:induction false} FillTotals(v: Field, fill: real)
    ensures NanMean.DefinedSum(Lift(SmootherInput(v, fill)))
         == NanMean.DefinedSum(v) + NanMean.Repeat(NanMean.MissingCount(v), fill)
    ensures NanMean.DefinedCount(Lift(SmootherInput(v, fill))) == NanMean.DefinedCount(v) + NanMean.MissingCount(v)
  {
    if |v| > 0 {
      var lifted := Lift(SmootherInput(v, fill));
      assert lifted[0] == LiftRow(FillRow(v[0], fill));
      assert lifted[1..] == Lift(SmootherInput(v[1..], fill));
      FillRowTotals(v[0], fill);
      FillTotals(v[1..], fill);
      NanMean.RepeatAdditive(NanMean.RowMissing(v[0]), NanMean.MissingCount(v[1..]), fill);
    }
  }

  /**
   Substituting the mean for the NaNs does not move the mean: the raster the
   smoother receives has, over all its cells, the same mean as the defined
   cells it was built from.
   */
  lemma SubstitutionKeepsMean(v: Field)
    requires AnyDefined(v)
    ensures NanMean.Mean(Lift(SmootherInput(v, NanMean.Mean(v).value))) == NanMean.Mean(v)
  {
    var m := NanMean.Mean(v).value;
    NanMean.CountPositiveIff(v);
    FillTotals(v, m);
    NanMean.MeanOfPadded(Lift(SmootherInput(v, m)), NanMean.DefinedSum(v), NanMean.DefinedCount(v),
                         NanMean.MissingCount(v), m);
  }

  /** `v[isnan(v)] = smoothed[isnan(v)]`, with the smoothed raster read through `smooth`. */
  function SmoothFill(v: Field, input: Grid<real>, smooth: Smoother): (out: Field)
    ensures SameShape(out, v)
  {
    seq(|v|, r requires 0 <= r < |v| =>
      seq(|v[r]|, c requires 0 <= c < |v[r]| => if v[r][c].None? then Some(smooth(input, r, c)) else v[r][c]))
  }

  /**
   The smoothing stage: the NaNs of `v` are replaced by the mean of its
   defined cells, that raster is smoothed, and the smoothed value is copied
   into every NaN cell. It needs one defined cell for the mean to exist.
   Afterwards no cell is NaN and every defined cell keeps its number.
   */
  function SmoothingStage(v: Field, smooth: Smoother): (out: Field)
    requires AnyDefined(v)
    ensures SameShape(out, v)
    ensures !AnyUndefined(out)
    ensures forall r, c | InGrid(v, r, c) && v[r][c].Some? :: out[r][c] == v[r][c]
  {
    var mean := NanMean.Mean(v).value;
    SmoothFill(v, SmootherInput(v, mean), smooth)
  }

  /**
   The smoother's input keeps every defined cell's number and holds the mean
   of the defined cells in every NaN cell; each NaN cell of `v` is then given
   the smoothed value of that input.
   */
  lemma SmoothingStageCells(v: Field, smooth: Smoother, r: nat, c: nat)
    requires AnyDefined(v) && InGrid(v, r, c)
    ensures var input := SmootherInput(v, NanMean.Mean(v).value);
            && (v[r][c].Some? ==> input[r][c] == v[r][c].value)
            && (v[r][c].None? ==> input[r][c] == NanMean.Mean(v).value)
            && (v[r][c].None? ==> SmoothingStage(v, smooth)[r][c] == Some(smooth(input, r, c)))
  {
  }

  /** After the nearest stage has written at least one gap cell, some cell is defined. */
  lemma FilledHasDefined(v: Field, mask: Grid<bool>, nearest: Grid<real>)
    requires SameShape(v, mask) && SameShape(v, nearest) && Any(GapCells(v, mask))
    ensures AnyDefined(NearestFill(v, GapCells(v, mask), nearest))
  {
    var gaps := GapCells(v, mask);
    var r, c :| 0 <= r < |gaps| && 0 <= c < |gaps[r]| && gaps[r][c];
    assert NearestFill(v, gaps, nearest)[r][c].Some?;
  }

  /** The stages the code runs on `v`, in order. */
  function StagesRun(v: Field, mask: Grid<bool>, nearest: Grid<real>): Stages
    requires SameShape(v, mask) && SameShape(v, nearest)
  {
    var gaps := GapCells(v, mask);
    if !Any(gaps) then NoFill
    else if !AnyUndefined(NearestFill(v, gaps, nearest)) then NearestOnly
    else NearestThenSmooth
  }

  /**
   The whole resolver: without gap cells the raster passes through
   untouched; otherwise the nearest stage runs, followed by the smoothing
   stage when any NaN is left anywhere in the raster.
   */
  function Resolve(v: Field, mask: Grid<bool>, nearest: Grid<real>, smooth: Smoother): (out: Field)
    requires SameShape(v, mask) && SameShape(v, nearest)
    ensures SameShape(out, v)
  {
    var gaps := GapCells(v, mask);
    if !Any(gaps) then v
    else
      var filled := NearestFill(v, gaps, nearest);
      if !AnyUndefined(filled) then filled
      else
        FilledHasDefined(v, mask, nearest);
        SmoothingStage(filled, smooth)
  }

  /**
   Which stages run depends only on where the NaNs are, not on the nearest
   raster's numbers: nothing runs exactly when no in-mask cell is NaN, and
   the smoothing stage runs exactly when some in-mask cell and some
   out-of-mask cell are both NaN.
   */
  lemma StagesRunIff(v: Field, mask: Grid<bool>, nearest: Grid<real>)
    requires SameShape(v, mask) && SameShape(v, nearest)
    ensures StagesRun(v, mask, nearest) == NoFill
        <==> !exists r, c | InGrid(v, r, c) :: v[r][c].None? && mask[r][c]
    ensures StagesRun(v, mask, nearest) == NearestThenSmooth
        <==> ((exists r, c | InGrid(v, r, c) :: v[r][c].None? && mask[r][c])
              && (exists r, c | InGrid(v, r, c) :: v[r][c].None? && !mask[r][c]))
  {
    AnyGapIff(v, mask);
    var filled := NearestFill(v, GapCells(v, mask), nearest);
    if AnyUndefined(filled) {
      var r, c :| 0 <= r < |filled| && 0 <= c < |filled[r]| && filled[r][c].None?;
      NearestFillCells(v, mask, nearest, r, c);
    }
    if exists r, c | InGrid(v, r, c) :: v[r][c].None? && !mask[r][c] {
      var r, c :| InGrid(v, r, c) && v[r][c].None? && !mask[r][c];
      NearestFillCells(v, mask, nearest, r, c);
      assert filled[r][c].None?;
    }
  }

  /**
   What the resolver promises, cell by cell:
   - a defined cell keeps its number;
   - a NaN cell inside the mask gets the nearest raster's number;
   - no in-mask cell is NaN afterwards;
   - with no gap cell the raster is returned unchanged, NaNs outside the
     mask included;
   - with a gap cell no cell at all is NaN afterwards, and a NaN cell
     outside the mask gets the smoothed value of the mean-substituted raster.
   */
  lemma ResolveCells(v: Field, mask: Grid<bool>, nearest: Grid<real>, smooth: Smoother, r: nat, c: nat)
    requires SameShape(v, mask) && SameShape(v, nearest) && InGrid(v, r, c)
    ensures var out := Resolve(v, mask, nearest, smooth);
            && (v[r][c].Some? ==> out[r][c] == v[r][c])
            && (v[r][c].None? && mask[r][c] ==> out[r][c] == Some(nearest[r][c]))
            && (mask[r][c] ==> out[r][c].Some?)
            && (!Any(GapCells(v, mask)) ==> out == v)
            && (Any(GapCells(v, mask)) ==> out[r][c].Some?)
  {
    var gaps := GapCells(v, mask);
    NearestFillCells(v, mask, nearest, r, c);
    if Any(gaps) {
      var filled := NearestFill(v, gaps, nearest);
      if AnyUndefined(filled) {
        FilledHasDefined(v, mask, nearest);
        assert !AnyUndefined(SmoothingStage(filled, smooth));
      }
    } else {
      AnyGapIff(v, mask);
    }
  }

  /**
   When the smoothing stage runs, the mean it substitutes exists, and a NaN
   cell outside the mask ends up holding the smoothed value, at that cell, of
   the raster left by the nearest stage with its NaNs set to that mean.
   */
  lemma ResolveSmoothedCell(v: Field, mask: Grid<bool>, nearest: Grid<real>, smooth: Smoother, r: nat, c: nat)
    requires SameShape(v, mask) && SameShape(v, nearest) && InGrid(v, r, c)
    requires StagesRun(v, mask, nearest) == NearestThenSmooth
    requires v[r][c].None? && !mask[r][c]
    ensures var filled := NearestFill(v, GapCells(v, mask), nearest);
            && NanMean.Mean(filled).Some?
            && Resolve(v, mask, nearest, smooth)[r][c]
               == Some(smooth(SmootherInput(filled, NanMean.Mean(filled).value), r, c))
  {
    var filled := NearestFill(v, GapCells(v, mask), nearest);
    FilledHasDefined(v, mask, nearest);
    NearestFillCells(v, mask, nearest, r, c);
    SmoothingStageCells(filled, smooth, r, c);
  }

  /**
   The smoothing stage is reachable: a one-row raster whose two cells are
   both NaN, the first inside the mask and the second outside, runs both
   stages, and the outside cell ends up holding a smoothed value.
   */
  lemma SmoothingReachable(k: real, smooth: Smoother)
    ensures var v: Field := [[None, None]];
            var mask := [[true, false]];
            var nearest := [[k, k]];
            && StagesRun(v, mask, nearest) == NearestThenSmooth
            && Resolve(v, mask, nearest, smooth) == [[Some(k), Some(smooth([[k, k]], 0, 1))]]
  {
    var v: Field := [[None, None]];
    var gaps := GapCells(v, [[true, false]]);
    assert gaps[0][0];
    var filled: Field := ExampleNearestFill(k);
    assert filled[0][1].None?;
    ExampleMean(k);
    ExampleSmootherInput(k);
    ExampleSmoothFill(k, smooth);
  }

  /** The nearest stage of the example fills the in-mask cell and leaves the other NaN. */
  lemma ExampleNearestFill(k: real) returns (filled: Field)
    ensures filled == NearestFill([[None, None]], GapCells([[None, None]], [[true, false]]), [[k, k]])
    ensures filled == [[Some(k), None]]
  {
    var v: Field := [[None, None]];
    var gaps := GapCells(v, [[true, false]]);
    assert gaps[0][0] && !gaps[0][1];
    filled := NearestFill(v, gaps, [[k, k]]);
    var row: seq<Option<real>> := [Some(k), None];
    assert |filled| == 1 && |filled[0]| == 2;
    assert filled[0][0] == Some(k) && filled[0][1] == None;
    assert filled[0] == row;
  }

  /** The mean of the example's nearest-filled raster is its one defined value. */
  lemma ExampleMean(k: real)
    ensures NanMean.Mean([[Some(k), None]]) == Some(k)
  {
    var row: seq<Option<real>> := [Some(k), None];
    var tail: seq<Option<real>> := [None];
    assert row[1..] == tail;
    assert tail[1..] == [];
    assert NanMean.RowCount(row) == 1 && NanMean.RowSum(row) == k;
    var filled := [row];
    assert filled[1..] == [];
    assert NanMean.DefinedCount(filled) == 1 && NanMean.DefinedSum(filled) == k;
  }

  /** The example's smoother input holds the mean in the NaN cell. */
  lemma ExampleSmootherInput(k: real)
    ensures SmootherInput([[Some(k), None]], k) == [[k, k]]
  {
    var input := SmootherInput([[Some(k), None]], k);
    var kk := [k, k];
    assert |input| == 1 && |input[0]| == 2;
    assert input[0][0] == k && input[0][1] == k;
    assert input[0] == kk;
  }

  /** The example's smoothing stage writes the smoothed value into the one NaN cell. */
  lemma ExampleSmoothFill(k: real, smooth: Smoother)
    ensures SmoothFill([[Some(k), None]], [[k, k]], smooth) == [[Some(k), Some(smooth([[k, k]], 0, 1))]]
  {
    var out := SmoothFill([[Some(k), None]], [[k, k]], smooth);
    var expected := [Some(k), Some(smooth([[k, k]], 0, 1))];
    assert |out| == 1 && |out[0]| == 2;
    assert out[0][0] == Some(k) && out[0][1] == Some(smooth([[k, k]], 0, 1));
    assert out[0] == expected;
  }
}
