/**
 numpy's `nanmean` over a whole raster: the sum of the defined cells divided
 by their number, and NaN when no cell is defined.
 */
module NanMean {
  import opened Raster

  /** The number carried by a cell, or zero for NaN; used only inside sums. */
  function ValueOrZero(x: Option<real>): real
  {
    match x
    case Some(v) => v
    case None => 0.0
  }

  function RowSum(row: seq<Option<real>>): real
  {
    if |row| == 0 then 0.0 else ValueOrZero(row[0]) + RowSum(row[1..])
  }

  function RowCount(row: seq<Option<real>>): nat
  {
    if |row| == 0 then 0 else (if row[0].Some? then 1 else 0) + RowCount(row[1..])
  }

  function RowMissing(row: seq<Option<real>>): nat
  {
    if |row| == 0 then 0 else (if row[0].None? then 1 else 0) + RowMissing(row[1..])
  }

  /** Sum of the defined cells of `v`. */
  function DefinedSum(v: Field): real
  {
    if |v| == 0 then 0.0 else RowSum(v[0]) + DefinedSum(v[1..])
  }

  /** Number of defined cells of `v`. */
  function DefinedCount(v: Field): nat
  {
    if |v| == 0 then 0 else RowCount(v[0]) + DefinedCount(v[1..])
  }

  /** Number of NaN cells of `v`. */
  function MissingCount(v: Field): nat
  {
    if |v| == 0 then 0 else RowMissing(v[0]) + MissingCount(v[1..])
  }

  /** `nanmean(v)`: defined exactly when some cell of `v` is defined. */
  function Mean(v: Field): (m: Option<real>)
    ensures m.Some? <==> AnyDefined(v)
  {
    CountPositiveIff(v);
    if DefinedCount(v) == 0 then None else Some(DefinedSum(v) / DefinedCount(v) as real)
  }

  lemma {:induction false} RowCountPositiveIff(row: seq<Option<real>>)
    ensures RowCount(row) > 0 <==> exists c | 0 <= c < |row| :: row[c].Some?
  {
    if |row| > 0 {
      RowCountPositiveIff(row[1..]);
      if row[0].None? && RowCount(row) == 0 {
        forall c | 0 <= c < |row|
          ensures row[c].None?
        {
          if c > 0 {
            assert row[c] == row[1..][c - 1];
          }
        }
      }
      if RowCount(row) > 0 && row[0].None? {
        var c :| 0 <= c < |row[1..]| && row[1..][c].Some?;
        assert row[c + 1].Some?;
      }
    }
  }

  /** The defined-cell count is positive exactly when some cell is defined. */
  lemma {:induction false} CountPositiveIff(v: Field)
    ensures DefinedCount(v) > 0 <==> AnyDefined(v)
  {
    if |v| > 0 {
      CountPositiveIff(v[1..]);
      RowCountPositiveIff(v[0]);
      if AnyDefined(v) {
        var r, c :| 0 <= r < |v| && 0 <= c < |v[r]| && v[r][c].Some?;
        if r > 0 {
          assert v[1..][r - 1][c].Some?;
        }
      }
      if DefinedCount(v) > 0 {
        if RowCount(v[0]) > 0 {
          var c :| 0 <= c < |v[0]| && v[0][c].Some?;
          assert v[0][c].Some?;
        } else {
          var r, c :| 0 <= r < |v[1..]| && 0 <= c < |v[1..][r]| && v[1..][r][c].Some?;
          assert v[r + 1][c].Some?;
        }
      }
    }
  }

  /** Every defined cell of `row` lies in `[lo, hi]`. */
  predicate RowWithin(row: seq<Option<real>>, lo: real, hi: real)
  {
    forall c | 0 <= c < |row| && row[c].Some? :: lo <= row[c].value <= hi
  }

  /** Every defined cell of `v` lies in `[lo, hi]`. */
  predicate DefinedWithin(v: Field, lo: real, hi: real)
  {
    forall r | 0 <= r < |v| :: RowWithin(v[r], lo, hi)
  }

  /** `x` added up `k` times; keeps the bound proofs free of products. */
  function Repeat(k: nat, x: real): real
  {
    if k == 0 then 0.0 else x + Repeat(k - 1, x)
  }

  lemma {:induction false} RepeatAdditive(a: nat, b: nat, x: real)
    ensures Repeat(a + b, x) == Repeat(a, x) + Repeat(b, x)
  {
    if a > 0 {
      RepeatAdditive(a - 1, b, x);
    }
  }

  lemma {:induction false} RepeatIsProduct(k: nat, x: real)
    ensures Repeat(k, x) == k as real * x
  {
    if k > 0 {
      RepeatIsProduct(k - 1, x);
      Distribute(x, (k - 1) as real, 1.0);
    }
  }

  lemma {:induction false} RowSumBounds(row: seq<Option<real>>, lo: real, hi: real)
    requires RowWithin(row, lo, hi)
    ensures Repeat(RowCount(row), lo) <= RowSum(row) <= Repeat(RowCount(row), hi)
  {
    if |row| > 0 {
      var rest := row[1..];
      assert RowWithin(rest, lo, hi) by {
        forall c | 0 <= c < |rest| && rest[c].Some?
          ensures lo <= rest[c].value <= hi
        {
          assert rest[c] == row[c + 1];
        }
      }
      RowSumBounds(rest, lo, hi);
      if row[0].Some? {
        RepeatAdditive(1, RowCount(rest), lo);
        RepeatAdditive(1, RowCount(rest), hi);
      }
    }
  }

  lemma {:induction false} SumBounds(v: Field, lo: real, hi: real)
    requires DefinedWithin(v, lo, hi)
    ensures Repeat(DefinedCount(v), lo) <= DefinedSum(v) <= Repeat(DefinedCount(v), hi)
  {
    if |v| > 0 {
      var rest := v[1..];
      assert DefinedWithin(rest, lo, hi) by {
        forall r | 0 <= r < |rest|
          ensures RowWithin(rest[r], lo, hi)
        {
          assert rest[r] == v[r + 1];
        }
      }
      RowSumBounds(v[0], lo, hi);
      SumBounds(rest, lo, hi);
      RepeatAdditive(RowCount(v[0]), DefinedCount(rest), lo);
      RepeatAdditive(RowCount(v[0]), DefinedCount(rest), hi);
    }
  }

  /**
   The mean lies between the smallest and the largest defined value: any
   bounds on the defined cells also bound their mean.
   */
  lemma MeanWithin(v: Field, lo: real, hi: real)
    requires AnyDefined(v) && DefinedWithin(v, lo, hi)
    ensures lo <= Mean(v).value <= hi
  {
    SumBounds(v, lo, hi);
    CountPositiveIff(v);
    RepeatIsProduct(DefinedCount(v), lo);
    RepeatIsProduct(DefinedCount(v), hi);
    DivideBounds(DefinedSum(v), DefinedCount(v) as real, lo, hi);
  }

  lemma DivideBounds(s: real, n: real, lo: real, hi: real)
    requires n > 0.0 && n * lo <= s <= n * hi
    ensures lo <= s / n <= hi
  {
    var q := s / n;
    assert q * n == s;
    Distribute(n, q, -lo);
    Distribute(n, hi, -q);
    NonNegativeFactor(q - lo, n);
    NonNegativeFactor(hi - q, n);
  }

  /**
   A raster whose defined cells are `d` cells summing to `s` plus `u` cells
   each holding `m = s / d` has mean `m`.
   */
  lemma MeanOfPadded(w: Field, s: real, d: nat, u: nat, m: real)
    requires d > 0 && m == s / d as real
    requires DefinedSum(w) == s + Repeat(u, m) && DefinedCount(w) == d + u
    ensures Mean(w) == Some(m)
  {
    RepeatIsProduct(u, m);
    PaddedQuotient(s, d as real, u as real, m, DefinedSum(w), DefinedCount(w) as real);
  }

  lemma PaddedQuotient(s: real, d: real, u: real, m: real, total: real, n: real)
    requires d > 0.0 && u >= 0.0 && m == s / d
    requires total == s + u * m && n == d + u
    ensures total / n == m
  {
    assert s == d * m;
    Distribute(m, d, u);
    assert total == n * m;
  }

  lemma Distribute(a: real, x: real, y: real)
    ensures a * (x + y) == a * x + a * y
  {
  }

  lemma NonNegativeFactor(a: real, n: real)
    requires n > 0.0 && n * a >= 0.0
    ensures a >= 0.0
  {
  }
}
