/**
 * Rasters as in-memory values, and the no-data-aware mean that both
 * `calculate_raster_mean` and the per-cell reduction of
 * `aggregate_rasters_by_type` compute. A NaN result is `None`.
 */
module Raster {
  import opened Wrappers

  /** The part of a rasterio metadata dictionary the pipeline touches;
      `crs` and `transform` are carried along unchanged. */
  datatype Meta = Meta(
    driver: string,
    dtype: string,
    nodata: real,
    width: nat,
    height: nat,
    count: nat,
    crs: string,
    transform: seq<real>)

  /** Band 1 of a raster file: `height` rows of `width` samples. */
  datatype Raster = Raster(meta: Meta, band: seq<seq<real>>)

  /** What `src.read(1)` always delivers: a grid of the declared size, which
      has at least one row and one column. */
  predicate WellFormed(r: Raster)
  {
    && r.meta.height >= 1 && r.meta.width >= 1
    && |r.band| == r.meta.height
    && forall i :: 0 <= i < |r.band| ==> |r.band[i]| == r.meta.width
  }

  /** The samples that are not the sentinel, in their original order:
      `array[array != nodata]`. */
  function Valid(s: seq<real>, nodata: real): (v: seq<real>)
    ensures |v| <= |s|
    ensures forall x :: x in v <==> x in s && x != nodata
    ensures multiset(v) == multiset(s)[nodata := 0]
  {
    if s == [] then []
    else
      assert s == [s[0]] + s[1..];
      if s[0] == nodata then Valid(s[1..], nodata)
      else [s[0]] + Valid(s[1..], nodata)
  }

  function Sum(s: seq<real>): real
  {
    if s == [] then 0.0 else s[0] + Sum(s[1..])
  }

  /** `.mean()` of the non-sentinel samples, `None` (NaN) when there is none. */
  function Mean(s: seq<real>, nodata: real): Option<real>
  {
    var v := Valid(s, nodata);
    if |v| == 0 then None else Some(Sum(v) / |v| as real)
  }

  /** The grid in row-major order, as numpy's boolean indexing reads it. */
  function Flatten(g: seq<seq<real>>): seq<real>
  {
    if g == [] then [] else g[0] + Flatten(g[1..])
  }

  /** `calculate_raster_mean`: the mean of band 1 without its own sentinel. */
  function RasterMean(r: Raster): Option<real>
  {
    Mean(Flatten(r.band), r.meta.nodata)
  }

  lemma {:induction false} ValidAppend(a: seq<real>, b: seq<real>, nodata: real)
    ensures Valid(a + b, nodata) == Valid(a, nodata) + Valid(b, nodata)
  {
    if a == [] {
      assert a + b == b;
    } else {
      assert (a + b)[0] == a[0];
      assert (a + b)[1..] == a[1..] + b;
      ValidAppend(a[1..], b, nodata);
    }
  }

  /** Inserting a sentinel sample anywhere leaves the mean unchanged. */
  lemma MeanIgnoresSentinel(a: seq<real>, b: seq<real>, nodata: real)
    ensures Mean(a + [nodata] + b, nodata) == Mean(a + b, nodata)
  {
    ValidAppend(a + [nodata], b, nodata);
    ValidAppend(a, [nodata], nodata);
    ValidAppend(a, b, nodata);
    assert [nodata][1..] == [];
    assert Valid([nodata], nodata) == [];
    assert Valid(a + [nodata], nodata) == Valid(a, nodata);
  }

  /** The mean is missing exactly when every sample is the sentinel; it is
      never 0 for lack of samples. */
  lemma MeanMissingIffAllSentinel(s: seq<real>, nodata: real)
    ensures Mean(s, nodata).None? <==> forall i :: 0 <= i < |s| ==> s[i] == nodata
  {
    var v := Valid(s, nodata);
    if |v| != 0 {
      assert v[0] in v;
    } else {
      forall i | 0 <= i < |s| ensures s[i] == nodata {
        assert s[i] in s;
      }
    }
  }

  lemma {:induction false} SumBounds(v: seq<real>, lo: real, hi: real)
    requires forall i :: 0 <= i < |v| ==> lo <= v[i] <= hi
    ensures |v| as real * lo <= Sum(v) <= |v| as real * hi
  {
    if v != [] {
      SumBounds(v[1..], lo, hi);
    }
  }

  /** A present mean lies between any lower and upper bound of the valid
      samples. */
  lemma MeanBounds(s: seq<real>, nodata: real, lo: real, hi: real)
    requires forall i :: 0 <= i < |s| && s[i] != nodata ==> lo <= s[i] <= hi
    ensures Mean(s, nodata).Some? ==> lo <= Mean(s, nodata).value <= hi
  {
    var v := Valid(s, nodata);
    ValidBounds(s, nodata, lo, hi);
    if |v| > 0 {
      AverageBounds(v, lo, hi);
    }
  }

  /** Bounds on the valid samples carry over to the masked sequence. */
  lemma ValidBounds(s: seq<real>, nodata: real, lo: real, hi: real)
    requires forall i :: 0 <= i < |s| && s[i] != nodata ==> lo <= s[i] <= hi
    ensures forall i :: 0 <= i < |Valid(s, nodata)| ==> lo <= Valid(s, nodata)[i] <= hi
  {
    var v := Valid(s, nodata);
    forall i | 0 <= i < |v| ensures lo <= v[i] <= hi {
      assert v[i] in v;
      var j :| 0 <= j < |s| && s[j] == v[i];
    }
  }

  /** The average of a non-empty sequence lies within bounds of its elements. */
  lemma AverageBounds(v: seq<real>, lo: real, hi: real)
    requires |v| > 0
    requires forall i :: 0 <= i < |v| ==> lo <= v[i] <= hi
    ensures lo <= Sum(v) / |v| as real <= hi
  {
    SumBounds(v, lo, hi);
    DivBounds(Sum(v), |v| as real, lo, hi);
  }

  lemma DivBounds(sum: real, n: real, lo: real, hi: real)
    requires n > 0.0 && n * lo <= sum <= n * hi
    ensures lo <= sum / n <= hi
  {
  }

  /** If every valid sample equals `c`, the mean is `c`. */
  lemma MeanOfConstant(s: seq<real>, nodata: real, c: real)
    requires exists i :: 0 <= i < |s| && s[i] == c
    requires c != nodata
    requires forall i :: 0 <= i < |s| && s[i] != nodata ==> s[i] == c
    ensures Mean(s, nodata) == Some(c)
  {
    var i :| 0 <= i < |s| && s[i] == c;
    MeanMissingIffAllSentinel(s, nodata);
    MeanBounds(s, nodata, c, c);
  }

  /** One sample: its own value, or missing when it is the sentinel. */
  lemma MeanSingle(x: real, nodata: real)
    ensures Mean([x], nodata) == if x == nodata then None else Some(x)
  {
    assert [x][1..] == [];
    assert Valid([x], nodata) == if x == nodata then [] else [x];
    assert Sum([x]) == x;
  }

  lemma {:induction false} FlattenMembership(g: seq<seq<real>>, x: real)
    ensures x in Flatten(g) <==> exists i, j :: 0 <= i < |g| && 0 <= j < |g[i]| && g[i][j] == x
  {
    if g != [] {
      FlattenMembership(g[1..], x);
      if x in Flatten(g[1..]) {
        var i, j :| 0 <= i < |g[1..]| && 0 <= j < |g[1..][i]| && g[1..][i][j] == x;
        assert g[i + 1][j] == x;
      }
      if exists i, j :: 0 <= i < |g| && 0 <= j < |g[i]| && g[i][j] == x {
        var i, j :| 0 <= i < |g| && 0 <= j < |g[i]| && g[i][j] == x;
        if i == 0 { assert g[0][j] in g[0]; } else { assert g[1..][i - 1][j] == x; }
      }
    }
  }

  /** The raster's mean is missing exactly when every cell holds its sentinel. */
  lemma RasterMeanMissing(r: Raster)
    ensures RasterMean(r).None? <==>
      forall i, j :: 0 <= i < |r.band| && 0 <= j < |r.band[i]| ==> r.band[i][j] == r.meta.nodata
  {
    var f := Flatten(r.band);
    MeanMissingIffAllSentinel(f, r.meta.nodata);
    if RasterMean(r).None? {
      forall i, j | 0 <= i < |r.band| && 0 <= j < |r.band[i]| ensures r.band[i][j] == r.meta.nodata {
        FlattenMembership(r.band, r.band[i][j]);
        var k :| 0 <= k < |f| && f[k] == r.band[i][j];
      }
    } else {
      var k :| 0 <= k < |f| && f[k] != r.meta.nodata;
      assert f[k] in f;
      FlattenMembership(r.band, f[k]);
    }
  }
}
