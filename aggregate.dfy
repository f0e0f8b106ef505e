/**
 * `aggregate_rasters_by_type`: stack the bands of a group of rasters and
 * take, cell by cell, the mean of the entries that are not the sentinel.
 */
module Aggregate {
  import opened Wrappers
  import opened Raster

  /** Why `np.stack` raises: no arrays at all, or arrays of different shapes. */
  datatype AggError = EmptyGroup | ShapeMismatch

  /** The written aggregate: metadata and a grid whose missing cells are NaN. */
  datatype MeanRaster = MeanRaster(meta: Meta, band: seq<seq<Option<real>>>)

  /** Every band in the stack has `h` rows of `w` samples. */
  predicate Shaped(stack: seq<seq<seq<real>>>, h: nat, w: nat)
  {
    forall k :: 0 <= k < |stack| ==>
      |stack[k]| == h && forall i :: 0 <= i < h ==> |stack[k][i]| == w
  }

  /** `(rows, columns)` of a band; for the non-empty grids a raster has,
      this is numpy's `.shape`. */
  function Shape(band: seq<seq<real>>): (nat, nat)
  {
    (|band|, if band == [] then 0 else |band[0]|)
  }

  /** `np.stack`'s condition: every band has the shape of the first. */
  predicate SameShape(stack: seq<seq<seq<real>>>)
  {
    forall k :: 0 <= k < |stack| ==> Shape(stack[k]) == Shape(stack[0])
  }

  /** The entries of the stack at cell `(i, j)`, one per file, in file order. */
  function Column(stack: seq<seq<seq<real>>>, i: nat, j: nat): (c: seq<real>)
    requires forall k :: 0 <= k < |stack| ==> i < |stack[k]| && j < |stack[k][i]|
    ensures |c| == |stack|
  {
    seq(|stack|, k requires 0 <= k < |stack| => stack[k][i][j])
  }

  /** `np.nanmean(np.where(stack != nodata, stack, nan), axis=0)`. */
  function CellMeans(stack: seq<seq<seq<real>>>, h: nat, w: nat, nodata: real): (g: seq<seq<Option<real>>>)
    requires Shaped(stack, h, w)
    ensures |g| == h && forall i :: 0 <= i < h ==> |g[i]| == w
  {
    seq(h, i requires 0 <= i < h =>
      seq(w, j requires 0 <= j < w => Mean(Column(stack, i, j), nodata)))
  }

  /** The metadata written with the aggregate: the first file's, with
      `dtype` float32 and one band. */
  function OutputMeta(m: Meta): Meta
  {
    m.(dtype := "float32", count := 1)
  }

  function Bands(files: seq<Raster>): (s: seq<seq<seq<real>>>)
    ensures |s| == |files| && forall k :: 0 <= k < |files| ==> s[k] == files[k].band
  {
    seq(|files|, k requires 0 <= k < |files| => files[k].band)
  }

  lemma BandsShaped(files: seq<Raster>)
    requires forall k :: 0 <= k < |files| ==> WellFormed(files[k])
    requires |files| > 0 && SameShape(Bands(files))
    ensures Shaped(Bands(files), files[0].meta.height, files[0].meta.width)
  {
    var stack := Bands(files);
    forall k | 0 <= k < |stack|
      ensures |stack[k]| == files[0].meta.height
      ensures forall i :: 0 <= i < files[0].meta.height ==> |stack[k][i]| == files[0].meta.width
    {
      assert WellFormed(files[k]) && stack[k] == files[k].band;
      assert WellFormed(files[0]) && stack[0] == files[0].band;
      assert Shape(stack[k]) == Shape(stack[0]);
    }
  }

  /** What `aggregate_rasters_by_type` writes for a group, or why it raises.
      Every file is masked with the FIRST file's sentinel. */
  function AggregateOf(files: seq<Raster>): Result<MeanRaster, AggError>
    requires forall k :: 0 <= k < |files| ==> WellFormed(files[k])
  {
    if |files| == 0 then Failure(EmptyGroup)
    else if !SameShape(Bands(files)) then Failure(ShapeMismatch)
    else
      var m := files[0].meta;
      BandsShaped(files);
      Success(MeanRaster(OutputMeta(m), CellMeans(Bands(files), m.height, m.width, m.nodata)))
  }

  /** Opening every path, in order. */
  function ReadAll(disk: map<string, Raster>, paths: seq<string>): (files: seq<Raster>)
    requires forall k :: 0 <= k < |paths| ==> paths[k] in disk
    ensures |files| == |paths| && forall k :: 0 <= k < |paths| ==> files[k] == disk[paths[k]]
  {
    seq(|paths|, k requires 0 <= k < |paths| => disk[paths[k]])
  }

  /** The source's loop: open each path, append its band, keep the first
      file's metadata; then stack and reduce. `disk` maps each path to the
      raster that opening it gives. */
  method AggregateRasters(disk: map<string, Raster>, paths: seq<string>) returns (r: Result<MeanRaster, AggError>)
    requires forall k :: 0 <= k < |paths| ==> paths[k] in disk && WellFormed(disk[paths[k]])
    ensures r == AggregateOf(ReadAll(disk, paths))
  {
    var rasters: seq<seq<seq<real>>> := [];
    var meta: Option<Meta> := None;
    for i := 0 to |paths|
      invariant |rasters| == i
      invariant forall k :: 0 <= k < i ==> rasters[k] == disk[paths[k]].band
      invariant meta == if i == 0 then None else Some(disk[paths[0]].meta)
    {
      var src := disk[paths[i]];
      rasters := rasters + [src.band];
      if meta.None? {
        meta := Some(src.meta);
      }
    }
    ghost var files := ReadAll(disk, paths);
    assert rasters == Bands(files);
    if |rasters| == 0 {
      return Failure(EmptyGroup);
    }
    if !SameShape(rasters) {
      return Failure(ShapeMismatch);
    }
    var m := meta.value;
    var mean := CellMeans(rasters, m.height, m.width, m.nodata);
    r := Success(MeanRaster(OutputMeta(m), mean));
  }

  /** The aggregate exists exactly for a non-empty group of equal shapes; it
      has the first file's shape and metadata except dtype float32 and count 1,
      and its cell is missing exactly when every file holds the first file's
      sentinel there. */
  lemma AggregateShape(files: seq<Raster>)
    requires forall k :: 0 <= k < |files| ==> WellFormed(files[k])
    ensures AggregateOf(files).Failure? <==> |files| == 0 || !SameShape(Bands(files))
    ensures |files| == 0 ==> AggregateOf(files) == Failure(EmptyGroup)
    ensures AggregateOf(files).Success? ==>
      var out := AggregateOf(files).value;
      var m := files[0].meta;
      && out.meta == m.(dtype := "float32", count := 1)
      && |out.band| == m.height
      && (forall i :: 0 <= i < m.height ==> |out.band[i]| == m.width)
      && forall i, j :: 0 <= i < m.height && 0 <= j < m.width ==>
           (out.band[i][j].None? <==> forall k :: 0 <= k < |files| ==> files[k].band[i][j] == m.nodata)
  {
    if AggregateOf(files).Success? {
      var out := AggregateOf(files).value;
      var m := files[0].meta;
      var stack := Bands(files);
      forall i, j | 0 <= i < m.height && 0 <= j < m.width
        ensures out.band[i][j].None? <==> forall k :: 0 <= k < |files| ==> files[k].band[i][j] == m.nodata
      {
        var c := Column(stack, i, j);
        MeanMissingIffAllSentinel(c, m.nodata);
        assert forall k :: 0 <= k < |files| ==> c[k] == files[k].band[i][j];
      }
    }
  }

  /** A present cell lies between any bounds of the valid entries at that cell. */
  lemma AggregateCellBounds(files: seq<Raster>, i: nat, j: nat, lo: real, hi: real)
    requires forall k :: 0 <= k < |files| ==> WellFormed(files[k])
    requires AggregateOf(files).Success?
    requires i < files[0].meta.height && j < files[0].meta.width
    requires forall k :: 0 <= k < |files| && files[k].band[i][j] != files[0].meta.nodata ==>
      lo <= files[k].band[i][j] <= hi
    ensures var cell := AggregateOf(files).value.band[i][j];
      cell.Some? ==> lo <= cell.value <= hi
  {
    var c := Column(Bands(files), i, j);
    MeanBounds(c, files[0].meta.nodata, lo, hi);
  }

  /** A group of one file gives back that file's values, with its sentinel
      cells missing. */
  lemma AggregateSingle(f: Raster)
    requires WellFormed(f)
    ensures AggregateOf([f]).Success?
    ensures var out := AggregateOf([f]).value;
      |out.band| == |f.band| &&
      forall i, j :: 0 <= i < |f.band| && 0 <= j < |f.band[i]| ==>
        out.band[i][j] == if f.band[i][j] == f.meta.nodata then None else Some(f.band[i][j])
  {
    var out := AggregateOf([f]).value;
    forall i, j | 0 <= i < |f.band| && 0 <= j < |f.band[i]|
      ensures out.band[i][j] == if f.band[i][j] == f.meta.nodata then None else Some(f.band[i][j])
    {
      var c := Column(Bands([f]), i, j);
      assert c == [f.band[i][j]];
      MeanSingle(f.band[i][j], f.meta.nodata);
    }
  }

  /** Appending a raster whose every cell is the group's sentinel changes no
      cell of the aggregate. */
  lemma AggregateIgnoresBlank(files: seq<Raster>, blank: Raster)
    requires forall k :: 0 <= k < |files| ==> WellFormed(files[k])
    requires WellFormed(blank)
    requires AggregateOf(files).Success?
    requires blank.meta.height == files[0].meta.height && blank.meta.width == files[0].meta.width
    requires forall i, j :: 0 <= i < |blank.band| && 0 <= j < |blank.band[i]| ==>
      blank.band[i][j] == files[0].meta.nodata
    ensures AggregateOf(files + [blank]).Success?
    ensures AggregateOf(files + [blank]).value.band == AggregateOf(files).value.band
  {
    var more := files + [blank];
    assert forall k :: 0 <= k < |more| ==> WellFormed(more[k]);
    assert more[0] == files[0];
    var m := files[0].meta;
    var a := AggregateOf(files).value.band;
    var b := AggregateOf(more).value.band;
    forall i, j | 0 <= i < m.height && 0 <= j < m.width ensures b[i][j] == a[i][j] {
      var c := Column(Bands(files), i, j);
      var d := Column(Bands(more), i, j);
      assert d == c + [m.nodata] + [];
      MeanIgnoresSentinel(c, [], m.nodata);
      assert c + [] == c;
    }
    assert |a| == |b| == m.height;
    forall i | 0 <= i < m.height ensures b[i] == a[i] {
      assert |b[i]| == |a[i]| == m.width;
    }
  }
}
