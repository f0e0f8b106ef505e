/**
 * `parse_filename`: which climate variable a raster file holds and which
 * month label it carries, read off its file name.
 */
module Classifier {
  import opened Wrappers
  import opened Text

  /** The variable kinds the pipeline recognises; "not recognised" is `None`. */
  datatype DataType = Precipitation | MeanTemperature | MinTemperature | MaxTemperature

  /** The label stored in the results table and used to name the aggregate. */
  function Label(t: DataType): string
  {
    match t
    case Precipitation => "Precipitation"
    case MeanTemperature => "Mean Temperature"
    case MinTemperature => "Min Temperature"
    case MaxTemperature => "Max Temperature"
  }

  /** The substring that marks a part of the name as holding `t`. */
  function Marker(t: DataType): string
  {
    match t
    case Precipitation => "prec"
    case MeanTemperature => "tavg"
    case MinTemperature => "tmin"
    case MaxTemperature => "tmax"
  }

  /** Position of `t` in the order the markers are tested. */
  function Rank(t: DataType): nat
  {
    match t
    case Precipitation => 0
    case MeanTemperature => 1
    case MinTemperature => 2
    case MaxTemperature => 3
  }

  /** The if/elif chain applied to one lower-cased part of the name. */
  function PartType(part: string): Option<DataType>
  {
    if Contains(part, "prec") then Some(Precipitation)
    else if Contains(part, "tavg") then Some(MeanTemperature)
    else if Contains(part, "tmin") then Some(MinTemperature)
    else if Contains(part, "tmax") then Some(MaxTemperature)
    else None
  }

  /** The type recorded by the last part, scanning left to right, that
      matched any marker. */
  function LastMarkedType(parts: seq<string>): Option<DataType>
  {
    if parts == [] then None
    else
      var last := PartType(parts[|parts| - 1]);
      if last.Some? then last else LastMarkedType(parts[..|parts| - 1])
  }

  /** The underscore-separated parts of the lower-cased name. */
  function Parts(filename: string): seq<string>
  {
    Split(Lower(filename), '_')
  }

  /** The data type `parse_filename` returns. */
  function TypeOf(filename: string): Option<DataType>
  {
    LastMarkedType(Parts(filename))
  }

  /** The month `parse_filename` returns: `filename[-6:-4]` of the name as
      given, not lower-cased. */
  function MonthOf(filename: string): string
  {
    Slice(filename, -6, -4)
  }

  /** `parse_filename`: walks the parts, overwriting the type whenever a part
      matches a marker and setting the month on every iteration. */
  method ParseFilename(filename: string) returns (dataType: Option<DataType>, month: Option<string>)
    ensures dataType == TypeOf(filename)
    ensures month == Some(MonthOf(filename))
  {
    var parts := Split(Lower(filename), '_');
    dataType := None;
    month := None;
    for i := 0 to |parts|
      invariant dataType == LastMarkedType(parts[..i])
      invariant month == if i == 0 then None else Some(MonthOf(filename))
    {
      var part := parts[i];
      if Contains(part, "prec") {
        dataType := Some(Precipitation);
      } else if Contains(part, "tavg") {
        dataType := Some(MeanTemperature);
      } else if Contains(part, "tmin") {
        dataType := Some(MinTemperature);
      } else if Contains(part, "tmax") {
        dataType := Some(MaxTemperature);
      }
      month := Some(Slice(filename, -6, -4));
      assert parts[..i + 1][..i] == parts[..i];
    }
    assert parts[..|parts|] == parts;
  }

  /** Within one part the first marker in test order wins: a part is
      classified as `t` exactly when it contains `t`'s marker and no marker
      tested before it. */
  lemma PartTypeFirstMarker(part: string, t: DataType)
    ensures PartType(part) == Some(t) <==>
      Contains(part, Marker(t)) && forall u: DataType :: Rank(u) < Rank(t) ==> !Contains(part, Marker(u))
  {
    var earlier := forall u: DataType :: Rank(u) < Rank(t) ==> !Contains(part, Marker(u));
    match t
    case Precipitation =>
    case MeanTemperature =>
      assert earlier <==> !Contains(part, "prec") by {
        if !earlier { var u: DataType :| Rank(u) < 1 && Contains(part, Marker(u)); }
      }
    case MinTemperature =>
      assert earlier <==> !Contains(part, "prec") && !Contains(part, "tavg") by {
        if !earlier { var u: DataType :| Rank(u) < 2 && Contains(part, Marker(u)); }
        if earlier { assert Rank(MeanTemperature) < 2 && Rank(Precipitation) < 2; }
      }
    case MaxTemperature =>
      assert earlier <==> !Contains(part, "prec") && !Contains(part, "tavg") && !Contains(part, "tmin") by {
        if !earlier { var u: DataType :| Rank(u) < 3 && Contains(part, Marker(u)); }
        if earlier { assert Rank(MinTemperature) < 3 && Rank(MeanTemperature) < 3 && Rank(Precipitation) < 3; }
      }
  }

  /** A part that contains no marker leaves the type alone. */
  lemma PartTypeNone(part: string)
    ensures PartType(part).None? <==> forall u: DataType :: !Contains(part, Marker(u))
  {
    if PartType(part).None? {
      forall u: DataType ensures !Contains(part, Marker(u)) {
        match u
        case Precipitation =>
        case MeanTemperature =>
        case MinTemperature =>
        case MaxTemperature =>
      }
    } else {
      var t := PartType(part).value;
      assert Contains(part, Marker(t));
    }
  }

  /** Every marker has a 'p' first or an 'a' or 'm' second, so a part free
      of those three letters is unmarked. */
  lemma UnmarkedWithoutLetters(part: string)
    requires forall i :: 0 <= i < |part| ==> part[i] != 'p' && part[i] != 'a' && part[i] != 'm'
    ensures PartType(part) == None
  {
    forall u: DataType ensures !Contains(part, Marker(u)) {
      var m := Marker(u);
      assert |m| == 4 && (m[0] == 'p' || m[1] == 'a' || m[1] == 'm');
      forall i ensures !OccursAt(part, m, i) {
        if 0 <= i && i + 4 <= |part| {
          assert part[i..i + 4][0] == part[i] && part[i..i + 4][1] == part[i + 1];
        }
      }
    }
    PartTypeNone(part);
  }

  /** Across parts the last marked part decides: the type is missing exactly
      when no part is marked, and otherwise it is the type of a marked part
      after which no part is marked. */
  lemma {:induction false} LastMarkedTypeSpec(parts: seq<string>)
    ensures LastMarkedType(parts).None? <==> forall k :: 0 <= k < |parts| ==> PartType(parts[k]).None?
    ensures LastMarkedType(parts).Some? ==>
      exists k :: 0 <= k < |parts| && PartType(parts[k]) == LastMarkedType(parts) &&
        forall j :: k < j < |parts| ==> PartType(parts[j]).None?
  {
    if parts != [] {
      var n := |parts| - 1;
      var init := parts[..n];
      LastMarkedTypeSpec(init);
      if PartType(parts[n]).None? {
        assert forall k :: 0 <= k < n ==> parts[k] == init[k];
        if LastMarkedType(parts).Some? {
          var k :| 0 <= k < n && PartType(init[k]) == LastMarkedType(init) &&
            forall j :: k < j < n ==> PartType(init[j]).None?;
          assert PartType(parts[k]) == LastMarkedType(parts);
        }
      }
    }
  }

  /** A name none of whose parts contains `prec`, `tavg`, `tmin` or `tmax`
      (after lower-casing) has no type. */
  lemma UnmarkedNameHasNoType(filename: string)
    requires forall k, u: DataType :: 0 <= k < |Parts(filename)| ==> !Contains(Parts(filename)[k], Marker(u))
    ensures TypeOf(filename) == None
  {
    var parts := Parts(filename);
    forall k | 0 <= k < |parts| ensures PartType(parts[k]).None? {
      PartTypeNone(parts[k]);
    }
    LastMarkedTypeSpec(parts);
  }

  /** Appending a part that carries a marker makes that part decide the type,
      whatever came before. */
  lemma LaterPartWins(parts: seq<string>, part: string)
    requires PartType(part).Some?
    ensures LastMarkedType(parts + [part]) == PartType(part)
  {
  }

  /** The month is at most two characters long; for names of six or more
      characters it is the two characters just before the last four, for a
      five-character name the first character, and otherwise empty. */
  lemma MonthOfShape(filename: string)
    ensures |MonthOf(filename)| <= 2
    ensures |filename| >= 6 ==> MonthOf(filename) == filename[|filename| - 6..|filename| - 4]
    ensures |filename| == 5 ==> MonthOf(filename) == filename[..1]
    ensures |filename| <= 4 ==> MonthOf(filename) == ""
  {
  }

  /** For `stem + ".tif"` the month is the end of the stem, so `".tif"` alone
      has an empty month and a one-character stem gives a one-character month. */
  lemma MonthOfTif(stem: string)
    ensures |stem| >= 2 ==> MonthOf(stem + ".tif") == stem[|stem| - 2..]
    ensures |stem| < 2 ==> MonthOf(stem + ".tif") == stem
  {
    var n := stem + ".tif";
    MonthOfShape(n);
    if |stem| >= 2 {
      assert n[|n| - 6..|n| - 4] == stem[|stem| - 2..];
    } else if |stem| == 1 {
      assert n[..1] == stem;
    }
  }
}
