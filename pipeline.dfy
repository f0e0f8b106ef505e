/**
 * The `__main__` block of the aggregation script: scan a directory listing,
 * record each accepted file's mean under its (month, type) pair, group the
 * file paths by type, aggregate each group into a raster named after its
 * type, and lay the means out as a table sorted by month.
 *
 * The directory listing is the sequence `listing` of entry names, in the
 * order `os.listdir` returned them; the files on disk are the map `disk`
 * from path to the raster that reading it gives.
 */
module Pipeline {
  import opened Wrappers
  import opened Text
  import opened Raster
  import opened Classifier
  import opened Aggregate

  /** The (month, type) pair under which a file's mean is recorded. */
  datatype Key = Key(month: string, dataType: DataType)

  /** The `results` dictionary: month label, then type label, then mean. */
  type Results = map<string, map<DataType, Option<real>>>

  /** The scan's filter and key: a `.tif` name with a recognised type and a
      non-empty month is recorded under that pair; any other name is
      skipped. */
  function KeyOf(name: string): Option<Key>
  {
    if EndsWith(name, ".tif") && TypeOf(name).Some? && MonthOf(name) != ""
    then Some(Key(MonthOf(name), TypeOf(name).value))
    else None
  }

  predicate Accepted(name: string)
  {
    KeyOf(name).Some?
  }

  /** An accepted name whose type is `t`. */
  predicate HasType(name: string, t: DataType)
  {
    KeyOf(name).Some? && KeyOf(name).value.dataType == t
  }

  /** Every file the scan opens is on disk and is a well-formed raster. */
  predicate Readable(folder: string, listing: seq<string>, disk: map<string, Raster>)
  {
    forall k :: 0 <= k < |listing| && Accepted(listing[k]) ==>
      JoinPath(folder, listing[k]) in disk && WellFormed(disk[JoinPath(folder, listing[k])])
  }

  /** The key of every entry, in listing order. */
  function Keys(listing: seq<string>): (keys: seq<Option<Key>>)
    ensures |keys| == |listing| && forall k :: 0 <= k < |listing| ==> keys[k] == KeyOf(listing[k])
  {
    seq(|listing|, k requires 0 <= k < |listing| => KeyOf(listing[k]))
  }

  /** The mean `calculate_raster_mean` computes for every accepted entry
      (`None` for skipped entries, which are never opened). */
  function Means(folder: string, listing: seq<string>, disk: map<string, Raster>): (means: seq<Option<real>>)
    requires Readable(folder, listing, disk)
    ensures |means| == |listing|
    ensures forall k :: 0 <= k < |listing| && Accepted(listing[k]) ==>
      means[k] == RasterMean(disk[JoinPath(folder, listing[k])])
  {
    seq(|listing|, k requires 0 <= k < |listing| =>
      if Accepted(listing[k]) then RasterMean(disk[JoinPath(folder, listing[k])]) else None)
  }

  /** Among the first `n` keys, key number `k` is the last one equal to `key`. */
  predicate LastWithKey(keys: seq<Option<Key>>, n: int, k: int, key: Key)
    requires n <= |keys|
  {
    0 <= k < n && keys[k] == Some(key) &&
    forall j :: k < j < n ==> keys[j] != Some(key)
  }

  /** Row `m` of the results exists only with at least one entry. */
  ghost predicate RowsNonEmpty(results: Results)
  {
    forall m :: m in results ==> results[m] != map[]
  }

  /** `(m, t)` is recorded exactly when one of the first `n` keys is `(m, t)`. */
  ghost predicate DomainUpTo(keys: seq<Option<Key>>, n: nat, results: Results)
    requires n <= |keys|
  {
    forall m, t :: m in results && t in results[m] <==>
      exists k :: 0 <= k < n && keys[k] == Some(Key(m, t))
  }

  /** Each recorded `(m, t)` holds the mean of the last of the first `n`
      entries with that key. */
  ghost predicate ValuesUpTo(keys: seq<Option<Key>>, means: seq<Option<real>>, n: nat, results: Results)
    requires n <= |keys| == |means|
  {
    forall m, t :: m in results && t in results[m] ==>
      exists k :: LastWithKey(keys, n, k, Key(m, t)) && results[m][t] == means[k]
  }

  /** What the `results` dictionary holds after the scan: a month row exists
      only with at least one entry; `(m, t)` is present exactly when some
      accepted file has that pair; its value is the mean of the last such
      file in listing order. */
  ghost predicate ResultsMatch(folder: string, listing: seq<string>, disk: map<string, Raster>, results: Results)
    requires Readable(folder, listing, disk)
  {
    var keys := Keys(listing);
    && RowsNonEmpty(results)
    && DomainUpTo(keys, |keys|, results)
    && ValuesUpTo(keys, Means(folder, listing, disk), |keys|, results)
  }

  /** `results.setdefault(m, {})[t] = v`. */
  function Record(results: Results, m: string, t: DataType, v: Option<real>): (r: Results)
    ensures r.Keys == results.Keys + {m}
    ensures forall m' :: m' in results && m' != m ==> r[m'] == results[m']
    ensures r[m].Keys == (if m in results then results[m].Keys else {}) + {t}
    ensures r[m][t] == v
    ensures forall t' :: m in results && t' in results[m] && t' != t ==> r[m][t'] == results[m][t']
  {
    var row := if m in results then results[m] else map[];
    results[m := row[t := v]]
  }

  /** The results dictionary after recording, in order, every entry that has
      a key. */
  function ResultsOf(keys: seq<Option<Key>>, means: seq<Option<real>>): Results
    requires |keys| == |means|
  {
    if keys == [] then map[]
    else
      var n := |keys| - 1;
      var before := ResultsOf(keys[..n], means[..n]);
      if keys[n].Some? then Record(before, keys[n].value.month, keys[n].value.dataType, means[n]) else before
  }

  /** The recorded results are exactly what `ResultsMatch` describes: rows
      are non-empty, a pair is present exactly when some entry has it, and
      it holds the mean of the last such entry. */
  lemma {:induction false} ResultsOfUpTo(keys: seq<Option<Key>>, means: seq<Option<real>>, n: nat)
    requires n <= |keys| == |means|
    ensures RowsNonEmpty(ResultsOf(keys[..n], means[..n]))
    ensures DomainUpTo(keys, n, ResultsOf(keys[..n], means[..n]))
    ensures ValuesUpTo(keys, means, n, ResultsOf(keys[..n], means[..n]))
  {
    if n > 0 {
      var i := n - 1;
      ResultsOfUpTo(keys, means, i);
      var before := ResultsOf(keys[..i], means[..i]);
      assert keys[..n][..i] == keys[..i] && means[..n][..i] == means[..i];
      assert keys[..n][i] == keys[i] && means[..n][i] == means[i];
      if keys[i].Some? {
        RecordKeepsDomain(keys, i, before, means[i]);
        RecordKeepsValues(keys, means, i, before);
      } else {
        SkipKeepsDomain(keys, i, before);
        SkipKeepsValues(keys, means, i, before);
      }
    }
  }

  /** The paths of the accepted files of type `t`, in listing order. */
  function PathsOfType(folder: string, listing: seq<string>, t: DataType): seq<string>
  {
    if listing == [] then []
    else
      var last := listing[|listing| - 1];
      PathsOfType(folder, listing[..|listing| - 1], t) +
        (if HasType(last, t) then [JoinPath(folder, last)] else [])
  }

  /** The group dictionary after appending, in order, the path of every
      accepted entry to the group of its type. */
  function GroupsOf(folder: string, listing: seq<string>): map<DataType, seq<string>>
  {
    if listing == [] then map[]
    else
      var n := |listing| - 1;
      var before := GroupsOf(folder, listing[..n]);
      var key := KeyOf(listing[n]);
      if key.None? then before
      else
        var t := key.value.dataType;
        before[t := (if t in before then before[t] else []) + [JoinPath(folder, listing[n])]]
  }

  /** The group dictionary holds, for each type that received a file, the
      paths of its files in listing order, and no other key. */
  lemma {:induction false} GroupsOfPaths(folder: string, listing: seq<string>)
    ensures forall t :: t in GroupsOf(folder, listing) <==> PathsOfType(folder, listing, t) != []
    ensures forall t :: t in GroupsOf(folder, listing) ==> GroupsOf(folder, listing)[t] == PathsOfType(folder, listing, t)
  {
    if listing != [] {
      GroupsOfPaths(folder, listing[..|listing| - 1]);
    }
  }

  /** One more entry: a skipped one leaves the groups alone, an accepted one
      is appended to the group of its type, which is created if missing. */
  lemma GroupsOfStep(folder: string, listing: seq<string>, i: nat)
    requires i < |listing|
    ensures KeyOf(listing[i]).None? ==> GroupsOf(folder, listing[..i + 1]) == GroupsOf(folder, listing[..i])
    ensures KeyOf(listing[i]).Some? ==>
      var before := GroupsOf(folder, listing[..i]);
      var t := KeyOf(listing[i]).value.dataType;
      GroupsOf(folder, listing[..i + 1]) ==
        before[t := (if t in before then before[t] else []) + [JoinPath(folder, listing[i])]]
    ensures KeyOf(listing[i]).Some? ==>
      var before := TypeOrder(listing[..i]);
      var t := KeyOf(listing[i]).value.dataType;
      TypeOrder(listing[..i + 1]) == if t in before then before else before + [t]
    ensures KeyOf(listing[i]).None? ==> TypeOrder(listing[..i + 1]) == TypeOrder(listing[..i])
  {
    assert listing[..i + 1][..i] == listing[..i];
  }

  /** The keys of the group dictionary are the types of the group order. */
  lemma {:induction false} GroupsOfKeys(folder: string, listing: seq<string>)
    ensures forall t :: t in GroupsOf(folder, listing) <==> t in TypeOrder(listing)
  {
    if listing != [] {
      GroupsOfKeys(folder, listing[..|listing| - 1]);
    }
  }

  /** The types in the order in which their first accepted file appears. */
  function TypeOrder(listing: seq<string>): seq<DataType>
  {
    if listing == [] then []
    else
      var last := listing[|listing| - 1];
      var before := TypeOrder(listing[..|listing| - 1]);
      if Accepted(last) && KeyOf(last).value.dataType !in before
      then before + [KeyOf(last).value.dataType]
      else before
  }

  /** The number of accepted files in the listing. */
  function CountAccepted(listing: seq<string>): nat
  {
    if listing == [] then 0
    else CountAccepted(listing[..|listing| - 1]) + (if Accepted(listing[|listing| - 1]) then 1 else 0)
  }

  /** The scan loop: parse each `.tif` name, skip it unless both type and
      month are truthy, overwrite `results[month][type]` with its mean and
      append its path to the group of its type. `order` is the insertion
      order of the group dictionary's keys. */
  method Scan(folder: string, listing: seq<string>, disk: map<string, Raster>)
    returns (results: Results, groups: map<DataType, seq<string>>, order: seq<DataType>)
    requires Readable(folder, listing, disk)
    ensures results == ResultsOf(Keys(listing), Means(folder, listing, disk))
    ensures groups == GroupsOf(folder, listing)
    ensures order == TypeOrder(listing)
    ensures ResultsMatch(folder, listing, disk, results)
    ensures forall t :: t in groups <==> PathsOfType(folder, listing, t) != []
    ensures forall t :: t in groups ==> groups[t] == PathsOfType(folder, listing, t)
  {
    ghost var keys := Keys(listing);
    ghost var means := Means(folder, listing, disk);
    results, groups, order := map[], map[], [];
    for i := 0 to |listing|
      invariant results == ResultsOf(keys[..i], means[..i])
      invariant groups == GroupsOf(folder, listing[..i])
      invariant order == TypeOrder(listing[..i])
    {
      var name := listing[i];
      assert keys[..i + 1][..i] == keys[..i] && means[..i + 1][..i] == means[..i];
      GroupsOfKeys(folder, listing[..i]);
      GroupsOfStep(folder, listing, i);
      if EndsWith(name, ".tif") {
        var path := JoinPath(folder, name);
        var dataType, month := ParseFilename(name);
        if dataType.Some? && month.Some? && month.value != "" {
          var mean := RasterMean(disk[path]);
          assert keys[i] == Some(Key(month.value, dataType.value)) && means[i] == mean;
          results := Record(results, month.value, dataType.value, mean);
          if dataType.value !in groups {
            groups := groups[dataType.value := []];
            order := order + [dataType.value];
          }
          groups := groups[dataType.value := groups[dataType.value] + [path]];
        } else {
          assert keys[i] == None;
        }
      } else {
        assert keys[i] == None;
      }
    }
    assert keys[..|listing|] == keys && means[..|listing|] == means && listing[..|listing|] == listing;
    ResultsOfUpTo(keys, means, |listing|);
    GroupsOfPaths(folder, listing);
  }

  /** A skipped entry changes no part of the results invariant. */
  lemma SkipKeepsDomain(keys: seq<Option<Key>>, i: nat, results: Results)
    requires i < |keys| && keys[i] == None
    requires DomainUpTo(keys, i, results)
    ensures DomainUpTo(keys, i + 1, results)
  {
    forall m, t | m !in results || t !in results[m]
      ensures forall k :: 0 <= k < i + 1 ==> keys[k] != Some(Key(m, t))
    {
    }
  }

  lemma SkipKeepsValues(keys: seq<Option<Key>>, means: seq<Option<real>>, i: nat, results: Results)
    requires i < |keys| == |means| && keys[i] == None
    requires ValuesUpTo(keys, means, i, results)
    ensures ValuesUpTo(keys, means, i + 1, results)
  {
    forall m, t | m in results && t in results[m]
      ensures exists k :: LastWithKey(keys, i + 1, k, Key(m, t)) && results[m][t] == means[k]
    {
      var k :| LastWithKey(keys, i, k, Key(m, t)) && results[m][t] == means[k];
      assert LastWithKey(keys, i + 1, k, Key(m, t));
    }
  }

  /** Recording entry `i` under its key extends the domain by that key. */
  lemma RecordKeepsDomain(keys: seq<Option<Key>>, i: nat, results: Results, v: Option<real>)
    requires i < |keys| && keys[i].Some?
    requires DomainUpTo(keys, i, results)
    ensures DomainUpTo(keys, i + 1, Record(results, keys[i].value.month, keys[i].value.dataType, v))
  {
    var key := keys[i].value;
    var r := Record(results, key.month, key.dataType, v);
    forall m, t ensures m in r && t in r[m] <==> exists k :: 0 <= k < i + 1 && keys[k] == Some(Key(m, t)) {
      if Key(m, t) == key {
        assert keys[i] == Some(Key(m, t));
      } else {
        assert m in r && t in r[m] <==> m in results && t in results[m];
        if exists k :: 0 <= k < i + 1 && keys[k] == Some(Key(m, t)) {
          var k :| 0 <= k < i + 1 && keys[k] == Some(Key(m, t));
          assert k < i;
        }
      }
    }
  }

  /** Recording entry `i` makes it the last entry for its key and keeps the
      other keys' last entries. */
  lemma RecordKeepsValues(keys: seq<Option<Key>>, means: seq<Option<real>>, i: nat, results: Results)
    requires i < |keys| == |means| && keys[i].Some?
    requires ValuesUpTo(keys, means, i, results)
    ensures ValuesUpTo(keys, means, i + 1, Record(results, keys[i].value.month, keys[i].value.dataType, means[i]))
  {
    var key := keys[i].value;
    var r := Record(results, key.month, key.dataType, means[i]);
    forall m, t | m in r && t in r[m]
      ensures exists k :: LastWithKey(keys, i + 1, k, Key(m, t)) && r[m][t] == means[k]
    {
      if Key(m, t) == key {
        assert LastWithKey(keys, i + 1, i, Key(m, t));
      } else {
        assert m in results && t in results[m] && r[m][t] == results[m][t];
        var k :| LastWithKey(keys, i, k, Key(m, t)) && results[m][t] == means[k];
        assert LastWithKey(keys, i + 1, k, Key(m, t));
      }
    }
  }

  /** Every accepted file's path lands in the group of its own type. */
  lemma {:induction false} AcceptedPathInItsGroup(folder: string, listing: seq<string>, k: nat)
    requires k < |listing| && Accepted(listing[k])
    ensures JoinPath(folder, listing[k]) in PathsOfType(folder, listing, KeyOf(listing[k]).value.dataType)
  {
    var n := |listing| - 1;
    var t := KeyOf(listing[k]).value.dataType;
    if k < n {
      AcceptedPathInItsGroup(folder, listing[..n], k);
    }
  }

  /** A group exists exactly for the types that received at least one file. */
  lemma {:induction false} GroupNonEmptyIff(folder: string, listing: seq<string>, t: DataType)
    ensures PathsOfType(folder, listing, t) != [] <==> exists k :: 0 <= k < |listing| && HasType(listing[k], t)
  {
    if listing != [] {
      var n := |listing| - 1;
      GroupNonEmptyIff(folder, listing[..n], t);
      if exists k :: 0 <= k < |listing| && HasType(listing[k], t) {
        var k :| 0 <= k < |listing| && HasType(listing[k], t);
        if k < n { assert HasType(listing[..n][k], t); }
      }
      if exists k :: 0 <= k < n && HasType(listing[..n][k], t) {
        var k :| 0 <= k < n && HasType(listing[..n][k], t);
        assert HasType(listing[k], t);
      }
    }
  }

  /** No accepted file is lost or counted twice: the four groups together
      hold exactly as many paths as there are accepted files. */
  lemma {:induction false} GroupSizesSum(folder: string, listing: seq<string>)
    ensures |PathsOfType(folder, listing, Precipitation)| + |PathsOfType(folder, listing, MeanTemperature)|
          + |PathsOfType(folder, listing, MinTemperature)| + |PathsOfType(folder, listing, MaxTemperature)|
         == CountAccepted(listing)
  {
    if listing != [] {
      GroupSizesSum(folder, listing[..|listing| - 1]);
    }
  }

  /** Groups distribute over concatenation of listings. */
  lemma {:induction false} PathsOfTypeAppend(folder: string, a: seq<string>, b: seq<string>, t: DataType)
    ensures PathsOfType(folder, a + b, t) == PathsOfType(folder, a, t) + PathsOfType(folder, b, t)
  {
    if b == [] {
      assert a + b == a;
    } else {
      var n := |b| - 1;
      assert (a + b)[..|a + b| - 1] == a + b[..n];
      PathsOfTypeAppend(folder, a, b[..n], t);
    }
  }

  /** A file none of whose name parts mentions a marker is skipped: it has
      no key, so no result comes from it, and removing it from the listing
      changes no group. */
  lemma UnmarkedFileExcluded(folder: string, listing: seq<string>, k: nat)
    requires k < |listing|
    requires forall j, u: DataType :: 0 <= j < |Parts(listing[k])| ==> !Contains(Parts(listing[k])[j], Marker(u))
    ensures Keys(listing)[k] == None
    ensures forall t :: PathsOfType(folder, listing, t) == PathsOfType(folder, listing[..k] + listing[k + 1..], t)
  {
    UnmarkedNameHasNoType(listing[k]);
    forall t ensures PathsOfType(folder, listing, t) == PathsOfType(folder, listing[..k] + listing[k + 1..], t) {
      assert listing == listing[..k] + [listing[k]] + listing[k + 1..];
      PathsOfTypeAppend(folder, listing[..k] + [listing[k]], listing[k + 1..], t);
      PathsOfTypeAppend(folder, listing[..k], [listing[k]], t);
      PathsOfTypeAppend(folder, listing[..k], listing[k + 1..], t);
      assert [listing[k]][..0] == [];
      assert PathsOfType(folder, [listing[k]], t) == [];
    }
  }

  /** Each type appears at most once in the group order. */
  lemma {:induction false} TypeOrderDistinct(listing: seq<string>)
    ensures forall a, b :: 0 <= a < b < |TypeOrder(listing)| ==> TypeOrder(listing)[a] != TypeOrder(listing)[b]
  {
    if listing != [] {
      TypeOrderDistinct(listing[..|listing| - 1]);
    }
  }

  /** The group order holds exactly the types that received a file. */
  lemma {:induction false} TypeOrderMembers(listing: seq<string>)
    ensures forall t :: t in TypeOrder(listing) <==> exists k :: 0 <= k < |listing| && HasType(listing[k], t)
  {
    if listing != [] {
      var n := |listing| - 1;
      var init := listing[..n];
      TypeOrderMembers(init);
      forall t ensures t in TypeOrder(listing) <==> exists k :: 0 <= k < |listing| && HasType(listing[k], t) {
        if exists k :: 0 <= k < |listing| && HasType(listing[k], t) {
          var k :| 0 <= k < |listing| && HasType(listing[k], t);
          if k < n { assert HasType(init[k], t); }
        }
        if exists k :: 0 <= k < n && HasType(init[k], t) {
          var k :| 0 <= k < n && HasType(init[k], t);
          assert HasType(listing[k], t);
        }
      }
    }
  }

  /** In the group order, a type comes before another exactly when its first
      file comes first: every file of a later type is preceded by a file of
      each earlier type. */
  lemma {:induction false} TypeOrderFirstSeen(listing: seq<string>)
    ensures forall a, b, k :: 0 <= a < b < |TypeOrder(listing)| && 0 <= k < |listing| && HasType(listing[k], TypeOrder(listing)[b]) ==>
      exists j :: 0 <= j < k && HasType(listing[j], TypeOrder(listing)[a])
  {
    if listing != [] {
      var n := |listing| - 1;
      var init := listing[..n];
      var o, o' := TypeOrder(init), TypeOrder(listing);
      TypeOrderFirstSeen(init);
      TypeOrderMembers(init);
      forall a, b, k | 0 <= a < b < |o'| && 0 <= k < |listing| && HasType(listing[k], o'[b])
        ensures exists j :: 0 <= j < k && HasType(listing[j], o'[a])
      {
        assert o'[a] == o[a];
        if k < n {
          assert HasType(init[k], o'[b]);
          if b < |o| {
            var j :| 0 <= j < k && HasType(init[j], o[a]);
            assert HasType(listing[j], o'[a]);
          }
        } else {
          assert o[a] in o;
          var j :| 0 <= j < n && HasType(init[j], o[a]);
          assert HasType(listing[j], o'[a]);
        }
      }
    }
  }

  /** The name of the aggregate written for type `t`:
      `label.replace(' ', '_').lower() + "_aggregated.tif"`. */
  function AggregateFileName(t: DataType): string
  {
    Lower(Replace(Label(t), ' ', '_')) + "_aggregated.tif"
  }

  /** Lower-casing `s` with spaces turned into underscores gives `r`. */
  lemma StemIs(s: string, r: string)
    requires |r| == |s|
    requires forall i :: 0 <= i < |s| ==> r[i] == LowerChar(if s[i] == ' ' then '_' else s[i])
    ensures Lower(Replace(s, ' ', '_')) == r
  {
  }

  lemma PrecipitationFileName()
    ensures AggregateFileName(Precipitation) == "precipitation_aggregated.tif"
  {
    StemIs("Precipitation", "precipitation");
  }

  lemma MeanTemperatureFileName()
    ensures AggregateFileName(MeanTemperature) == "mean_temperature_aggregated.tif"
  {
    StemIs("Mean Temperature", "mean_temperature");
  }

  lemma MinTemperatureFileName()
    ensures AggregateFileName(MinTemperature) == "min_temperature_aggregated.tif"
  {
    StemIs("Min Temperature", "min_temperature");
  }

  lemma MaxTemperatureFileName()
    ensures AggregateFileName(MaxTemperature) == "max_temperature_aggregated.tif"
  {
    StemIs("Max Temperature", "max_temperature");
  }

  /** Different types get different aggregate names, so no type's aggregate
      overwrites another's. */
  lemma AggregateFileNamesDistinct(t: DataType, u: DataType)
    requires t != u
    ensures AggregateFileName(t) != AggregateFileName(u)
  {
    PrecipitationFileName();
    MeanTemperatureFileName();
    MinTemperatureFileName();
    MaxTemperatureFileName();
    assert AggregateFileName(t)[1] != AggregateFileName(u)[1];
  }

  /** A typical name: the marked part sets the type and the two characters
      before `.tif` are the month label. */
  lemma TypicalNameKey(name: string)
    requires name == "prec_07.tif"
    ensures KeyOf(name) == Some(Key("07", Precipitation))
  {
    var parts := TypicalNameParts(name);
    TypicalPartsType(parts);
    assert MonthOf(name) == "07";
  }

  lemma TypicalNameParts(name: string) returns (parts: seq<string>)
    requires name == "prec_07.tif"
    ensures parts == ["prec", "07.tif"] && Parts(name) == parts
  {
    parts := ["prec", "07.tif"];
    assert Lower(name) == name;
    assert Join(parts, '_') == name;
    SplitJoin(parts, '_');
  }

  lemma TypicalPartsType(parts: seq<string>)
    requires parts == ["prec", "07.tif"]
    ensures LastMarkedType(parts) == Some(Precipitation)
  {
    assert OccursAt(parts[0], "prec", 0);
    UnmarkedWithoutLetters(parts[1]);
    assert parts[..1] == ["prec"];
  }

  /** The month labels in ascending string order, each once: the row order
      `sort_index` gives the table. */
  method SortedMonths(months: set<string>) returns (sorted: seq<string>)
    ensures forall a, b :: 0 <= a < b < |sorted| ==> Less(sorted[a], sorted[b])
    ensures forall m :: m in sorted <==> m in months
    ensures |sorted| == |months|
  {
    var rest := months;
    sorted := [];
    while rest != {}
      invariant rest <= months
      invariant forall m :: m in sorted <==> m in months && m !in rest
      invariant forall a, b :: 0 <= a < b < |sorted| ==> Less(sorted[a], sorted[b])
      invariant forall a, x :: 0 <= a < |sorted| && x in rest ==> Less(sorted[a], x)
      invariant |sorted| + |rest| == |months|
      decreases |rest|
    {
      LeastExists(rest);
      var m :| m in rest && forall x :: x in rest && x != m ==> Less(m, x);
      sorted := sorted + [m];
      rest := rest - {m};
    }
  }

  /** One line of the summary table: a month and its cells by type; a type
      absent from `cells` is an empty cell. */
  datatype Row = Row(month: string, cells: map<DataType, Option<real>>)

  /** `pd.DataFrame.from_dict(results, orient="index").sort_index()`: one
      row per month, in ascending month order. */
  method Summarize(results: Results) returns (table: seq<Row>)
    ensures |table| == |results|
    ensures forall a, b :: 0 <= a < b < |table| ==> Less(table[a].month, table[b].month)
    ensures forall m :: m in results <==> exists r :: 0 <= r < |table| && table[r].month == m
    ensures forall r :: 0 <= r < |table| ==> table[r].month in results && table[r].cells == results[table[r].month]
  {
    var months := SortedMonths(results.Keys);
    table := seq(|months|, r requires 0 <= r < |months| => Row(months[r], results[months[r]]));
    forall m | m in results ensures exists r :: 0 <= r < |table| && table[r].month == m {
      var r :| 0 <= r < |months| && months[r] == m;
      assert table[r].month == m;
    }
  }

  /** A written aggregate: its path and its contents. */
  datatype Written = Written(path: string, raster: MeanRaster)

  /** How a run ends: every group aggregated and the table produced, or an
      aggregation raised after the aggregates before it were written (the
      table is then never written). */
  datatype RunOutcome =
    | Completed(written: seq<Written>, table: seq<Row>)
    | Aborted(written: seq<Written>, error: AggError)

  /** Every path of every group is a readable raster. */
  lemma {:induction false} PathsOfTypeReadable(folder: string, listing: seq<string>, disk: map<string, Raster>, t: DataType)
    requires Readable(folder, listing, disk)
    ensures forall k :: 0 <= k < |PathsOfType(folder, listing, t)| ==>
      PathsOfType(folder, listing, t)[k] in disk && WellFormed(disk[PathsOfType(folder, listing, t)[k]])
  {
    if listing != [] {
      var n := |listing| - 1;
      assert Readable(folder, listing[..n], disk) by {
        assert forall k :: 0 <= k < n ==> listing[..n][k] == listing[k];
      }
      PathsOfTypeReadable(folder, listing[..n], disk, t);
    }
  }

  /** What aggregating the group of type `t` gives. */
  function GroupAggregate(folder: string, listing: seq<string>, disk: map<string, Raster>, t: DataType)
    : Result<MeanRaster, AggError>
    requires Readable(folder, listing, disk)
  {
    PathsOfTypeReadable(folder, listing, disk, t);
    var paths := PathsOfType(folder, listing, t);
    AggregateOf(ReadAll(disk, paths))
  }

  /** `w` is what aggregating the group of type `t` writes. */
  ghost predicate WrittenFor(inputFolder: string, outputFolder: string, listing: seq<string>,
                             disk: map<string, Raster>, t: DataType, w: Written)
    requires Readable(inputFolder, listing, disk)
  {
    w.path == JoinPath(outputFolder, AggregateFileName(t)) &&
    GroupAggregate(inputFolder, listing, disk, t) == Success(w.raster)
  }

  /** The group of a type in the group order is never empty, so its
      aggregation can only fail on mismatched shapes. */
  lemma GroupAggregateNeverEmpty(folder: string, listing: seq<string>, disk: map<string, Raster>, t: DataType)
    requires Readable(folder, listing, disk)
    requires t in TypeOrder(listing)
    ensures GroupAggregate(folder, listing, disk, t) != Failure(EmptyGroup)
  {
    TypeOrderMembers(listing);
    GroupNonEmptyIff(folder, listing, t);
  }

  /** Aggregates each group in `order` and writes it under its type's
      aggregate name, stopping at the first aggregation that raises. */
  method WriteGroups(inputFolder: string, outputFolder: string, listing: seq<string>, disk: map<string, Raster>,
                     groups: map<DataType, seq<string>>, order: seq<DataType>)
    returns (written: seq<Written>, error: Option<AggError>)
    requires Readable(inputFolder, listing, disk)
    requires order == TypeOrder(listing)
    requires forall t :: t in order ==> t in groups && groups[t] == PathsOfType(inputFolder, listing, t)
    ensures |written| <= |order|
    ensures forall k :: 0 <= k < |written| ==>
      WrittenFor(inputFolder, outputFolder, listing, disk, order[k], written[k])
    ensures error.None? ==> |written| == |order|
    ensures error.Some? ==>
      |written| < |order| &&
      GroupAggregate(inputFolder, listing, disk, order[|written|]) == Failure(error.value) &&
      error.value == ShapeMismatch
  {
    written := [];
    for k := 0 to |order|
      invariant |written| == k
      invariant forall j :: 0 <= j < k ==> WrittenFor(inputFolder, outputFolder, listing, disk, order[j], written[j])
    {
      var t := order[k];
      var path := JoinPath(outputFolder, AggregateFileName(t));
      PathsOfTypeReadable(inputFolder, listing, disk, t);
      var r := AggregateRasters(disk, groups[t]);
      assert r == GroupAggregate(inputFolder, listing, disk, t);
      if r.Failure? {
        GroupAggregateNeverEmpty(inputFolder, listing, disk, t);
        return written, Some(r.error);
      }
      written := written + [Written(path, r.value)];
    }
    error := None;
  }

  /** The whole script after the output folder exists: scan, aggregate each
      group in the order its type was first seen, writing it under the
      type's aggregate name, then build the table sorted by month. */
  method Run(inputFolder: string, outputFolder: string, listing: seq<string>, disk: map<string, Raster>)
    returns (outcome: RunOutcome)
    requires Readable(inputFolder, listing, disk)
    ensures |outcome.written| <= |TypeOrder(listing)|
    ensures forall k :: 0 <= k < |outcome.written| ==>
      WrittenFor(inputFolder, outputFolder, listing, disk, TypeOrder(listing)[k], outcome.written[k])
    ensures outcome.Completed? ==> |outcome.written| == |TypeOrder(listing)|
    ensures outcome.Aborted? ==>
      |outcome.written| < |TypeOrder(listing)| &&
      GroupAggregate(inputFolder, listing, disk, TypeOrder(listing)[|outcome.written|]) == Failure(outcome.error)
    ensures outcome.Aborted? ==> outcome.error == ShapeMismatch
    ensures outcome.Completed? ==>
      var results := ResultsOf(Keys(listing), Means(inputFolder, listing, disk));
      && |outcome.table| == |results|
      && (forall a, b :: 0 <= a < b < |outcome.table| ==> Less(outcome.table[a].month, outcome.table[b].month))
      && (forall r :: 0 <= r < |outcome.table| ==>
            outcome.table[r].month in results && outcome.table[r].cells == results[outcome.table[r].month])
  {
    var results, groups, order := Scan(inputFolder, listing, disk);
    GroupsOfKeys(inputFolder, listing);
    TypeOrderMembers(listing);
    var written, error := WriteGroups(inputFolder, outputFolder, listing, disk, groups, order);
    if error.Some? {
      return Aborted(written, error.value);
    }
    var table := Summarize(results);
    outcome := Completed(written, table);
  }
}
