/** `rankbuckets.py`: gathers the bucketed-impact files of several counties
    into one table and lists the counties whose impact varies most across
    buckets. */
module RankBuckets {
  import opened Wrappers
  import opened Seqs
  import opened Strings
  import opened Sorting
  import opened Variables

  const CountyColumn: string := "COUNTY"
  const DecileColumn: string := "DECILE"
  /** The name `reset_index` gives the former index column. */
  const IndexColumn: string := "index"

  /** A county is large for a feature when its gap exceeds this. */
  const GapThreshold: real := 5.0
  /** `nlargest(10, feature)`. */
  const TopCount: nat := 10
  /** The columns of the unconditional debug block, in the order it prints them. */
  const DebugColumns: seq<string> := [MedianHouseholdIncomeForRenters2018Usd, "frac_B25003A_003E", "frac_B25003B_003E"]

  /** `Path(path).name`: the text after the last `/`. */
  function FileName(path: string): (name: string)
    ensures '/' !in name && EndsWith(path, name)
  {
    var i := LastIndexOf(path, '/');
    path[i + 1..]
  }

  /** `Path(path).stem`: the file name without its last suffix; a name whose
      only dot is its first or its last character has no suffix. */
  function Stem(path: string): string
  {
    var name := FileName(path);
    var i := LastIndexOf(name, '.');
    if 0 < i < |name| - 1 then name[..i] else name
  }

  /** The stem of `<dir><county>.csv` is the county, whatever the directory. */
  lemma StemOfCsv(dir: string, county: string)
    requires dir == [] || dir[|dir| - 1] == '/'
    requires county != [] && '/' !in county
    ensures Stem(dir + county + ".csv") == county
  {
    var name := county + ".csv";
    SlashFree(county, ".csv");
    CsvSuffixDot(county, county + ".", name);
    assert dir + county + ".csv" == dir + name;
    FileNameAfterDir(dir, name);
    assert name[..|county|] == county;
  }

  /** The last `.` of a county's CSV file name starts the suffix. */
  lemma CsvSuffixDot(county: string, dotted: string, name: string)
    requires dotted == county + "." && name == dotted + "csv"
    ensures LastIndexOf(name, '.') == |county|
  {
    DotLast(dotted);
    LastIndexOfFree(dotted, "csv", '.');
  }

  lemma SlashFree(a: string, b: string)
    requires '/' !in a && '/' !in b
    ensures '/' !in a + b
  {
  }

  lemma DotLast(s: string)
    requires s != [] && s[|s| - 1] == '.'
    ensures LastIndexOf(s, '.') == |s| - 1
  {
  }

  lemma FileNameAfterDir(dir: string, name: string)
    requires dir == [] || dir[|dir| - 1] == '/'
    requires '/' !in name
    ensures FileName(dir + name) == name
  {
    LastIndexOfFree(dir, name, '/');
    if dir == [] {
      assert dir + name == name;
    }
    assert (dir + name)[|dir|..] == name;
  }

  /** A bucket file as `pd.read_csv` gives it: its header and its rows. */
  datatype BucketFile = BucketFile(path: string, columns: seq<string>, rows: seq<seq<real>>)

  /** One row of the county table: COUNTY, DECILE and the feature values. */
  datatype BucketRow = BucketRow(county: string, decile: nat, values: seq<real>)

  /** What `pd.read_csv` guarantees: one value per header column in every row. */
  predicate WellFormed(f: BucketFile)
  {
    forall k :: 0 <= k < |f.rows| ==> |f.rows[k]| == |f.columns|
  }

  /** The county table: columns COUNTY, DECILE, then `features`. */
  datatype CountyTable = CountyTable(features: seq<string>, rows: seq<BucketRow>)

  predicate Reserved(c: string)
  {
    c == CountyColumn || c == DecileColumn || c == IndexColumn
  }

  function NotTag(): string -> bool
  {
    c => c != CountyColumn && c != DecileColumn
  }

  /** The header after `reset_index`, the rename and the COUNTY assignment. */
  function RawColumns(f: BucketFile): seq<string>
  {
    [DecileColumn] + f.columns + [CountyColumn]
  }

  /** `feature_cols` of `load_county`: every column but COUNTY and DECILE. */
  function FeatureColumns(columns: seq<string>): seq<string>
  {
    Filter(columns, NotTag())
  }

  /** The full header of a county table. */
  function Header(t: CountyTable): seq<string>
  {
    [CountyColumn, DecileColumn] + t.features
  }

  /** `load_county`: each row gets COUNTY = the file's stem and DECILE = its
      position, and the columns are reordered to COUNTY, DECILE, features.
      A header that already holds COUNTY, DECILE or index would make pandas
      duplicate or overwrite columns; files written by `plot.py` never do. */
  function LoadCounty(f: BucketFile): (t: CountyTable)
    requires forall c :: c in f.columns ==> !Reserved(c)
    ensures |t.rows| == |f.rows|
    ensures forall i :: 0 <= i < |t.rows| ==>
              t.rows[i].county == Stem(f.path) && t.rows[i].decile == i && t.rows[i].values == f.rows[i]
  {
    CountyTable(FeatureColumns(RawColumns(f)),
      seq(|f.rows|, i requires 0 <= i < |f.rows| => BucketRow(Stem(f.path), i, f.rows[i])))
  }

  /** The reordering drops no column of the file and keeps their order. */
  lemma LoadCountyColumns(f: BucketFile)
    requires forall c :: c in f.columns ==> !Reserved(c)
    ensures LoadCounty(f).features == f.columns
    ensures Header(LoadCounty(f)) == [CountyColumn, DecileColumn] + f.columns
  {
    var p, cols := NotTag(), f.columns;
    var a := [DecileColumn] + cols;
    assert RawColumns(f) == a + [CountyColumn];
    assert Filter(a, p) == cols by {
      FilterAppend([DecileColumn], cols, p);
      FilterNone([DecileColumn], p);
      UntaggedKept(cols);
    }
    FilterAppend(a, [CountyColumn], p);
    FilterNone([CountyColumn], p);
  }

  lemma UntaggedKept(cols: seq<string>)
    requires forall c :: c in cols ==> !Reserved(c)
    ensures Filter(cols, NotTag()) == cols
  {
    var p := NotTag();
    forall k | 0 <= k < |cols| ensures p(cols[k]) {
      assert cols[k] in cols;
    }
    FilterAll(cols, p);
  }

  /** The files `plot.py` writes have the feature list as header, and no
      feature is named COUNTY, DECILE or index. */
  lemma FeatureListFree(columns: seq<string>, rentersOnly: bool)
    ensures forall c :: c in XCols(columns, rentersOnly) ==> !Reserved(c)
  {
    var cols := XCols(columns, rentersOnly);
    XColsFractions(columns, rentersOnly);
    forall c | c in cols ensures !Reserved(c) {
      var i :| 0 <= i < |cols| && cols[i] == c;
      if i == 0 {
        assert c[0] == 'B';
      } else {
        assert c[0] == FracPrefix[0];
      }
    }
  }

  /** The county tables of `files`, one after the other. */
  function ConcatRows(files: seq<BucketFile>): (rows: seq<BucketRow>)
    requires forall i :: 0 <= i < |files| ==> forall c :: c in files[i].columns ==> !Reserved(c)
    ensures |rows| == Sum(RowCounts(files))
  {
    if files == [] then []
    else
      assert RowCounts(files)[1..] == RowCounts(files[1..]);
      LoadCounty(files[0]).rows + ConcatRows(files[1..])
  }

  function RowCounts(files: seq<BucketFile>): (counts: seq<nat>)
    ensures |counts| == |files|
  {
    seq(|files|, i requires 0 <= i < |files| => |files[i].rows|)
  }

  /** `pd.concat(load_county(...) for county in args.counties)`; the command
      line demands at least one file. */
  function Concat(files: seq<BucketFile>): (t: CountyTable)
    requires files != []
    requires forall i :: 0 <= i < |files| ==> forall c :: c in files[i].columns ==> !Reserved(c)
    requires forall i :: 0 <= i < |files| ==> files[i].columns == files[0].columns
    ensures t.features == files[0].columns
    ensures |t.rows| == Sum(RowCounts(files))
    ensures (forall i :: 0 <= i < |files| ==> WellFormed(files[i])) ==> Rectangular(t)
  {
    LoadCountyColumns(files[0]);
    var t := CountyTable(LoadCounty(files[0]).features, ConcatRows(files));
    if forall i :: 0 <= i < |files| ==> WellFormed(files[i]) then
      ConcatRowsWidth(files, |files[0].columns|);
      t
    else t
  }

  /** Files of one width concatenate to rows of that width. */
  lemma {:induction false} ConcatRowsWidth(files: seq<BucketFile>, width: nat)
    requires forall i :: 0 <= i < |files| ==> forall c :: c in files[i].columns ==> !Reserved(c)
    requires forall i :: 0 <= i < |files| ==> WellFormed(files[i]) && |files[i].columns| == width
    ensures forall k :: 0 <= k < |ConcatRows(files)| ==> |ConcatRows(files)[k].values| == width
  {
    if files != [] {
      var head := LoadCounty(files[0]).rows;
      var rest := ConcatRows(files[1..]);
      ConcatRowsWidth(files[1..], width);
      assert ConcatRows(files) == head + rest;
      var all: seq<BucketRow> := head + rest;
      forall k | 0 <= k < |all| ensures |all[k].values| == width {
        if k < |head| {
          assert head[k].values == files[0].rows[k];
        } else {
          assert all[k] == rest[k - |head|];
        }
      }
    }
  }

  /** Row `k` of file `i` sits after the rows of the files before it. */
  lemma {:induction false} ConcatPlacement(files: seq<BucketFile>, i: nat, k: nat)
    requires forall i :: 0 <= i < |files| ==> forall c :: c in files[i].columns ==> !Reserved(c)
    requires i < |files| && k < |files[i].rows|
    ensures Sum(RowCounts(files[..i])) + k < |ConcatRows(files)|
    ensures ConcatRows(files)[Sum(RowCounts(files[..i])) + k] == BucketRow(Stem(files[i].path), k, files[i].rows[k])
  {
    var head := LoadCounty(files[0]).rows;
    var rest := ConcatRows(files[1..]);
    assert ConcatRows(files) == head + rest;
    if i == 0 {
      assert RowCounts(files[..0]) == [];
    } else {
      ConcatPlacement(files[1..], i - 1, k);
      RowCountsBefore(files, i);
    }
  }

  /** The rows before file `i` are those of the first file and those of the
      files between it and file `i`. */
  lemma RowCountsBefore(files: seq<BucketFile>, i: nat)
    requires 0 < i <= |files|
    ensures Sum(RowCounts(files[..i])) == |files[0].rows| + Sum(RowCounts(files[1..][..i - 1]))
  {
    var counts := RowCounts(files[..i]);
    assert counts[0] == |files[0].rows|;
    assert counts[1..] == RowCounts(files[1..][..i - 1]);
  }

  /** Same shape as the header: one value per feature in every row. */
  ghost predicate Rectangular(t: CountyTable)
  {
    forall i :: 0 <= i < |t.rows| ==> |t.rows[i].values| == |t.features|
  }

  function Max(s: seq<real>): (m: real)
    requires s != []
    ensures m in s && forall x :: x in s ==> x <= m
  {
    if |s| == 1 then s[0]
    else
      var m := Max(s[1..]);
      assert forall x :: x in s ==> x == s[0] || x in s[1..];
      if s[0] >= m then s[0] else m
  }

  function Min(s: seq<real>): (m: real)
    requires s != []
    ensures m in s && forall x :: x in s ==> m <= x
  {
    if |s| == 1 then s[0]
    else
      var m := Min(s[1..]);
      assert forall x :: x in s ==> x == s[0] || x in s[1..];
      if s[0] <= m then s[0] else m
  }

  /** Feature `j` over the rows of one county: the group `groupby("COUNTY")`
      forms. */
  function CountyValues(rows: seq<BucketRow>, county: string, j: nat): (v: seq<real>)
    requires forall i :: 0 <= i < |rows| ==> j < |rows[i].values|
    ensures forall x :: x in v <==> exists i :: 0 <= i < |rows| && rows[i].county == county && rows[i].values[j] == x
  {
    if rows == [] then []
    else
      var rest := CountyValues(rows[1..], county, j);
      assert forall i :: 1 <= i < |rows| ==> rows[i] == rows[1..][i - 1];
      (if rows[0].county == county then [rows[0].values[j]] else []) + rest
  }

  /** `df_high - df_low` for one county and feature: the spread of the
      county's values (0 for a county without rows, which `groupby` never
      forms). */
  function Gap(t: CountyTable, county: string, j: nat): real
    requires Rectangular(t) && j < |t.features|
  {
    var v := CountyValues(t.rows, county, j);
    if v == [] then 0.0 else Max(v) - Min(v)
  }

  /** The gap is never negative, and it bounds the difference of any two of
      the county's values for the feature. */
  lemma GapSpread(t: CountyTable, county: string, j: nat, a: nat, b: nat)
    requires Rectangular(t) && j < |t.features|
    requires a < |t.rows| && b < |t.rows| && t.rows[a].county == county && t.rows[b].county == county
    ensures Gap(t, county, j) >= 0.0
    ensures t.rows[a].values[j] - t.rows[b].values[j] <= Gap(t, county, j)
  {
    var v := CountyValues(t.rows, county, j);
    assert t.rows[a].values[j] in v && t.rows[b].values[j] in v;
  }

  /** The county codes of the table, as `groupby` orders them. */
  function Counties(t: CountyTable): (cs: seq<string>)
    ensures StrictlyIncreasing(cs)
    ensures forall c :: c in cs <==> exists i :: 0 <= i < |t.rows| && t.rows[i].county == c
  {
    var names := seq(|t.rows|, i requires 0 <= i < |t.rows| => t.rows[i].county);
    assert forall c :: c in names <==> exists i :: 0 <= i < |t.rows| && t.rows[i].county == c by {
      forall c | c in names ensures exists i :: 0 <= i < |t.rows| && t.rows[i].county == c {
        var i :| 0 <= i < |names| && names[i] == c;
      }
      forall c | exists i :: 0 <= i < |t.rows| && t.rows[i].county == c ensures c in names {
        var i :| 0 <= i < |t.rows| && t.rows[i].county == c;
        assert names[i] == c;
      }
    }
    SortedDistinct(names)
  }

  function GapOf(t: CountyTable, j: nat): string -> real
    requires Rectangular(t) && j < |t.features|
  {
    c => Gap(t, c, j)
  }

  function IsLarge(t: CountyTable, j: nat): string -> bool
    requires Rectangular(t) && j < |t.features|
  {
    c => Gap(t, c, j) > GapThreshold
  }

  /** The counties over the threshold, largest gap first. */
  function Ranked(t: CountyTable, j: nat): seq<string>
    requires Rectangular(t) && j < |t.features|
  {
    SortDesc(Filter(Counties(t), IsLarge(t, j)), GapOf(t, j))
  }

  /** `df_gap[df_gap[feature] > 5.0].nlargest(10, feature)`: the first ten
      of the ranking, or all of it when it is shorter. */
  function Top(t: CountyTable, j: nat): (top: seq<string>)
    requires Rectangular(t) && j < |t.features|
    ensures |top| <= TopCount && |top| <= |Ranked(t, j)|
    ensures top == Ranked(t, j)[..|top|]
    ensures |top| < TopCount ==> top == Ranked(t, j)
  {
    var ranked := Ranked(t, j);
    if |ranked| <= TopCount then ranked else ranked[..TopCount]
  }

  /** The ranking holds exactly the counties whose gap exceeds the threshold. */
  lemma RankedMembers(t: CountyTable, j: nat, c: string)
    requires Rectangular(t) && j < |t.features|
    ensures c in Ranked(t, j) <==> c in Counties(t) && Gap(t, c, j) > GapThreshold
  {
    var large := Filter(Counties(t), IsLarge(t, j));
    FilterMembership(Counties(t), IsLarge(t, j), c);
    assert c in Ranked(t, j) <==> multiset(Ranked(t, j))[c] > 0;
    assert c in large <==> multiset(large)[c] > 0;
  }

  /** Every taken county has a gap over the threshold. */
  lemma TopMember(t: CountyTable, j: nat, c: string)
    requires Rectangular(t) && j < |t.features| && c in Top(t, j)
    ensures c in Counties(t) && Gap(t, c, j) > GapThreshold
  {
    var top := Top(t, j);
    var k :| 0 <= k < |top| && top[k] == c;
    assert Ranked(t, j)[k] == c;
    RankedMembers(t, j, c);
  }

  /** A county over the threshold that is not taken has a gap no larger
      than any taken one. */
  lemma TopDominates(t: CountyTable, j: nat, c: string, d: string)
    requires Rectangular(t) && j < |t.features|
    requires c in Top(t, j) && d in Counties(t) && Gap(t, d, j) > GapThreshold && d !in Top(t, j)
    ensures Gap(t, d, j) <= Gap(t, c, j)
  {
    var ranked, top := Ranked(t, j), Top(t, j);
    RankedMembers(t, j, d);
    LeftOutDominated(ranked, GapOf(t, j), |top|, c, d);
    assert GapOf(t, j)(c) == Gap(t, c, j) && GapOf(t, j)(d) == Gap(t, d, j);
  }

  /** With at most ten counties over the threshold, all of them are taken. */
  lemma TopComplete(t: CountyTable, j: nat, c: string)
    requires Rectangular(t) && j < |t.features|
    requires |Filter(Counties(t), IsLarge(t, j))| <= TopCount
    requires c in Counties(t) && Gap(t, c, j) > GapThreshold
    ensures c in Top(t, j)
  {
    RankedMembers(t, j, c);
    var large := Filter(Counties(t), IsLarge(t, j));
    assert |Ranked(t, j)| == |large| by {
      assert |multiset(Ranked(t, j))| == |multiset(large)|;
    }
    assert Top(t, j) == Ranked(t, j);
  }

  /** The top counties of every feature, in feature order: the parts of
      `df_large`. */
  function Tops(t: CountyTable): (tops: seq<seq<string>>)
    requires Rectangular(t)
    ensures |tops| == |t.features|
    ensures forall j :: 0 <= j < |t.features| ==> tops[j] == Top(t, j)
  {
    seq(|t.features|, j requires 0 <= j < |t.features| => Top(t, j))
  }

  /** `large_fips = sorted(list(df_large.index.unique()))`, the list that
      `large_impact` prints. */
  function LargeFips(t: CountyTable): (fips: seq<string>)
    requires Rectangular(t)
    ensures StrictlyIncreasing(fips)
  {
    SortedDistinct(Flatten(Tops(t)))
  }

  /** What a call of `large_impact` does: the line it prints, then the
      `KeyError` its debug block raises, if any. */
  datatype ImpactRun = ImpactRun(printed: seq<string>, raised: Option<Error>)

  /** `large_impact`: it prints `large_fips`, then the unconditional debug
      block looks up its three fixed columns in turn, and the first one the
      table lacks raises `KeyError`. */
  function LargeImpact(t: CountyTable): (r: ImpactRun)
    requires Rectangular(t)
    ensures r.printed == LargeFips(t)
    ensures r.raised.Some? <==> exists c :: c in DebugColumns && c !in t.features
    ensures r.raised.Some? ==>
              r.raised.value.MissingColumn? && r.raised.value.column in DebugColumns &&
              r.raised.value.column !in t.features
    ensures r.raised.Some? ==>
              exists i :: 0 <= i < |DebugColumns| && r.raised.value == MissingColumn(DebugColumns[i]) &&
                          forall j :: 0 <= j < i ==> DebugColumns[j] in t.features
  {
    var raised :=
      if DebugColumns[0] !in t.features then Some(MissingColumn(DebugColumns[0]))
      else if DebugColumns[1] !in t.features then Some(MissingColumn(DebugColumns[1]))
      else if DebugColumns[2] !in t.features then Some(MissingColumn(DebugColumns[2]))
      else None;
    ImpactRun(LargeFips(t), raised)
  }

  /** With the population features, which hold no renter fraction, the
      debug block always raises, on `frac_B25003A_003E`, after the list is
      printed. */
  lemma PopulationFeaturesRaise(t: CountyTable, columns: seq<string>)
    requires Rectangular(t) && t.features == XCols(columns, false)
    ensures LargeImpact(t).raised == Some(MissingColumn("frac_B25003A_003E"))
    ensures LargeImpact(t).printed == LargeFips(t)
  {
    NoRenterFraction(columns);
    assert DebugColumns[0] == t.features[0];
    assert DebugColumns[1] == "frac_B25003A_003E";
  }

  /** The population features never hold the white-renter fraction. */
  lemma NoRenterFraction(columns: seq<string>)
    ensures "frac_B25003A_003E" !in XCols(columns, false)
  {
    var cols := XCols(columns, false);
    XColsFractions(columns, false);
    forall i | 0 <= i < |cols| ensures cols[i] != "frac_B25003A_003E" {
      if i == 0 {
        assert cols[0][0] == 'B';
      } else {
        var c := cols[i][|FracPrefix|..];
        assert StartsWith(c, GroupHispanicOrLatinoOriginByRace);
        assert c[1] == '0';
        assert cols[i][6] == c[1];
      }
    }
  }

  /** Every county among the ten largest gaps over 5.0 of some feature is
      listed. */
  lemma LargeImpactListed(t: CountyTable, j: nat, c: string)
    requires Rectangular(t)
    requires j < |t.features| && c in Top(t, j)
    ensures c in LargeFips(t)
  {
    FlattenHas(Tops(t), j, c);
  }

  /** Every listed county is among the ten largest gaps over 5.0 of some
      feature `j`, which the lemma returns. */
  lemma LargeImpactSource(t: CountyTable, c: string) returns (j: nat)
    requires Rectangular(t)
    requires c in LargeFips(t)
    ensures j < |t.features| && c in Top(t, j)
    ensures c in Counties(t) && Gap(t, c, j) > GapThreshold
  {
    assert c in Flatten(Tops(t));
    j := FlattenSource(Tops(t), c);
    TopMember(t, j, c);
  }

  /** Every feature contributes at most ten counties, so at most ten per
      feature are listed. */
  lemma LargeImpactBound(t: CountyTable)
    requires Rectangular(t)
    ensures |LargeFips(t)| <= TopCount * |t.features|
  {
    FlattenLength(Tops(t), TopCount);
    SortedDistinctLength(Flatten(Tops(t)));
  }

  /** What `main` does: the line `large_impact` prints, the combined table
      written to the output file, and the error that stops it. */
  datatype Run = Run(printed: seq<string>, written: Option<CountyTable>, raised: Option<Error>)

  /** `main` without argument parsing: load and concatenate the county
      files, call `large_impact`, and only if it returns write the combined
      table. */
  function Main(files: seq<BucketFile>): (r: Run)
    requires files != []
    requires forall i :: 0 <= i < |files| ==> forall c :: c in files[i].columns ==> !Reserved(c)
    requires forall i :: 0 <= i < |files| ==> files[i].columns == files[0].columns
    requires forall i :: 0 <= i < |files| ==> WellFormed(files[i])
    ensures Rectangular(Concat(files))
    ensures r.printed == LargeFips(Concat(files))
    ensures r.written.Some? <==> r.raised.None?
    ensures r.written.Some? ==> r.written.value == Concat(files)
    ensures r.raised == LargeImpact(Concat(files)).raised
  {
    var t := Concat(files);
    var run := LargeImpact(t);
    Run(run.printed, if run.raised.None? then Some(t) else None, run.raised)
  }

  /** For the population features the combined table is never written,
      though the county list is printed. */
  lemma PopulationRunWritesNothing(files: seq<BucketFile>, columns: seq<string>)
    requires files != []
    requires forall i :: 0 <= i < |files| ==> forall c :: c in files[i].columns ==> !Reserved(c)
    requires forall i :: 0 <= i < |files| ==> files[i].columns == files[0].columns
    requires forall i :: 0 <= i < |files| ==> WellFormed(files[i])
    requires files[0].columns == XCols(columns, false)
    ensures Main(files).written == None
    ensures Main(files).printed == LargeFips(Concat(files))
  {
    PopulationFeaturesRaise(Concat(files), columns);
  }

  /** Removing duplicates never lengthens a list. */
  lemma {:induction false} SortedDistinctLength(s: seq<string>)
    ensures |SortedDistinct(s)| <= |s|
  {
    if s != [] {
      SortedDistinctLength(s[1..]);
      InsertUniqueLength(s[0], SortedDistinct(s[1..]));
    }
  }

  lemma {:induction false} InsertUniqueLength(x: string, s: seq<string>)
    ensures |InsertUnique(x, s)| <= |s| + 1
  {
    if s != [] && x != s[0] && !LexLeq(x, s[0]) {
      InsertUniqueLength(x, s[1..]);
    }
  }
}
