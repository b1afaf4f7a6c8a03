/** `plot.py`: the text and table shaping around the impact charts. The
    ensemble, its impact curves and its buckets belong to an external model
    and appear here only as inputs. */
module Plot {
  import opened Wrappers
  import opened Seqs
  import opened Strings
  import opened Numbers
  import opened Tables
  import opened Variables

  /** `k` and `seed` of `main`. */
  const EnsembleSize: int := 50
  const Seed: nat := 0x3423CDF1

  /** `_plot_id(feature, k, n, seed)`: `n` with thousands commas, `seed` as
      at least eight upper-case hexadecimal digits. */
  function PlotId(feature: string, k: int, n: nat, seed: nat): string
  {
    "(f = " + feature + "; n = " + Grouped(n) + "; k = " + IntText(k) + "; s = " + Hex08(seed) + ")"
  }

  /** The id splits at `;` into its four fields (when the feature name has
      no `;`). */
  lemma PlotIdFields(feature: string, k: int, n: nat, seed: nat)
    requires ';' !in feature
    ensures Split(PlotId(feature, k, n, seed), ';') ==
            ["(f = " + feature, " n = " + Grouped(n), " k = " + IntText(k), " s = " + Hex08(seed) + ")"]
  {
    var a, b, c, d := "(f = " + feature, " n = " + Grouped(n), " k = " + IntText(k), " s = " + Hex08(seed) + ")";
    FieldsFree(feature, k, n, seed);
    PlotIdLayout(feature, Grouped(n), IntText(k), Hex08(seed));
    SplitFour(a, b, c, d, ';');
  }

  /** The id text is its four fields with `;` between them. */
  lemma PlotIdLayout(f: string, g: string, i: string, h: string)
    ensures "(f = " + f + "; n = " + g + "; k = " + i + "; s = " + h + ")" ==
            ("(f = " + f) + [';'] + (" n = " + g) + [';'] + (" k = " + i) + [';'] + (" s = " + h + ")")
  {
    assert "; n = " == [';'] + " n = ";
    assert "; k = " == [';'] + " k = ";
    assert "; s = " == [';'] + " s = ";
  }

  /** The row count, the ensemble size and the seed read back from their
      fields of the id. */
  lemma PlotIdReadBack(k: int, n: nat, seed: nat)
    ensures var b, c, d := " n = " + Grouped(n), " k = " + IntText(k), " s = " + Hex08(seed) + ")";
            ParseBase(RemoveCommas(b[5..]), 10) == n &&
            ParseInt(c[5..]) == k &&
            ParseBase(d[5..|d| - 1], 16) == seed
  {
    var b, c, d := " n = " + Grouped(n), " k = " + IntText(k), " s = " + Hex08(seed) + ")";
    GroupedValue(n);
    IntTextRoundTrip(k);
    Hex08Spec(seed);
    assert b[5..] == Grouped(n);
    assert c[5..] == IntText(k);
    assert d[5..|d| - 1] == Hex08(seed);
  }

  /** No field of the id holds a `;` of its own. */
  lemma FieldsFree(feature: string, k: int, n: nat, seed: nat)
    requires ';' !in feature
    ensures ';' !in "(f = " + feature && ';' !in " n = " + Grouped(n)
    ensures ';' !in " k = " + IntText(k) && ';' !in " s = " + Hex08(seed) + ")"
  {
    GroupedFree(n, ';');
    IntTextFree(k, ';');
    Hex08Free(seed, ';');
  }

  /** Grouped text holds nothing but digits and commas. */
  lemma GroupedFree(n: nat, c: char)
    requires c != ',' && !('0' <= c <= '9')
    ensures c !in Grouped(n)
  {
    GroupedChars(n);
  }

  /** `{k}` holds nothing but a minus sign and digits. */
  lemma IntTextFree(k: int, c: char)
    requires c != '-' && !('0' <= c <= '9')
    ensures c !in IntText(k)
  {
    IntTextRoundTrip(k);
  }

  /** `{seed:08X}` holds nothing but hexadecimal digits. */
  lemma Hex08Free(n: nat, c: char)
    requires !('0' <= c <= '9' || 'A' <= c <= 'F')
    ensures c !in Hex08(n)
  {
    Hex08Spec(n);
  }

  lemma SplitFour(a: string, b: string, c: string, d: string, sep: char)
    requires sep !in a && sep !in b && sep !in c && sep !in d
    ensures Split(a + [sep] + b + [sep] + c + [sep] + d, sep) == [a, b, c, d]
  {
    SplitNoSeparator(a, sep);
    SplitSnoc(a, sep, b);
    SplitSnoc(a + [sep] + b, sep, c);
    SplitSnoc(a + [sep] + b + [sep] + c, sep, d);
  }

  /** With the ensemble size and seed of `main`, every id ends the same way. */
  lemma PlotIdDefaults(feature: string, n: nat)
    ensures EndsWith(PlotId(feature, EnsembleSize, n, Seed), "; k = 50; s = 3423CDF1)")
  {
    EnsembleSizeText();
    SeedText();
    PlotIdTail(feature, Grouped(n), IntText(EnsembleSize), Hex08(Seed));
  }

  lemma EnsembleSizeText()
    ensures IntText(EnsembleSize) == "50"
  {
    ToBaseStep(50, 10);
    assert ToBase(5, 10) == "5";
  }

  lemma SeedText()
    ensures Hex08(Seed) == "3423CDF1"
  {
    var h := ToBase(Seed, 16);
    SeedDigits();
    assert |h| == 8;
  }

  lemma SeedDigits()
    ensures ToBase(Seed, 16) == "3423CDF1"
  {
    ToBaseStep(0x3423CDF1, 16);
    ToBaseStep(0x3423CDF, 16);
    ToBaseStep(0x3423CD, 16);
    ToBaseStep(0x3423C, 16);
    ToBaseStep(0x3423, 16);
    ToBaseStep(0x342, 16);
    ToBaseStep(0x34, 16);
    assert ToBase(3, 16) == "3";
  }

  lemma PlotIdTail(f: string, g: string, i: string, h: string)
    requires i == "50" && h == "3423CDF1"
    ensures EndsWith("(f = " + f + "; n = " + g + "; k = " + i + "; s = " + h + ")", "; k = 50; s = 3423CDF1)")
  {
    var tail := "; k = 50; s = 3423CDF1)";
    var id := "(f = " + f + "; n = " + g + "; k = " + i + "; s = " + h + ")";
    assert id == "(f = " + f + "; n = " + g + tail;
    assert id[|id| - |tail|..] == tail;
  }

  /** The tick label of the dollar axis: `\$` and the grouped amount, or the
      grouped magnitude in parentheses for a negative amount. */
  function DollarLabel(d: int): string
  {
    if d >= 0 then "\\$" + Grouped(d) else "(\\$" + Grouped(-d) + ")"
  }

  /** Reads a dollar label back: parentheses mean a negative amount. */
  function ParseDollar(s: string): Option<int>
  {
    if StartsWith(s, "\\$") then Some(ParseBase(RemoveCommas(s[2..]), 10))
    else if |s| >= 4 && StartsWith(s, "(\\$") && EndsWith(s, ")") then
      Some(0 - ParseBase(RemoveCommas(s[3..|s| - 1]), 10))
    else None
  }

  /** Every label reads back as its amount, begins with `(` exactly for
      negative amounts, and never holds a minus sign. */
  lemma DollarLabelSpec(d: int)
    ensures ParseDollar(DollarLabel(d)) == Some(d)
    ensures DollarLabel(d)[0] == '(' <==> d < 0
    ensures '-' !in DollarLabel(d)
  {
    var s := DollarLabel(d);
    if d >= 0 {
      assert s == "\\$" + Grouped(d);
      PositiveLabel(d, s);
    } else {
      assert s == "(\\$" + Grouped(-d) + ")";
      NegativeLabel(-d, s);
    }
  }

  lemma PositiveLabel(m: nat, s: string)
    requires s == "\\$" + Grouped(m)
    ensures ParseDollar(s) == Some(m as int)
    ensures s[0] != '(' && '-' !in s
  {
    GroupedValue(m);
    GroupedFree(m, '-');
    assert s[2..] == Grouped(m);
  }

  lemma NegativeLabel(m: nat, s: string)
    requires m > 0 && s == "(\\$" + Grouped(m) + ")"
    ensures ParseDollar(s) == Some(0 - m)
    ensures s[0] == '(' && '-' !in s
  {
    GroupedValue(m);
    GroupedFree(m, '-');
    assert s[..2][0] == '(';
    assert StartsWith(s, "(\\$") && EndsWith(s, ")");
    assert s[3..|s| - 1] == Grouped(m);
  }

  /** `X`: a frame of complete numeric columns, stored row by row. */
  datatype Frame = Frame(columns: seq<string>, rows: seq<seq<real>>)

  ghost predicate Rectangular(x: Frame)
  {
    forall i :: 0 <= i < |x.rows| ==> |x.rows[i]| == |x.columns|
  }

  /** One row of `df_one_feature`: the value in the chosen feature's
      column, 0.0 in every other. */
  function ZeroOthers(columns: seq<string>, row: seq<real>, feature: string): (z: seq<real>)
    ensures |z| == |row|
  {
    seq(|row|, j requires 0 <= j < |row| => if j < |columns| && columns[j] == feature then row[j] else 0.0)
  }

  /** `df_one_feature`: the frame with every column but `feature` zeroed. */
  function OneFeature(x: Frame, feature: string): (z: Frame)
    ensures z.columns == x.columns && |z.rows| == |x.rows|
  {
    Frame(x.columns, seq(|x.rows|, i requires 0 <= i < |x.rows| => ZeroOthers(x.columns, x.rows[i], feature)))
  }

  /** Position of the first column named `c`. */
  function ColumnIndex(columns: seq<string>, c: string): (j: nat)
    requires c in columns
    ensures j < |columns| && columns[j] == c && c !in columns[..j]
  {
    if columns[0] == c then 0
    else
      var k := ColumnIndex(columns[1..], c);
      assert columns[..k + 1] == [columns[0]] + columns[1..][..k];
      k + 1
  }

  /** `X[c]`. */
  function Column(x: Frame, c: string): (v: seq<real>)
    requires c in x.columns && Rectangular(x)
    ensures |v| == |x.rows|
  {
    var j := ColumnIndex(x.columns, c);
    seq(|x.rows|, i requires 0 <= i < |x.rows| => x.rows[i][j])
  }

  /** The zeroed frame keeps X's shape and columns; its `feature` column is
      `X[feature]` and every other column is all zeros. */
  lemma OneFeatureSpec(x: Frame, feature: string, c: string)
    requires Rectangular(x) && c in x.columns
    ensures Rectangular(OneFeature(x, feature))
    ensures c == feature ==> Column(OneFeature(x, feature), c) == Column(x, c)
    ensures c != feature ==> forall i :: 0 <= i < |x.rows| ==> Column(OneFeature(x, feature), c)[i] == 0.0
  {
  }

  /** `reg_linreg.predict` on one row: intercept plus the dot product. */
  function Predict(coef: seq<real>, intercept: real, row: seq<real>): real
  {
    intercept + Dot(coef, row)
  }

  function Dot(u: seq<real>, v: seq<real>): real
  {
    if u == [] || v == [] then 0.0 else u[0] * v[0] + Dot(u[1..], v[1..])
  }

  /** A dot product with a vector that is zero outside position `j`. */
  lemma {:induction false} DotSingle(u: seq<real>, v: seq<real>, j: nat)
    requires |u| == |v| && j < |v|
    requires forall k :: 0 <= k < |v| && k != j ==> v[k] == 0.0
    ensures Dot(u, v) == u[j] * v[j]
  {
    if j == 0 {
      DotZero(u[1..], v[1..]);
    } else {
      assert v[0] == 0.0;
      DotSingle(u[1..], v[1..], j - 1);
    }
  }

  lemma {:induction false} DotZero(u: seq<real>, v: seq<real>)
    requires forall k :: 0 <= k < |v| ==> v[k] == 0.0
    ensures Dot(u, v) == 0.0
  {
    if u != [] && v != [] {
      DotZero(u[1..], v[1..]);
    }
  }

  /** What the zeroed frame is for: the linear model's prediction on it is
      the intercept plus the chosen feature's own term, so the other
      features have no effect. */
  lemma ZeroedPrediction(x: Frame, feature: string, coef: seq<real>, intercept: real, i: nat)
    requires Rectangular(x) && Distinct(x.columns) && feature in x.columns
    requires |coef| == |x.columns| && i < |x.rows|
    ensures var j := ColumnIndex(x.columns, feature);
            Predict(coef, intercept, OneFeature(x, feature).rows[i]) == intercept + coef[j] * x.rows[i][j]
  {
    var j := ColumnIndex(x.columns, feature);
    var z := OneFeature(x, feature).rows[i];
    assert z == ZeroOthers(x.columns, x.rows[i], feature);
    forall k | 0 <= k < |z| && k != j ensures z[k] == 0.0 {
      assert x.columns[k] != x.columns[j];
    }
    DotSingle(coef, z, j);
  }

  /** How the x axis of a chart is labelled. */
  datatype AxisFormat = Percent | Dollars

  /** The part of a chart this code decides: its axis format and file name. */
  datatype Chart = Chart(format: AxisFormat, fileName: string)

  /** The chart settings for one feature. The label lookup in `FeatureNames`
      raises `KeyError` for a feature without a label. */
  function ChartSpec(feature: string): (r: Result<Chart>)
    ensures r.Failure? <==> feature !in FeatureNames
    ensures r.Failure? ==> r.error == MissingKey(feature)
    ensures r.Success? ==> (r.value.format == Percent <==> StartsWith(feature, FracPrefix))
    ensures r.Success? ==> EndsWith(r.value.fileName, ".png") && ' ' !in r.value.fileName
  {
    var format := if StartsWith(feature, FracPrefix) then Percent else Dollars;
    if feature !in FeatureNames then Failure(MissingKey(feature))
    else
      var stem := ReplaceChar(FeatureNames[feature], ' ', '-');
      var name := stem + ".png";
      assert ' ' !in ".png";
      assert name[|name| - 4..] == ".png";
      Success(Chart(format, name))
  }

  /** The file name is the label with its spaces turned into dashes, so a
      label without dashes can be recovered from it. */
  lemma ChartFileNameLabel(feature: string)
    requires feature in FeatureNames
    ensures var name := ChartSpec(feature).value.fileName;
            |name| == |FeatureNames[feature]| + 4 &&
            name[..|name| - 4] == ReplaceChar(FeatureNames[feature], ' ', '-') &&
            ('-' !in FeatureNames[feature] ==> ReplaceChar(name[..|name| - 4], '-', ' ') == FeatureNames[feature])
  {
    var text := FeatureNames[feature];
    if '-' !in text {
      ReplaceCharInverse(text, ' ', '-');
    }
  }

  /** The income column is the only labelled feature drawn with dollars. */
  lemma OnlyIncomeInDollars(feature: string)
    requires feature in FeatureNames
    ensures ChartSpec(feature).value.format == Dollars <==> feature == MedianHouseholdIncomeForRenters2018Usd
  {
    FeatureKeyForms(feature);
    assert MedianHouseholdIncomeForRenters2018Usd[0] == 'B';
  }

  /** The row test of `dropna(subset=...)`: no listed cell is missing. */
  predicate Complete(r: TractRow, subset: seq<string>)
  {
    forall c :: c in subset ==> Cell(r, c).Some?
  }

  function Completer(subset: seq<string>): TractRow -> bool
  {
    r => Complete(r, subset)
  }

  function NotIn(columns: seq<string>): string -> bool
  {
    c => c !in columns
  }

  /** `df.dropna(subset=subset)`: rows with a missing listed cell go; a
      listed column the table lacks raises `KeyError`. */
  function DropNa(t: Table, subset: seq<string>): (r: Result<Table>)
    ensures r.Failure? <==> exists c :: c in subset && c !in t.columns
    ensures r.Failure? ==> r.error.MissingColumn? && r.error.column in subset && r.error.column !in t.columns
    ensures r.Success? ==> r.value.columns == t.columns
  {
    var missing := Filter(subset, NotIn(t.columns));
    if missing != [] then
      assert missing[0] in missing;
      Failure(MissingColumn(missing[0]))
    else
      assert forall c :: c in subset ==> c in t.columns by {
        forall c | c in subset ensures c in t.columns {
          FilterMembership(subset, NotIn(t.columns), c);
        }
      }
      Success(Table(t.columns, Filter(t.rows, Completer(subset))))
  }

  /** `dropna` is exact and keeps row order: a row survives iff it is in
      the table and complete on the subset. */
  lemma DropNaExact(t: Table, subset: seq<string>, r: TractRow)
    requires DropNa(t, subset).Success?
    ensures r in DropNa(t, subset).value.rows <==> r in t.rows && Complete(r, subset)
    ensures SubseqOf(DropNa(t, subset).value.rows, t.rows)
  {
    FilterMembership(t.rows, Completer(subset), r);
    FilterSubseq(t.rows, Completer(subset));
  }

  /** One row of `df[cols]`. */
  function MatrixRow(r: TractRow, cols: seq<string>): (v: seq<real>)
    requires Complete(r, cols)
    ensures |v| == |cols| && forall j :: 0 <= j < |cols| ==> Cell(r, cols[j]) == Some(v[j])
  {
    seq(|cols|, j requires 0 <= j < |cols| => assert cols[j] in cols; Cell(r, cols[j]).value)
  }

  /** `df[cols]` of a table whose listed cells are all present. */
  function Matrix(t: Table, cols: seq<string>): (x: Frame)
    requires forall r :: r in t.rows ==> Complete(r, cols)
    ensures x.columns == cols && |x.rows| == |t.rows| && Rectangular(x)
  {
    Frame(cols, seq(|t.rows|, i requires 0 <= i < |t.rows| =>
      assert t.rows[i] in t.rows;
      MatrixRow(t.rows[i], cols)))
  }

  /** Lines 208-228 of `main`: choose the features, drop incomplete rows,
      and take `X = df[x_cols]` and `y = df[y_col]`. */
  function PrepareData(t: Table, rentersOnly: bool, yColumn: string): (r: Result<(Frame, seq<real>)>)
    ensures r.Failure? <==> exists c :: c in XCols(t.columns, rentersOnly) + [yColumn] && c !in t.columns
    ensures r.Success? ==> r.value.0.columns == XCols(t.columns, rentersOnly)
    ensures r.Success? ==> Rectangular(r.value.0) && |r.value.1| == |r.value.0.rows|
  {
    var cols := XCols(t.columns, rentersOnly);
    var kept := DropNa(t, cols + [yColumn]);
    if kept.Failure? then Failure(kept.error)
    else
      var d := kept.value;
      assert forall r :: r in d.rows ==> Complete(r, cols) && Complete(r, [yColumn]) by {
        forall r | r in d.rows ensures Complete(r, cols) && Complete(r, [yColumn]) {
          DropNaExact(t, cols + [yColumn], r);
        }
      }
      var x := Matrix(d, cols);
      var y := Matrix(d, [yColumn]);
      Success((x, seq(|y.rows|, i requires 0 <= i < |y.rows| => y.rows[i][0])))
  }

  /** Every row of X comes from a complete row of the table, in order: row
      `i` of X holds the feature cells of the `i`-th surviving row. */
  lemma PrepareDataRows(t: Table, rentersOnly: bool, yColumn: string, i: nat, j: nat)
    requires PrepareData(t, rentersOnly, yColumn).Success?
    requires i < |PrepareData(t, rentersOnly, yColumn).value.0.rows|
    requires j < |XCols(t.columns, rentersOnly)|
    ensures var d := DropNa(t, XCols(t.columns, rentersOnly) + [yColumn]).value;
            var x := PrepareData(t, rentersOnly, yColumn).value.0;
            i < |d.rows| && d.rows[i] in t.rows &&
            Cell(d.rows[i], XCols(t.columns, rentersOnly)[j]) == Some(x.rows[i][j]) &&
            Cell(d.rows[i], yColumn) == Some(PrepareData(t, rentersOnly, yColumn).value.1[i])
  {
    var cols := XCols(t.columns, rentersOnly);
    var d := DropNa(t, cols + [yColumn]).value;
    assert d.rows[i] in d.rows;
    DropNaExact(t, cols + [yColumn], d.rows[i]);
    assert cols[j] in cols + [yColumn];
    assert yColumn in cols + [yColumn];
  }

  /** The bucketed-impact table: one column per feature, side by side. */
  datatype ColumnTable = ColumnTable(names: seq<string>, columns: seq<seq<real>>)

  /** The `pd.concat(..., axis="columns")` of the bucketed impact of each
      feature, renamed after the feature; `bucketed` stands for the external
      model's `bucketed_impact(X, feature)["impact"]`. */
  function BucketedTable(xCols: seq<string>, bucketed: string -> seq<real>): (b: ColumnTable)
    ensures b.names == xCols && |b.columns| == |xCols|
  {
    ColumnTable(xCols, seq(|xCols|, i requires 0 <= i < |xCols| => bucketed(xCols[i])))
  }

  /** The first column of the table with this name. */
  function Lookup(b: ColumnTable, name: string): Option<seq<real>>
    decreases |b.names|
  {
    if b.names == [] || b.columns == [] then None
    else if b.names[0] == name then Some(b.columns[0])
    else Lookup(ColumnTable(b.names[1..], b.columns[1..]), name)
  }

  /** Looking a feature up in the bucketed table gives that feature's
      impacts; a name that is not a feature is not a column. */
  lemma {:induction false} BucketedLookup(xCols: seq<string>, bucketed: string -> seq<real>, name: string)
    ensures Lookup(BucketedTable(xCols, bucketed), name) == if name in xCols then Some(bucketed(name)) else None
  {
    if xCols != [] {
      var b := BucketedTable(xCols, bucketed);
      assert ColumnTable(b.names[1..], b.columns[1..]) == BucketedTable(xCols[1..], bucketed);
      BucketedLookup(xCols[1..], bucketed, name);
    }
  }
}
