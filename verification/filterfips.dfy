/** `filterfips.py`: the requested counties with enough usable tracts to fit
    a model. */
module FilterFips {
  import opened Wrappers
  import opened Seqs
  import opened Strings
  import opened Tables
  import opened Variables

  /** The `--threshold` default. */
  const DefaultThreshold: int := 10

  /** A row counts for a county when it is in the county and its target is present. */
  predicate Counted(r: TractRow, fips: string, yColumn: string)
  {
    InCounty(r, SplitFips(fips).0, SplitFips(fips).1) && Cell(r, yColumn).Some?
  }

  function Counter(fips: string, yColumn: string): TractRow -> bool
  {
    r => Counted(r, fips, yColumn)
  }

  /** `len(df_county.index)`. */
  function RowCount(t: Table, fips: string, yColumn: string): nat
  {
    |Filter(t.rows, Counter(fips, yColumn))|
  }

  /** The threshold test: a county is kept unless it has fewer rows than the threshold. */
  function Usable(t: Table, yColumn: string, threshold: int): string -> bool
  {
    fips => !(RowCount(t, fips, yColumn) < threshold)
  }

  /** The specification of `good_fips`: the requested codes that pass the test, in order. */
  function GoodFipsOf(t: Table, fipsList: seq<string>, yColumn: string, threshold: int): seq<string>
  {
    Filter(fipsList, Usable(t, yColumn, threshold))
  }

  /** The loop of `main`. The target column is looked up inside the loop, so a
      table without it fails only when some county is requested. */
  method GoodFips(t: Table, yColumn: string, threshold: int, fipsList: seq<string>)
    returns (r: Result<seq<string>>)
    ensures r.Failure? <==> fipsList != [] && yColumn !in t.columns
    ensures r.Failure? ==> r.error == MissingColumn(yColumn)
    ensures r.Success? ==> r.value == GoodFipsOf(t, fipsList, yColumn, threshold)
  {
    var good: seq<string> := [];
    for i := 0 to |fipsList|
      invariant good == GoodFipsOf(t, fipsList[..i], yColumn, threshold)
      invariant i > 0 ==> yColumn in t.columns
    {
      if yColumn !in t.columns {
        return Failure(MissingColumn(yColumn));
      }
      var fips := fipsList[i];
      var count := |Filter(t.rows, Counter(fips, yColumn))|;
      FilterAppend(fipsList[..i], [fips], Usable(t, yColumn, threshold));
      assert fipsList[..i + 1] == fipsList[..i] + [fips];
      if count < threshold {
        // Too few rows: the county is skipped.
      } else {
        good := good + [fips];
      }
    }
    assert fipsList[..|fipsList|] == fipsList;
    return Success(good);
  }

  /** The line printed: the kept codes joined by single spaces. */
  function PrintedLine(good: seq<string>): string
  {
    Join(good, ' ')
  }

  /** A code is in the result exactly when it was requested and its county
      has at least `threshold` rows with a target; kept codes keep their
      request order, and a code requested twice is reported twice. */
  lemma GoodFipsExact(t: Table, fipsList: seq<string>, yColumn: string, threshold: int, fips: string)
    ensures fips in GoodFipsOf(t, fipsList, yColumn, threshold) <==>
              fips in fipsList && RowCount(t, fips, yColumn) >= threshold
    ensures SubseqOf(GoodFipsOf(t, fipsList, yColumn, threshold), fipsList)
    ensures multiset(GoodFipsOf(t, fipsList, yColumn, threshold))[fips] ==
              if RowCount(t, fips, yColumn) >= threshold then multiset(fipsList)[fips] else 0
  {
    FilterMembership(fipsList, Usable(t, yColumn, threshold), fips);
    FilterSubseq(fipsList, Usable(t, yColumn, threshold));
    FilterMultiset(fipsList, Usable(t, yColumn, threshold), fips);
  }

  /** At the default threshold, a county with fewer than ten rows that have
      a target is dropped. */
  lemma FewerThanDefaultDropped(t: Table, fipsList: seq<string>, yColumn: string, fips: string)
    requires RowCount(t, fips, yColumn) < DefaultThreshold
    ensures fips !in GoodFipsOf(t, fipsList, yColumn, DefaultThreshold)
  {
    GoodFipsExact(t, fipsList, yColumn, DefaultThreshold, fips);
  }

  /** Raising the threshold can only remove codes from the result. */
  lemma ThresholdMonotone(t: Table, fipsList: seq<string>, yColumn: string, low: int, high: int)
    requires low <= high
    ensures SubseqOf(GoodFipsOf(t, fipsList, yColumn, high), GoodFipsOf(t, fipsList, yColumn, low))
  {
    FilterStronger(fipsList, Usable(t, yColumn, low), Usable(t, yColumn, high));
  }

  /** Rows whose target is missing are never counted: adding any number of
      them changes neither a county's count nor the result. */
  lemma MissingTargetsNotCounted(t: Table, extra: seq<TractRow>, fipsList: seq<string>, yColumn: string, threshold: int)
    requires forall k :: 0 <= k < |extra| ==> Cell(extra[k], yColumn).None?
    ensures forall fips :: RowCount(Table(t.columns, t.rows + extra), fips, yColumn) == RowCount(t, fips, yColumn)
    ensures GoodFipsOf(Table(t.columns, t.rows + extra), fipsList, yColumn, threshold)
            == GoodFipsOf(t, fipsList, yColumn, threshold)
  {
    var t' := Table(t.columns, t.rows + extra);
    forall fips ensures RowCount(t', fips, yColumn) == RowCount(t, fips, yColumn) {
      FilterAppend(t.rows, extra, Counter(fips, yColumn));
      FilterNone(extra, Counter(fips, yColumn));
    }
    FilterCongruent(fipsList, Usable(t', yColumn, threshold), Usable(t, yColumn, threshold));
  }

  /** The printed line lists the kept codes: splitting it at spaces gives them
      back, provided some code was kept and none contains a space. */
  lemma PrintedLineLists(good: seq<string>)
    requires good != []
    requires forall k :: 0 <= k < |good| ==> ' ' !in good[k]
    ensures Split(PrintedLine(good), ' ') == good
  {
    SplitJoin(good, ' ');
  }
}
