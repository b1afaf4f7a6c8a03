/** `select.py`: one CSV per requested county holding that county's tracts,
    with the top-coded incomes removed. */
module Select {
  import opened Wrappers
  import opened Seqs
  import opened Tables
  import opened Variables

  /** The census top-codes renter median incomes over $250,000 as 250,001;
      rows above this cap are dropped. */
  const IncomeCap: real := 250000.0

  /** The boolean mask of `main`: the row is in the county and its renter
      median income is present and at most the cap (a missing income compares
      false). */
  predicate Keep(r: TractRow, state: string, county: string)
  {
    InCounty(r, state, county) &&
    Cell(r, MedianHouseholdIncomeForRenters).Some? &&
    Cell(r, MedianHouseholdIncomeForRenters).value <= IncomeCap
  }

  function Keeper(state: string, county: string): TractRow -> bool
  {
    r => Keep(r, state, county)
  }

  /** `df_county` for one requested county code. */
  function CountyRows(t: Table, fips: string): seq<TractRow>
  {
    Filter(t.rows, Keeper(SplitFips(fips).0, SplitFips(fips).1))
  }

  /** One written file: its name and its rows. */
  datatype CountyFile = CountyFile(name: string, rows: seq<TractRow>)

  /** The loop of `main`: one file `<fips>.csv` per requested code, in the
      order requested, even when no row matches. The income column is looked
      up inside the loop, so a table without it fails only when some county is
      requested. */
  method SelectCounties(t: Table, fipsList: seq<string>) returns (r: Result<seq<CountyFile>>)
    ensures r.Failure? <==> fipsList != [] && MedianHouseholdIncomeForRenters !in t.columns
    ensures r.Failure? ==> r.error == MissingColumn(MedianHouseholdIncomeForRenters)
    ensures r.Success? ==> |r.value| == |fipsList|
    ensures r.Success? ==> forall i :: 0 <= i < |fipsList| ==>
              r.value[i] == CountyFile(fipsList[i] + ".csv", CountyRows(t, fipsList[i]))
  {
    var files: seq<CountyFile> := [];
    for i := 0 to |fipsList|
      invariant |files| == i
      invariant forall k :: 0 <= k < i ==> files[k] == CountyFile(fipsList[k] + ".csv", CountyRows(t, fipsList[k]))
      invariant i > 0 ==> MedianHouseholdIncomeForRenters in t.columns
    {
      if MedianHouseholdIncomeForRenters !in t.columns {
        return Failure(MissingColumn(MedianHouseholdIncomeForRenters));
      }
      var fips := fipsList[i];
      files := files + [CountyFile(fips + ".csv", CountyRows(t, fips))];
    }
    return Success(files);
  }

  /** A row is written for a county exactly when it is in the table, carries
      that county's state and county codes (`fips[:2]`, `fips[2:]`) and has a
      renter median income of at most $250,000. */
  lemma CountyRowsExact(t: Table, fips: string, row: TractRow)
    ensures row in CountyRows(t, fips) <==>
              row in t.rows &&
              row.state == Some(SplitFips(fips).0) && row.county == Some(SplitFips(fips).1) &&
              Cell(row, MedianHouseholdIncomeForRenters).Some? &&
              Cell(row, MedianHouseholdIncomeForRenters).value <= 250000.0
  {
    FilterMembership(t.rows, Keeper(SplitFips(fips).0, SplitFips(fips).1), row);
  }

  /** The kept rows are in input order, and a kept row keeps all its copies. */
  lemma CountyRowsOrder(t: Table, fips: string, row: TractRow)
    ensures SubseqOf(CountyRows(t, fips), t.rows)
    ensures Keep(row, SplitFips(fips).0, SplitFips(fips).1) ==>
              multiset(CountyRows(t, fips))[row] == multiset(t.rows)[row]
  {
    FilterSubseq(t.rows, Keeper(SplitFips(fips).0, SplitFips(fips).1));
    FilterMultiset(t.rows, Keeper(SplitFips(fips).0, SplitFips(fips).1), row);
  }

  /** The top-code 250,001 never reaches an output file. */
  lemma TopCodedIncomeExcluded(t: Table, fips: string, row: TractRow)
    requires Cell(row, MedianHouseholdIncomeForRenters) == Some(250001.0)
    ensures row !in CountyRows(t, fips)
  {
    CountyRowsExact(t, fips, row);
  }
}
