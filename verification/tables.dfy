/** The per-tract input table that `join.py` writes and the scripts read back
    with pandas, forcing the STATE, COUNTY and TRACT columns to strings.
    STATE, COUNTY and TRACT are text; every other column is numeric and may
    be missing (NaN), which is `None` here. The tract code is read by no
    operation modelled here, so a row does not carry it. */
module Tables {
  import opened Wrappers

  datatype TractRow = TractRow(state: Option<string>, county: Option<string>, cells: map<string, Option<real>>)

  /** `columns` are the numeric columns of the file, in file order. */
  datatype Table = Table(columns: seq<string>, rows: seq<TractRow>)

  /** The value of a numeric cell; a row without the column reads as missing. */
  function Cell(r: TractRow, column: string): Option<real>
  {
    if column in r.cells then r.cells[column] else None
  }

  /** `(df["STATE"] == state) & (df["COUNTY"] == county)` for one row; a
      missing code never compares equal. */
  predicate InCounty(r: TractRow, state: string, county: string)
  {
    r.state == Some(state) && r.county == Some(county)
  }
}
