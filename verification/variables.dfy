/** Census variable names and the choice of model features. */
module Variables {
  import opened Strings
  import opened Seqs

  // Population by race and Hispanic origin (census group B03002).
  const GroupHispanicOrLatinoOriginByRace: string := "B03002"
  const TotalPopulation: string := "B03002_001E"
  const TotalHispanicOrLatino: string := "B03002_012E"

  // Tenure (census group B25003) and its race-specific variants.
  const GroupTenurePrefix: string := "B25003"
  const VariableTotalRenters: string := "B25003_003E"
  const GroupTenureWhite: string := "B25003A"
  const GroupTenureBlack: string := "B25003B"
  const GroupTenureAsian: string := "B25003D"
  const GroupTenureHispanicLatino: string := "B25003I"
  const TenureByRaceGroups: seq<string> :=
    [GroupTenureWhite, GroupTenureBlack, GroupTenureAsian, GroupTenureHispanicLatino]

  // Median household income for renters (census group B25119), raw and in 2018 dollars.
  const MedianHouseholdIncomeForRenters: string := "B25119_003E"
  const MedianHouseholdIncomeForRenters2018Usd: string := MedianHouseholdIncomeForRenters + "_2018"

  const FracPrefix: string := "frac_"

  /** Chart labels of the features. */
  const FeatureNames: map<string, string> := map[
    FracPrefix + "B03002_003E" := "White Alone as Percentage of Overall Population",
    FracPrefix + "B03002_004E" := "Black Alone as Percentage of Overall Population",
    FracPrefix + "B03002_005E" := "American Indian or Alaskan Native Alone as Percentage of Overall Population",
    FracPrefix + "B03002_006E" := "Asian Alone as Percentage of Overall Population",
    FracPrefix + "B03002_007E" := "Native Hawaiian or Other Pacific Islander Alone as Percentage of Overall Population",
    FracPrefix + "B03002_008E" := "Some Other Race Alone as Percentage of Overall Population",
    FracPrefix + "B03002_010E" := "Two races Including Some Other Race as Percentage of Overall Population",
    FracPrefix + "B03002_011E" := "Two races Excluding Some Other Race, or Three or More Races as Percentage of Overall Population",
    FracPrefix + "B03002_012E" := "Hispanic or Latino of Any Race as Percentage of Overall Population",
    FracPrefix + "B25003A_003E" := "White Alone as Percentage of Renters",
    FracPrefix + "B25003B_003E" := "Black Alone as Percentage of Renters",
    FracPrefix + "B25003C_003E" := "American Indian or Alaskan Native Alone as Percentage of Renters",
    FracPrefix + "B25003D_003E" := "Asian Alone as Percentage of Renters",
    FracPrefix + "B25003E_003E" := "Native Hawaiian or Other Pacific Islander Alone as Percentage of Renters",
    FracPrefix + "B25003F_003E" := "Some Other Race Alone as Percentage of Renters",
    FracPrefix + "B25003G_003E" := "Two races Including Some Other Race as Percentage of Renters",
    FracPrefix + "B25003H_003E" := "Two races Excluding Some Other Race, or Three or More Races as Percentage of Renters",
    FracPrefix + "B25003I_003E" := "Hispanic or Latino of any Race as Percentage of Renters",
    MedianHouseholdIncomeForRenters2018Usd := "Median Household Income for Renters - 2018 Dollars"
  ]

  /** Every labelled feature but the income column is a `frac_` column. */
  lemma FeatureKeyForms(f: string)
    requires f in FeatureNames
    ensures f == MedianHouseholdIncomeForRenters2018Usd || StartsWith(f, FracPrefix)
  {
  }

  /** The column test of the feature comprehension: a member of the census
      group other than the group's total. */
  predicate Qualifies(column: string, rentersOnly: bool)
  {
    if rentersOnly then StartsWith(column, GroupTenurePrefix) && column != VariableTotalRenters
    else StartsWith(column, GroupHispanicOrLatinoOriginByRace) && column != TotalPopulation
  }

  function Qualifier(rentersOnly: bool): string -> bool
  {
    c => Qualifies(c, rentersOnly)
  }

  function FracNames(columns: seq<string>): (r: seq<string>)
    ensures |r| == |columns|
  {
    seq(|columns|, i requires 0 <= i < |columns| => FracPrefix + columns[i])
  }

  /** `x_cols(df, renters_only)`: the income column in 2018 dollars, then
      `frac_<c>` for every qualifying column `c` of the table, in column order. */
  function XCols(columns: seq<string>, rentersOnly: bool): (cols: seq<string>)
    ensures |cols| == 1 + |Filter(columns, Qualifier(rentersOnly))|
    ensures cols[0] == MedianHouseholdIncomeForRenters2018Usd
  {
    [MedianHouseholdIncomeForRenters2018Usd] + FracNames(Filter(columns, Qualifier(rentersOnly)))
  }

  /** Every entry after the first is `frac_` followed by a qualifying column
      of the table. */
  lemma XColsFractions(columns: seq<string>, rentersOnly: bool)
    ensures var cols := XCols(columns, rentersOnly);
            forall i :: 1 <= i < |cols| ==>
              StartsWith(cols[i], FracPrefix) && cols[i][|FracPrefix|..] in columns &&
              Qualifies(cols[i][|FracPrefix|..], rentersOnly)
  {
    var kept := Filter(columns, Qualifier(rentersOnly));
    var cols := XCols(columns, rentersOnly);
    forall i | 1 <= i < |cols|
      ensures StartsWith(cols[i], FracPrefix) && cols[i][|FracPrefix|..] in columns &&
              Qualifies(cols[i][|FracPrefix|..], rentersOnly)
    {
      assert cols[i] == FracPrefix + kept[i - 1];
      assert cols[i][|FracPrefix|..] == kept[i - 1];
      assert kept[i - 1] in kept;
    }
  }

  /** Every qualifying column of the table contributes its `frac_` entry. */
  lemma XColsComplete(columns: seq<string>, rentersOnly: bool, c: string)
    requires c in columns && Qualifies(c, rentersOnly)
    ensures FracPrefix + c in XCols(columns, rentersOnly)[1..]
  {
    var kept := Filter(columns, Qualifier(rentersOnly));
    FilterMembership(columns, Qualifier(rentersOnly), c);
    var k :| 0 <= k < |kept| && kept[k] == c;
    assert XCols(columns, rentersOnly)[1..][k] == FracPrefix + c;
  }

  function StripFrac(cols: seq<string>): (r: seq<string>)
    ensures |r| == |cols|
  {
    seq(|cols|, i requires 0 <= i < |cols| => if |FracPrefix| <= |cols[i]| then cols[i][|FracPrefix|..] else cols[i])
  }

  /** With the `frac_` prefix removed, the feature entries are exactly the
      qualifying columns in table order, so they follow the table's order. */
  lemma XColsOrder(columns: seq<string>, rentersOnly: bool)
    ensures StripFrac(XCols(columns, rentersOnly)[1..]) == Filter(columns, Qualifier(rentersOnly))
    ensures SubseqOf(StripFrac(XCols(columns, rentersOnly)[1..]), columns)
  {
    var kept := Filter(columns, Qualifier(rentersOnly));
    var tail := XCols(columns, rentersOnly)[1..];
    assert tail == FracNames(kept);
    forall i | 0 <= i < |kept| ensures StripFrac(tail)[i] == kept[i] {
      assert tail[i] == FracPrefix + kept[i];
      assert tail[i][|FracPrefix|..] == kept[i];
    }
    FilterSubseq(columns, Qualifier(rentersOnly));
  }

  /** The feature list has no duplicates when the table's columns have none:
      the income entry does not start with `frac_`, and distinct columns give
      distinct `frac_` names. */
  lemma XColsDistinct(columns: seq<string>, rentersOnly: bool)
    requires Distinct(columns)
    ensures Distinct(XCols(columns, rentersOnly))
  {
    var cols := XCols(columns, rentersOnly);
    var kept := Filter(columns, Qualifier(rentersOnly));
    FilterDistinct(columns, Qualifier(rentersOnly));
    forall i, j | 0 <= i < j < |cols| ensures cols[i] != cols[j] {
      assert cols[j] == FracPrefix + kept[j - 1];
      if i == 0 {
        assert cols[j][1] == FracPrefix[1] == 'r';
        assert cols[0] == "B25119_003E_2018";
        assert cols[0][1] == '2';
      } else {
        assert cols[i] == FracPrefix + kept[i - 1];
        assert cols[i][|FracPrefix|..] == kept[i - 1] != kept[j - 1] == cols[j][|FracPrefix|..];
      }
    }
  }

  /** The two census-group prefixes disagree at their second character, so
      neither is a prefix of the other and no column qualifies in both branches. */
  lemma BranchesNeverMix(c: string)
    ensures !StartsWith(GroupTenurePrefix, GroupHispanicOrLatinoOriginByRace)
    ensures !StartsWith(GroupHispanicOrLatinoOriginByRace, GroupTenurePrefix)
    ensures !(Qualifies(c, true) && Qualifies(c, false))
  {
    assert GroupTenurePrefix[1] != GroupHispanicOrLatinoOriginByRace[1];
  }

  /** Renter fractions and population fractions never share an entry. */
  lemma FeatureSetsDisjoint(columns: seq<string>, other: seq<string>)
    ensures forall f :: f in XCols(columns, true)[1..] ==> f !in XCols(other, false)[1..]
  {
    var renters, population := XCols(columns, true), XCols(other, false);
    XColsFractions(columns, true);
    XColsFractions(other, false);
    forall f | f in renters[1..] ensures f !in population[1..] {
      var i :| 0 <= i < |renters| - 1 && renters[1..][i] == f;
      assert renters[i + 1] == f;
      BranchesNeverMix(f[|FracPrefix|..]);
    }
  }

  /** The match is a plain prefix test, so race-specific renter groups such as
      B25003A qualify in the renter branch. */
  lemma RaceSpecificRenterGroupsQualify()
    ensures Qualifies("B25003A_003E", true)
    ensures XCols(["B25003A_003E", "B25003_003E", "B03002_003E"], true)
            == ["B25119_003E_2018", "frac_B25003A_003E"]
  {
    var cols := ["B25003A_003E", "B25003_003E", "B03002_003E"];
    var q := Qualifier(true);
    assert q(cols[0]);
    assert !q(cols[1]);
    assert !q(cols[2]) by {
      assert cols[2][1] == '0';
    }
    assert Filter(cols[2..], q) == [];
    assert Filter(cols[1..], q) == [];
    assert Filter(cols, q) == ["B25003A_003E"];
    var names := FracNames(["B25003A_003E"]);
    assert |names| == 1 && names[0] == "frac_B25003A_003E";
    assert names == ["frac_B25003A_003E"];
    assert MedianHouseholdIncomeForRenters2018Usd == "B25119_003E_2018";
  }

  /** `cofips_name`'s split of a county code: `fips[:2]` and `fips[2:]`.
      Python slicing clips at the end, so a short code yields a short state
      part and an empty county part. */
  function SplitFips(fips: string): (parts: (string, string))
    ensures parts.0 + parts.1 == fips
    ensures |fips| >= 2 ==> |parts.0| == 2
    ensures |fips| == 5 ==> |parts.1| == 3
  {
    var k := if |fips| < 2 then |fips| else 2;
    assert fips[..k] + fips[k..] == fips;
    (fips[..k], fips[k..])
  }
}
