/** Worked examples of the tracker's behaviour on small tables. */
module Scenarios {
  import opened Wrappers
  import opened Records
  import opened Cleaning
  import opened CountryQuery
  import opened StatsSummary
  import Strings

  function Row(location: string, date: Date, cases: Option<real>, deaths: Option<real>): Record
  {
    Record(location, date, cases, deaths, Some(0.0), Some(0.0), Some(0.0))
  }

  /** Two days of figures: the second day is reported, with a 2% fatality rate. */
  lemma TestlandReportsSecondDay()
    ensures var df := [Row("Testland", Date(2021, 1, 1), Some(100.0), Some(2.0)),
                       Row("Testland", Date(2021, 1, 2), Some(150.0), Some(3.0))];
            CountryStats(df, "Testland") == Stats(Snapshot(Date(2021, 1, 2), 150, 3, None, Some(2.0)))
  {
    var df := [Row("Testland", Date(2021, 1, 1), Some(100.0), Some(2.0)),
               Row("Testland", Date(2021, 1, 2), Some(150.0), Some(3.0))];
    assert df[..1] == [df[0]];
    assert CountryData(df, "Testland") == df;
  }

  /** A country whose only row lacks both totals disappears when the table is cleaned. */
  lemma EmptylandIsDropped()
    ensures var df := [Record("Emptyland", Date(2021, 1, 1), None, None, None, None, None)];
            && CleanData(df) == []
            && CountryStats(CleanData(df), "Emptyland") == NotFound
  {
    var df := [Record("Emptyland", Date(2021, 1, 1), None, None, None, None, None)];
    assert df[..0] == [];
  }

  /** The listing removes the repeated name and sorts the rest. */
  lemma ListingIsSortedAndDistinct()
    ensures var d := Date(2021, 1, 1);
            var df := [Row("Brazil", d, Some(1.0), None), Row("Chad", d, Some(1.0), None),
                       Row("Brazil", d, Some(1.0), None), Row("Aland", d, Some(1.0), None)];
            AvailableCountries(df) == ["Aland", "Brazil", "Chad"]
  {
    var d := Date(2021, 1, 1);
    var df := [Row("Brazil", d, Some(1.0), None), Row("Chad", d, Some(1.0), None),
               Row("Brazil", d, Some(1.0), None), Row("Aland", d, Some(1.0), None)];
    assert df[..1] == [df[0]];
    assert df[..2][..1] == [df[0]];
    assert df[..3][..2] == df[..2];
    assert AvailableCountries(df[..1]) == ["Brazil"];
    assert !Strings.Less("Chad", "Brazil") && Strings.Less("Aland", "Brazil");
    assert AvailableCountries(df[..2]) == Strings.InsertSorted(["Brazil"], "Chad");
    assert AvailableCountries(df[..2]) == ["Brazil", "Chad"];
    assert AvailableCountries(df[..3]) == ["Brazil", "Chad"];
  }
}
