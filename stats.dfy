/**
  The decision logic of the per-country statistics view: which row is
  reported, which figures are shown, and when the fatality rate is given.
  The printing itself is not modelled; the figures it would print are.
 */
module StatsSummary {
  import opened Wrappers
  import opened Records
  import opened Cleaning
  import opened CountryQuery

  /** `n` is `x` with its fractional part dropped (rounding toward zero). */
  predicate IsTruncation(n: int, x: real)
  {
    && (x >= 0.0 ==> n as real <= x < n as real + 1.0)
    && (x < 0.0 ==> n as real - 1.0 < x <= n as real)
  }

  /** Python's `int(x)` on a float that is a number. */
  function Trunc(x: real): (n: int)
    ensures IsTruncation(n, x)
    ensures x >= 0.0 ==> n >= 0
  {
    if x >= 0.0 then x.Floor else -((-x).Floor)
  }

  /** The figures shown for a country. */
  datatype Snapshot = Snapshot(
    date: Date,
    totalCases: int,
    totalDeaths: int,
    totalVaccinations: Option<int>,
    fatalityRate: Option<real>)

  /**
    What the statistics view ends in: no rows for the country, the figures
    shown, or the `ValueError` that `int()` raises on a missing (NaN) total.
   */
  datatype Summary = NotFound | Stats(snapshot: Snapshot) | MissingTotal

  /** `snap` gives the figures of `row` as the statistics view states them. */
  predicate ReportsRow(snap: Snapshot, row: Record)
  {
    && snap.date == row.date
    && row.totalCases.Some? && row.totalDeaths.Some?
    && IsTruncation(snap.totalCases, row.totalCases.value)
    && IsTruncation(snap.totalDeaths, row.totalDeaths.value)
    && (snap.totalVaccinations.Some? <==>
          row.totalVaccinations.Some? && row.totalVaccinations.value > 0.0)
    && (snap.totalVaccinations.Some? ==>
          IsTruncation(snap.totalVaccinations.value, row.totalVaccinations.value))
    && (snap.fatalityRate.Some? <==> row.totalCases.value > 0.0)
    && (snap.fatalityRate.Some? ==>
          snap.fatalityRate.value * row.totalCases.value == row.totalDeaths.value * 100.0)
  }

  /** `int()` succeeds on both totals of the row. */
  predicate HasTotals(row: Record)
  {
    row.totalCases.Some? && row.totalDeaths.Some?
  }

  /** The figures of the last row of a slice (`iloc[-1]`), whose totals are present. */
  function SnapshotOf(row: Record): (snap: Snapshot)
    requires HasTotals(row)
    ensures ReportsRow(snap, row)
  {
    var cases := row.totalCases.value;
    var deaths := row.totalDeaths.value;
    var vaccinations := row.totalVaccinations.GetOr(0.0);
    Snapshot(
      row.date,
      Trunc(cases),
      Trunc(deaths),
      if row.totalVaccinations.Some? && vaccinations > 0.0 then Some(Trunc(vaccinations)) else None,
      if cases > 0.0 then Some(deaths / cases * 100.0) else None)
  }

  /** The guards of the statistics view applied to a country's slice. */
  function Summarize(slice: Table): (s: Summary)
    ensures s.NotFound? <==> slice == []
    ensures s.MissingTotal? <==> slice != [] && !HasTotals(slice[|slice| - 1])
    ensures s.Stats? ==> ReportsRow(s.snapshot, slice[|slice| - 1])
  {
    if |slice| == 0 then NotFound
    else
      var latest := slice[|slice| - 1];
      if !HasTotals(latest) then MissingTotal
      else Stats(SnapshotOf(latest))
  }

  /** `display_country_stats(df, country)` without the printing. */
  function CountryStats(df: Table, country: string): (s: Summary)
    ensures s.NotFound? <==> !IsKnownCountry(df, country)
    ensures s.MissingTotal? <==> exists i :: IsLastMatch(df, country, i) && !HasTotals(df[i])
    ensures s.Stats? ==> exists i :: IsLastMatch(df, country, i) && ReportsRow(s.snapshot, df[i])
  {
    SummaryOfCountry(df, country);
    Summarize(CountryData(df, country))
  }

  /** The outcome of summarizing a country's slice, in terms of the table's last row for it. */
  lemma SummaryOfCountry(df: Table, country: string)
    ensures var s := Summarize(CountryData(df, country));
            && (s.NotFound? <==> !IsKnownCountry(df, country))
            && (s.MissingTotal? <==> exists i :: IsLastMatch(df, country, i) && !HasTotals(df[i]))
            && (s.Stats? ==> exists i :: IsLastMatch(df, country, i) && ReportsRow(s.snapshot, df[i]))
  {
    KnownIffSliceNonEmpty(df, country);
    if CountryData(df, country) != [] {
      SliceEndsAtLastMatch(df, country);
      var i :| IsLastMatch(df, country, i);
      SummaryAtLastMatch(df, country, i);
      forall k | IsLastMatch(df, country, k) ensures k == i {
        LastMatchUnique(df, country, i, k);
      }
    }
  }

  /** The slice's summary is decided by the table's last row for the country. */
  lemma SummaryAtLastMatch(df: Table, country: string, i: int)
    requires IsLastMatch(df, country, i)
    ensures Summarize(CountryData(df, country)).MissingTotal? <==> !HasTotals(df[i])
    ensures Summarize(CountryData(df, country)).Stats? ==>
              ReportsRow(Summarize(CountryData(df, country)).snapshot, df[i])
  {
    var slice := CountryData(df, country);
    assert slice != [] by {
      assert df[i] in slice;
    }
    var row := slice[|slice| - 1];
    assert df[i] == row by {
      SliceEndsAtLastMatch(df, country);
    }
    var s := Summarize(slice);
    assert s.MissingTotal? <==> !HasTotals(row);
    assert s.Stats? ==> ReportsRow(s.snapshot, row);
  }

  /** On a cleaned table the statistics view never meets a missing total. */
  lemma CleanedStatsNeverMissTotals(df: Table, country: string)
    ensures !CountryStats(CleanData(df), country).MissingTotal?
  {
    var slice := CountryData(CleanData(df), country);
    if slice != [] {
      assert slice[|slice| - 1] in CleanData(df);
    }
  }

  /** The rows are in ascending date order, as the downloaded table is per location. */
  predicate SortedByDate(slice: Table)
  {
    forall i, j :: 0 <= i < j < |slice| ==> DateLe(slice[i].date, slice[j].date)
  }

  /**
    When the slice is in date order, the reported row carries its latest
    date; among rows sharing that date, it is the last one.
   */
  lemma ReportedRowIsLatest(slice: Table)
    requires SortedByDate(slice)
    requires Summarize(slice).Stats?
    ensures forall i :: 0 <= i < |slice| ==> DateLe(slice[i].date, Summarize(slice).snapshot.date)
  {
  }
}
