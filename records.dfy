/**
  One row of the downloaded table. Only the columns the tracker reads are
  modelled; each numeric column is a float that may be missing (NaN), so it
  is an `Option<real>`. The location and the date are always present.
 */
module Records {
  import opened Wrappers

  /** A calendar date as parsed from the `date` column; carried through unchanged. */
  datatype Date = Date(year: int, month: int, day: int)

  /** Chronological order on dates: year, then month, then day. */
  predicate DateLe(a: Date, b: Date)
  {
    a.year < b.year
    || (a.year == b.year && a.month < b.month)
    || (a.year == b.year && a.month == b.month && a.day <= b.day)
  }

  datatype Record = Record(
    location: string,
    date: Date,
    totalCases: Option<real>,
    totalDeaths: Option<real>,
    newCases: Option<real>,
    newDeaths: Option<real>,
    totalVaccinations: Option<real>)

  /** A table is its rows in frame order. */
  type Table = seq<Record>

  /** Every numeric field of the row is present. */
  predicate Complete(r: Record)
  {
    && r.totalCases.Some?
    && r.totalDeaths.Some?
    && r.newCases.Some?
    && r.newDeaths.Some?
    && r.totalVaccinations.Some?
  }

  /** The set of location names occurring in a table. */
  function Locations(df: Table): set<string>
  {
    set r | r in df :: r.location
  }
}
