/**
  Queries on the cleaned table: the rows of one location, the list of known
  locations, and the membership test the menu uses before showing a country.
 */
module CountryQuery {
  import opened Records
  import opened Sequences
  import opened Strings

  /** The row mask `df['location'] == country`. */
  function AtLocation(country: string): Record -> bool
  {
    (x: Record) => x.location == country
  }

  /** `get_country_data`: the rows whose location is exactly `country`. */
  function CountryData(df: Table, country: string): (r: Table)
    ensures |r| <= |df|
    ensures forall x :: x in r ==> x in df && x.location == country
    ensures forall i :: 0 <= i < |df| && df[i].location == country ==> df[i] in r
    ensures r == [] <==> forall i :: 0 <= i < |df| ==> df[i].location != country
  {
    var r := Filter(df, AtLocation(country));
    assert r != [] ==> r[0] in df;
    r
  }

  /**
    The slice is exactly the rows of `country`, in their original relative
    order: its k-th row is the row at the k-th matching position.
   */
  lemma CountryDataInOrder(df: Table, country: string)
    ensures |CountryData(df, country)| == |Positions(df, AtLocation(country))|
    ensures forall k :: 0 <= k < |Positions(df, AtLocation(country))| ==>
              CountryData(df, country)[k] == df[Positions(df, AtLocation(country))[k]]
    ensures forall i :: 0 <= i < |df| ==>
              (i in Positions(df, AtLocation(country)) <==> df[i].location == country)
  {
    FilterAtPositions(df, AtLocation(country));
  }

  /** Row `i` has location `country` and no later row does. */
  predicate IsLastMatch(df: Table, country: string, i: int)
  {
    && 0 <= i < |df|
    && df[i].location == country
    && forall j :: i < j < |df| ==> df[j].location != country
  }

  /** A table has at most one last row for a location. */
  lemma LastMatchUnique(df: Table, country: string, i: int, k: int)
    requires IsLastMatch(df, country, i) && IsLastMatch(df, country, k)
    ensures i == k
  {
  }

  /** The last row of a non-empty slice is the last row of the table with that location. */
  lemma {:induction false} SliceEndsAtLastMatch(df: Table, country: string)
    requires CountryData(df, country) != []
    ensures exists i :: IsLastMatch(df, country, i)
    ensures forall i :: IsLastMatch(df, country, i) ==>
              df[i] == CountryData(df, country)[|CountryData(df, country)| - 1]
  {
    var slice := CountryData(df, country);
    var p := Positions(df, AtLocation(country));
    CountryDataInOrder(df, country);
    NothingKeptAfterLastPosition(df, AtLocation(country));
    var i := p[|p| - 1];
    assert df[i] == slice[|slice| - 1] && IsLastMatch(df, country, i);
    forall k | IsLastMatch(df, country, k) ensures df[k] == slice[|slice| - 1] {
      LastMatchUnique(df, country, i, k);
    }
  }

  /** `country in df['location'].values`, the test the menu applies. */
  predicate IsKnownCountry(df: Table, country: string)
    ensures IsKnownCountry(df, country) <==> country in Locations(df)
  {
    exists i :: 0 <= i < |df| && df[i].location == country
  }

  /** The menu's membership test holds exactly when the country's slice is non-empty. */
  lemma KnownIffSliceNonEmpty(df: Table, country: string)
    ensures IsKnownCountry(df, country) <==> CountryData(df, country) != []
  {
  }

  /** `get_available_countries`: the distinct locations, sorted ascending. */
  function AvailableCountries(df: Table): (r: seq<string>)
    ensures StrictlyAscending(r)
    ensures forall x :: x in r <==> x in Locations(df)
    decreases |df|
  {
    if df == [] then []
    else
      var init := df[..|df| - 1];
      var r := InsertSorted(AvailableCountries(init), df[|df| - 1].location);
      assert Locations(df) == Locations(init) + {df[|df| - 1].location} by {
        assert df == init + [df[|df| - 1]];
      }
      r
  }

  /** The list has one entry per distinct location. */
  lemma {:induction false} AvailableCountriesCount(df: Table)
    ensures |AvailableCountries(df)| == |Locations(df)|
  {
    var r := AvailableCountries(df);
    DistinctCardinality(r);
    assert (set x | x in r) == Locations(df);
  }

  /** A sequence without repetition has as many elements as its set. */
  lemma {:induction false} DistinctCardinality(s: seq<string>)
    requires StrictlyAscending(s)
    ensures |set x | x in s| == |s|
    decreases |s|
  {
    if s != [] {
      DistinctCardinality(s[1..]);
      LessIrreflexive(s[0]);
      assert (set x | x in s) == (set x | x in s[1..]) + {s[0]};
      assert s[0] !in s[1..];
    }
  }
}
