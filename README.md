# COVID-19 tracker: table cleaning, country queries and the statistics view

The tracker downloads a table of per-country COVID-19 figures, cleans it
once, and then answers two requests from a text menu: show the latest
figures for a country, and list the known countries. This project models the
in-memory table logic between the download and the charts, as pure Dafny
functions over a table (`seq<Record>`), and proves what each step promises.

- `Records`: a row has a `location`, a `date` and five numeric columns
  (`total_cases`, `total_deaths`, `new_cases`, `new_deaths`,
  `total_vaccinations`). Each numeric column is a float that may be NaN, so
  it is an `Option<real>`.
- `Sequences`: order-preserving selection (`Filter`) and the positions, in the
  table the selection is applied to, of the rows it keeps (`Positions`). Pandas
  index labels are not modelled. Both the drop step and the location mask are
  selections.
- `Cleaning`: `clean_data`. It drops the rows missing both `total_cases` and
  `total_deaths`, then fills every remaining missing value with 0.
- `Strings` and `CountryQuery`: `get_country_data`, `get_available_countries`,
  and the string order that `sorted` uses (lexicographic by code point, a
  prefix first). Also the menu's membership test.
- `StatsSummary`: the guards of `display_country_stats`. An empty slice is
  "not found". Otherwise the last row by position is reported: the totals are
  truncated to integers, vaccinations are shown only when they are above 0,
  and the fatality rate is given only when there are cases.
- `Scenarios`: small worked tables.

The statistics view reports the last row by position (`iloc[-1]`,
covid-19.py:90). That row has the slice's latest date only when the slice is
in date order; `ReportedRowIsLatest` proves this.

`int()` of a NaN total raises `ValueError` at covid-19.py:94-95. The model
keeps this as the `MissingTotal` outcome. `CleanedStatsNeverMissTotals` shows
it cannot happen on a cleaned table, which is the only table the menu uses.

## Model

| member | source | states |
|---|---|---|
| Sequences.Filter | covid-19.py:33 | the selection has only elements of the input that meet the condition, and holds every input element that meets it |
| Sequences.Positions | covid-19.py:42 | the kept positions are in range, strictly increasing, meet the condition, and include every position that meets it |
| Sequences.FilterAtPositions | covid-19.py:42 | the k-th selected element is the input element at the k-th kept position, so the selection is the matching subsequence in order |
| Cleaning.DropMissingCrucial | covid-19.py:31-33 | every kept row has total_cases or total_deaths present, every such input row is kept, and nothing else is added |
| Cleaning.DropKeepsCrucialRowsInOrder | covid-19.py:33 | the drop step keeps exactly the rows with at least one crucial value, as a subsequence of the input in original order |
| Cleaning.FillMissing | covid-19.py:36 | after filling, every numeric field is present; present values are unchanged, missing ones are 0; location and date are unchanged |
| Cleaning.CleanData | covid-19.py:29-38 | the cleaned table is no longer than the input and every row of it is complete |
| Cleaning.CleanDataSpec | covid-19.py:29-38 | row k of the cleaned table is the input row at the k-th crucial position, filled with 0 where values were missing |
| Cleaning.CleanedRowsHaveCrucial | covid-19.py:31-33 | no cleaned row has both total_cases and total_deaths absent |
| Cleaning.CleanDataIdempotent | covid-19.py:29-38 | cleaning an already cleaned table returns it unchanged |
| CountryQuery.CountryData | covid-19.py:40-42 | the slice holds only rows whose location equals the name and every such row; it is empty exactly when no row matches |
| CountryQuery.CountryDataInOrder | covid-19.py:40-42 | the slice is exactly the matching rows in their original relative order |
| CountryQuery.SliceEndsAtLastMatch | covid-19.py:90 | the last row of a non-empty slice is the table row with that location after which no row has it |
| CountryQuery.IsKnownCountry | covid-19.py:125 | the menu's membership test holds exactly when the name is one of the table's locations |
| CountryQuery.LastMatchUnique | covid-19.py:90 | a table has at most one last row for a location |
| CountryQuery.KnownIffSliceNonEmpty | covid-19.py:125 | the menu's `country in df['location'].values` test holds exactly when the country's slice is non-empty |
| CountryQuery.AvailableCountries | covid-19.py:25-27 | the list is strictly ascending (sorted, no duplicates) and its elements are exactly the locations of the table |
| CountryQuery.AvailableCountriesCount | covid-19.py:27 | the list has exactly one entry per distinct location |
| Strings.Less | covid-19.py:27 | Python's `<` on `str`: the first differing code point decides, a proper prefix sorts first, and no string sorts before itself |
| Strings.LessIrreflexive | covid-19.py:27 | no string sorts before itself |
| Strings.LessTransitive | covid-19.py:27 | the string order used by `sorted` is transitive |
| Strings.LessTotal | covid-19.py:27 | any two different strings are ordered one way or the other |
| Strings.InsertSorted | covid-19.py:27 | adding a name to a strictly ascending list keeps it strictly ascending, with the name added to its elements |
| StatsSummary.Trunc | covid-19.py:94-95 | `int()` of a float drops the fractional part, rounding toward zero; non-negative input gives a non-negative result |
| StatsSummary.SnapshotOf | covid-19.py:90-102 | the figures carry the row's date and truncated totals; vaccinations appear iff present and above 0; the rate appears iff cases are above 0, and then rate times cases equals deaths times 100 |
| StatsSummary.Summarize | covid-19.py:86-102 | an empty slice is NotFound; a last row missing a total is the ValueError outcome; otherwise the figures are those of the last row |
| StatsSummary.CountryStats | covid-19.py:82-102 | not found exactly when no row has the location; the ValueError outcome exactly when the table's last row with that location misses a total; otherwise the figures are those of that row |
| StatsSummary.SummaryOfCountry | covid-19.py:84-95 | the three outcomes of summarizing a country's slice, stated by the table's last row for that country |
| StatsSummary.SummaryAtLastMatch | covid-19.py:90-95 | the summary of a country's slice is decided by the table's last row for that country |
| StatsSummary.CleanedStatsNeverMissTotals | covid-19.py:94-95 | on a cleaned table the statistics view never hits a missing total |
| StatsSummary.ReportedRowIsLatest | covid-19.py:90 | when the slice is in date order, the reported date is the latest date of the slice |
| Scenarios.TestlandReportsSecondDay | covid-19.py:90-102 | two Testland rows (100/2, then 150/3) report 150 cases, 3 deaths, a 2% rate and no vaccinations |
| Scenarios.EmptylandIsDropped | covid-19.py:33 | a row missing both totals is dropped, so its country is then not found |
| Scenarios.ListingIsSortedAndDistinct | covid-19.py:27 | Brazil, Chad, Brazil, Aland is listed as Aland, Brazil, Chad |

## Left out

- `load_covid_data` (covid-19.py:11-23): the HTTP download, CSV parsing and date parsing are library I/O. A table is an input, and `date` is an opaque value carried through unchanged.
- `plot_covid_trends` (covid-19.py:44-80): chart drawing. Its only logic is the empty-slice guard, which `Summarize` covers.
- `main` (covid-19.py:104-142): the interactive menu loop and its prompts. Only its membership test (line 125) is modelled, as `IsKnownCountry`.
- `pd.set_option` (covid-19.py:8-9): global display settings.
- Output formatting: thousands separators, `strftime` and the two-decimal rounding of the rate. The rate is an exact `real`.
- Floats: numeric cells are exact reals. Float rounding in the rate, and `int()` of infinity, are not modelled.
- Other columns: the real table has many more numeric columns. `fillna(0)` treats them like the five modelled ones.
- A missing `location` or `date`: assumed always present. In pandas `fillna(0)` would turn such a cell into 0.
