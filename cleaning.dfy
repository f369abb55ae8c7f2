/**
  The cleaning pass run once on the downloaded table: drop the rows that
  lack both crucial columns, then replace every remaining missing value by 0.
 */
module Cleaning {
  import opened Wrappers
  import opened Records
  import opened Sequences

  /** A row survives the drop step when at least one crucial column is present. */
  predicate HasCrucial(r: Record)
  {
    r.totalCases.Some? || r.totalDeaths.Some?
  }

  /** `out` is the cell `inp` after filling: a present value is kept, a missing one becomes 0. */
  predicate FilledCell(out: Option<real>, inp: Option<real>)
  {
    out.Some? && (inp.Some? ==> out == inp) && (inp.None? ==> out.value == 0.0)
  }

  /** `out` is row `inp` with every missing numeric value replaced by 0. */
  predicate FilledRow(out: Record, inp: Record)
  {
    && out.location == inp.location
    && out.date == inp.date
    && FilledCell(out.totalCases, inp.totalCases)
    && FilledCell(out.totalDeaths, inp.totalDeaths)
    && FilledCell(out.newCases, inp.newCases)
    && FilledCell(out.newDeaths, inp.newDeaths)
    && FilledCell(out.totalVaccinations, inp.totalVaccinations)
  }

  /** `dropna(subset=['total_cases', 'total_deaths'], how='all')`. */
  function DropMissingCrucial(df: Table): (r: Table)
    ensures |r| <= |df|
    ensures forall x :: x in r ==> x in df && HasCrucial(x)
    ensures forall i :: 0 <= i < |df| && HasCrucial(df[i]) ==> df[i] in r
  {
    Filter(df, HasCrucial)
  }

  /** `fillna(0)` on one cell. */
  function FillCell(o: Option<real>): Option<real>
  {
    Some(o.GetOr(0.0))
  }

  /** `fillna(0)` on one row. */
  function FillMissing(r: Record): (f: Record)
    ensures Complete(f)
    ensures FilledRow(f, r)
  {
    r.(totalCases := FillCell(r.totalCases),
       totalDeaths := FillCell(r.totalDeaths),
       newCases := FillCell(r.newCases),
       newDeaths := FillCell(r.newDeaths),
       totalVaccinations := FillCell(r.totalVaccinations))
  }

  /** `clean_data`: the drop step followed by the fill step. */
  function CleanData(df: Table): (r: Table)
    ensures |r| <= |df|
    ensures forall k :: 0 <= k < |r| ==> Complete(r[k])
  {
    var kept := DropMissingCrucial(df);
    seq(|kept|, k requires 0 <= k < |kept| => FillMissing(kept[k]))
  }

  /**
    The drop step keeps exactly the rows with a crucial value, in their
    original order: its k-th row is the row at the k-th such position
    (`Positions` is strictly increasing).
   */
  lemma DropKeepsCrucialRowsInOrder(df: Table)
    ensures |DropMissingCrucial(df)| == |Positions(df, HasCrucial)|
    ensures forall k :: 0 <= k < |Positions(df, HasCrucial)| ==>
              DropMissingCrucial(df)[k] == df[Positions(df, HasCrucial)[k]]
    ensures forall i :: 0 <= i < |df| ==> (i in Positions(df, HasCrucial) <==> HasCrucial(df[i]))
  {
    FilterAtPositions(df, HasCrucial);
  }

  /**
    The cleaned table holds one row per input row that has a crucial value,
    in input order (the positions of `DropKeepsCrucialRowsInOrder`), each
    equal to that row with its missing values set to 0 and its present
    values unchanged.
   */
  lemma CleanDataSpec(df: Table)
    ensures |CleanData(df)| == |Positions(df, HasCrucial)|
    ensures forall k :: 0 <= k < |Positions(df, HasCrucial)| ==>
              FilledRow(CleanData(df)[k], df[Positions(df, HasCrucial)[k]])
  {
    DropKeepsCrucialRowsInOrder(df);
  }

  /** No cleaned row lacks both crucial values; indeed both are present. */
  lemma CleanedRowsHaveCrucial(df: Table)
    ensures forall x :: x in CleanData(df) ==> HasCrucial(x)
    ensures forall x :: x in CleanData(df) ==> x.totalCases.Some? && x.totalDeaths.Some?
  {
  }

  /** Cleaning a cleaned table changes nothing. */
  lemma CleanDataIdempotent(df: Table)
    ensures CleanData(CleanData(df)) == CleanData(df)
  {
    var c := CleanData(df);
    FilterKeepsAll(c, HasCrucial);
    assert DropMissingCrucial(c) == c;
    assert forall k :: 0 <= k < |c| ==> FillMissing(c[k]) == c[k];
  }
}
