/**
 * Load-time cleaning of the customer table: `TotalCharges` is coerced to a number,
 * rows where that fails are dropped, and the six service columns are overwritten
 * with 0/1 flags. Reading the file itself is not modelled: the loader starts from
 * the rows the reader produced.
 */
module Loader {
  import opened Records
  import opened Masks

  /** Raw service values that the binarisation maps to 1. */
  const Subscribed: set<string> := {"Yes", "DSL", "Fiber optic"}

  /**
   * A file row as the table holds it once `TotalCharges` has been coerced with
   * `errors='coerce'`. `parse` stands for `pd.to_numeric` on one value: None where
   * the value is not a number (the table then holds NaN).
   */
  function Coerce(parse: string -> Option<real>, row: CsvRow): (r: Record)
    ensures && r.gender == row.gender && r.seniorCitizen == row.seniorCitizen
            && r.contract == row.contract && r.paymentMethod == row.paymentMethod
            && r.tenure == row.tenure && r.monthlyCharges == row.monthlyCharges
            && r.churn == row.churn
    ensures r.totalCharges == parse(row.totalCharges)
    ensures |r.services| == |row.services|
    ensures forall j :: 0 <= j < |row.services| ==> r.services[j] == Text(row.services[j])
  {
    Record(row.gender, row.seniorCitizen, row.contract, row.paymentMethod, row.tenure,
      row.monthlyCharges, parse(row.totalCharges), row.churn, Apply(row.services, s => Text(s)))
  }

  function CoerceWith(parse: string -> Option<real>): CsvRow -> Record
  {
    (row: CsvRow) => Coerce(parse, row)
  }

  /** The table after the coercion of `TotalCharges`: one row per file row, in order. */
  function Coerced(parse: string -> Option<real>, csv: seq<CsvRow>): seq<Record>
  {
    Apply(csv, CoerceWith(parse))
  }

  /** The test `dropna(subset=['TotalCharges'])` keeps a row by. */
  predicate HasTotalCharges(r: Record)
  {
    r.totalCharges.Some?
  }

  /**
   * The file rows whose `TotalCharges` is a number: the file-side counterpart of
   * `HasTotalCharges`, which tests the same thing on the coerced row.
   */
  function Parsed(parse: string -> Option<real>): CsvRow -> bool
  {
    (row: CsvRow) => parse(row.totalCharges).Some?
  }

  /** The service flag written over one cell: 1 for "Yes", "DSL" and "Fiber optic", 0 for anything else. */
  function ServiceFlag(c: Cell): (f: Cell)
    ensures f == Bit(0) || f == Bit(1)
    ensures f == Bit(1) <==> c.Text? && c.text in Subscribed
  {
    if c == Text("Yes") || c == Text("DSL") || c == Text("Fiber optic") then Bit(1) else Bit(0)
  }

  /** One pass of the service loop: column `Services[k]` replaced by its flags in every row. */
  function BinariseColumn(df: seq<Record>, k: nat): (out: seq<Record>)
    requires k < |Services|
    requires forall i :: 0 <= i < |df| ==> |df[i].services| == |Services|
    ensures |out| == |df|
    ensures forall i :: 0 <= i < |df| ==>
      && out[i] == df[i].(services := out[i].services)
      && |out[i].services| == |df[i].services|
      && out[i].services[k] == ServiceFlag(df[i].services[k])
      && forall j :: 0 <= j < |df[i].services| && j != k ==> out[i].services[j] == df[i].services[j]
  {
    seq(|df|, i requires 0 <= i < |df| => FlagColumn(df[i], k))
  }

  /** Column `k` of one row replaced by its flag. */
  function FlagColumn(r: Record, k: nat): (b: Record)
    requires k < |r.services|
    ensures b == r.(services := b.services)
    ensures |b.services| == |r.services|
    ensures b.services[k] == ServiceFlag(r.services[k])
    ensures forall j :: 0 <= j < |r.services| && j != k ==> b.services[j] == r.services[j]
  {
    r.(services := r.services[k := ServiceFlag(r.services[k])])
  }

  /** A row with every service column binarised; nothing else in the row changes. */
  function BinariseServices(r: Record): (b: Record)
    ensures b == r.(services := b.services)
    ensures |b.services| == |r.services|
    ensures forall j :: 0 <= j < |b.services| ==> b.services[j] == Bit(0) || b.services[j] == Bit(1)
    ensures forall j :: 0 <= j < |b.services| ==>
      (b.services[j] == Bit(1) <==> r.services[j].Text? && r.services[j].text in Subscribed)
  {
    r.(services := Apply(r.services, ServiceFlag))
  }

  /** What loading makes of one file row whose `TotalCharges` parses. */
  function Tidied(parse: string -> Option<real>): CsvRow -> Record
  {
    (row: CsvRow) => BinariseServices(Coerce(parse, row))
  }

  /** The loaded table: coerced, rows with missing `TotalCharges` dropped, services binarised. */
  function Cleaned(parse: string -> Option<real>, csv: seq<CsvRow>): seq<Record>
  {
    Apply(Where(Coerced(parse, csv), HasTotalCharges), BinariseServices)
  }

  /** A row whose first `k` service columns have been binarised by the loop. */
  ghost function PartlyBinarised(r: Record, k: nat): Record
  {
    r.(services := seq(|r.services|, j requires 0 <= j < |r.services| =>
      if j < k then ServiceFlag(r.services[j]) else r.services[j]))
  }

  /**
   * The loading steps in the order the dashboard runs them: the coercion of
   * `TotalCharges`, the in-place drop of rows where it failed, and the loop that
   * overwrites one service column per pass.
   */
  method Load(csv: seq<CsvRow>, parse: string -> Option<real>) returns (df: seq<Record>)
    requires forall i :: 0 <= i < |csv| ==> |csv[i].services| == |Services|
    ensures df == Cleaned(parse, csv)
  {
    var coerced := Coerced(parse, csv);

    df := [];
    for i := 0 to |coerced|
      invariant df == Where(coerced[..i], HasTotalCharges)
    {
      assert coerced[..i + 1] == coerced[..i] + [coerced[i]];
      WhereConcat(coerced[..i], [coerced[i]], HasTotalCharges);
      WhereCons([coerced[i]], HasTotalCharges);
      assert [coerced[i]][1..] == [];
      if HasTotalCharges(coerced[i]) {
        df := df + [coerced[i]];
      }
    }
    assert coerced[..|coerced|] == coerced;

    ghost var kept := df;
    forall i | 0 <= i < |kept|
      ensures HasServiceColumns(kept[i])
    {
      WhereMembership(coerced, HasTotalCharges, kept[i]);
    }

    for k := 0 to |Services|
      invariant |df| == |kept|
      invariant forall i :: 0 <= i < |df| ==> df[i] == PartlyBinarised(kept[i], k)
    {
      df := BinariseColumn(df, k);
      forall i | 0 <= i < |df|
        ensures df[i] == PartlyBinarised(kept[i], k + 1)
      {
        assert df[i].services == PartlyBinarised(kept[i], k + 1).services;
      }
    }

    forall i | 0 <= i < |df|
      ensures df[i] == BinariseServices(kept[i])
    {
      assert df[i].services == BinariseServices(kept[i]).services;
    }
  }

  /**
   * The loaded table is exactly the file rows whose `TotalCharges` parsed, in their
   * original order, each with its services binarised and its charges coerced.
   */
  lemma CleanedKeepsParsedRows(parse: string -> Option<real>, csv: seq<CsvRow>)
    ensures Cleaned(parse, csv) == Apply(Where(csv, Parsed(parse)), Tidied(parse))
    ensures |Cleaned(parse, csv)| <= |csv|
  {
    WhereApply(csv, CoerceWith(parse), HasTotalCharges, Parsed(parse));
    var kept := Where(csv, Parsed(parse));
    assert Cleaned(parse, csv) == Apply(Apply(kept, CoerceWith(parse)), BinariseServices);
  }

  /**
   * Every loaded row has a numeric `TotalCharges` and six service flags, each 0 or 1.
   */
  lemma LoadedRowsAreClean(parse: string -> Option<real>, csv: seq<CsvRow>)
    requires forall i :: 0 <= i < |csv| ==> |csv[i].services| == |Services|
    ensures forall r :: r in Cleaned(parse, csv) ==>
      && r.totalCharges.Some?
      && |r.services| == |Services|
      && forall j :: 0 <= j < |r.services| ==> r.services[j] == Bit(0) || r.services[j] == Bit(1)
  {
    var coerced := Coerced(parse, csv);
    var kept := Where(coerced, HasTotalCharges);
    forall r | r in Cleaned(parse, csv)
      ensures r.totalCharges.Some? && |r.services| == |Services|
      ensures forall j :: 0 <= j < |r.services| ==> r.services[j] == Bit(0) || r.services[j] == Bit(1)
    {
      var i :| 0 <= i < |kept| && r == BinariseServices(kept[i]);
      var row := kept[i];
      assert r == BinariseServices(row);
      assert row in kept;
      WhereMembership(coerced, HasTotalCharges, row);
      var n :| 0 <= n < |coerced| && coerced[n] == row;
      assert |coerced[n].services| == |csv[n].services|;
    }
  }

  /** A file row whose `TotalCharges` does not parse leaves no trace in the loaded table. */
  lemma UnparseableRowIsDropped(parse: string -> Option<real>, before: seq<CsvRow>, row: CsvRow, after: seq<CsvRow>)
    requires parse(row.totalCharges) == None
    ensures Cleaned(parse, before + [row] + after) == Cleaned(parse, before + after)
  {
    CleanedKeepsParsedRows(parse, before + [row] + after);
    CleanedKeepsParsedRows(parse, before + after);
    WhereConcat(before + [row], after, Parsed(parse));
    WhereConcat(before, [row], Parsed(parse));
    WhereConcat(before, after, Parsed(parse));
    WhereCons([row], Parsed(parse));
    assert [row][1..] == [];
  }

  /** The six service columns' texts, plus the two internet-service texts the test also accepts, flag by flag. */
  lemma ServiceFlagTruthTable()
    ensures ServiceFlag(Text("Yes")) == Bit(1)
    ensures ServiceFlag(Text("DSL")) == Bit(1)
    ensures ServiceFlag(Text("Fiber optic")) == Bit(1)
    ensures ServiceFlag(Text("No")) == Bit(0)
    ensures ServiceFlag(Text("No internet service")) == Bit(0)
    ensures ServiceFlag(Text("No phone service")) == Bit(0)
    ensures ServiceFlag(Text("")) == Bit(0)
  {
  }
}
