/**
 * The counting metrics computed from the cleaned table: the patient count of
 * the KPI row, the Medical Condition and Blood Type count tables, and the
 * admissions per month.
 */
module Metrics {
  import opened Wrappers
  import opened Records
  import opened Counts
  import N = Normalise
  import Text
  import C = Cleaning
  import Distinct

  // ---------------------------------------------------------------- KPI

  /** "Total Patients": `len(df)`. */
  function TotalPatients(rows: seq<Row>): nat {
    |rows|
  }

  /**
   * After cleaning, Total Patients is the number of distinct rows the text
   * conversions produced: duplicate removal leaves one row per distinct row and
   * the later steps neither add nor remove rows.
   */
  lemma TotalPatientsIsDistinctRows(header: seq<string>, raws: seq<RawRow>, toNumeric: string -> Option<real>)
    requires DateOfAdmission in C.LoadedColumns(header) && BillingAmount in C.LoadedColumns(header)
    ensures TotalPatients(C.Cleaned(header, raws, toNumeric))
         == |set r | r in C.Normalised(header, raws, toNumeric)|
    ensures TotalPatients(C.Cleaned(header, raws, toNumeric))
         == |Distinct.Dedup(C.Normalised(header, raws, toNumeric))|
  {
    Distinct.DedupLength(C.Normalised(header, raws, toNumeric));
  }

  // ---------------------------------------------------------------- value_counts

  /**
   * The non-missing cells of free-text column `c`, in row order (`value_counts`
   * skips NaN): each text as often as rows hold it.
   */
  function PresentCells(rows: seq<Row>, c: Column): (xs: seq<string>)
    requires c in TextColumns
    ensures |xs| <= |rows|
    ensures (forall i :: 0 <= i < |rows| ==> TextCell(rows[i], c).Some?) ==> |xs| == |rows|
    ensures forall x :: x in xs <==> exists i :: 0 <= i < |rows| && TextCell(rows[i], c) == Some(x)
    ensures forall x :: multiset(xs)[x] == |set i | 0 <= i < |rows| && TextCell(rows[i], c) == Some(x)|
  {
    var cell := (r: Row) => TextCell(r, c);
    var xs := Present(rows, cell, |rows|);
    assert forall x :: RowsHolding(rows, cell, x, |rows|) == set i | 0 <= i < |rows| && TextCell(rows[i], c) == Some(x);
    xs
  }

  /** `df[c].value_counts()` when column `c` exists; nothing is written otherwise. */
  function ColumnCounts(rows: seq<Row>, columns: set<Column>, c: Column): (r: Option<seq<(string, nat)>>)
    requires c in TextColumns
    ensures r.Some? <==> c in columns
    ensures r.Some? ==> IsCountTable(PresentCells(rows, c), r.value)
    ensures r.Some? ==> forall i, j :: 0 <= i < j < |r.value| ==> r.value[i].1 >= r.value[j].1
  {
    if c in columns then Some(ValueCounts(PresentCells(rows, c))) else None
  }

  /** Each count of a column's count table is the number of rows holding that text. */
  lemma ColumnCountsRows(rows: seq<Row>, columns: set<Column>, c: Column)
    requires c in TextColumns && c in columns
    ensures var r := ColumnCounts(rows, columns, c).value;
      forall i :: 0 <= i < |r| ==> r[i].1 == |set j | 0 <= j < |rows| && TextCell(rows[j], c) == Some(r[i].0)|
  {
  }

  function ConditionCounts(rows: seq<Row>, columns: set<Column>): (r: Option<seq<(string, nat)>>)
    ensures r.Some? <==> MedicalCondition in columns
    ensures r.Some? ==> IsCountTable(PresentCells(rows, MedicalCondition), r.value)
    ensures r.Some? ==> forall i, j :: 0 <= i < j < |r.value| ==> r.value[i].1 >= r.value[j].1
  {
    ColumnCounts(rows, columns, MedicalCondition)
  }

  function BloodTypeCounts(rows: seq<Row>, columns: set<Column>): (r: Option<seq<(string, nat)>>)
    ensures r.Some? <==> BloodType in columns
    ensures r.Some? ==> IsCountTable(PresentCells(rows, BloodType), r.value)
    ensures r.Some? ==> forall i, j :: 0 <= i < j < |r.value| ==> r.value[i].1 >= r.value[j].1
  {
    ColumnCounts(rows, columns, BloodType)
  }

  /** After the text conversions every cell of a present free-text column holds text. */
  lemma NormalisedTextPresent(rows: seq<Row>, columns: set<Column>, c: Column)
    requires c in TextColumns && c in columns
    ensures forall i :: 0 <= i < |rows| ==>
      TextCell(C.TrimText(C.NormaliseGenders(rows, columns), columns)[i], c).Some?
  {
    C.TrimTextSpec(C.NormaliseGenders(rows, columns), columns);
  }

  /** Duplicate removal keeps text cells text. */
  lemma DedupKeepsText(rows: seq<Row>, c: Column)
    requires c in TextColumns
    requires forall i :: 0 <= i < |rows| ==> TextCell(rows[i], c).Some?
    ensures forall i :: 0 <= i < |Distinct.Dedup(rows)| ==> TextCell(Distinct.Dedup(rows)[i], c).Some?
  {
    var u := Distinct.Dedup(rows);
    forall i | 0 <= i < |u| ensures TextCell(u[i], c).Some? {
      assert u[i] in u;
      var j :| 0 <= j < |rows| && rows[j] == u[i];
    }
  }

  /** Imputation keeps every free-text cell. */
  lemma ImputeKeepsText(rows: seq<Row>, columns: set<Column>, c: Column)
    requires c in TextColumns
    ensures forall i :: 0 <= i < |rows| ==> TextCell(C.ImputeBilling(rows, columns)[i], c) == TextCell(rows[i], c)
  {
  }

  /** The "Unknown" fills keep text cells text. */
  lemma FillKeepsText(rows: seq<Row>, columns: set<Column>, c: Column)
    requires c in TextColumns
    requires forall i :: 0 <= i < |rows| ==> TextCell(rows[i], c).Some?
    ensures forall i :: 0 <= i < |rows| ==> TextCell(C.FillUnknown(rows, columns)[i], c).Some?
  {
  }

  /** The derived columns keep every free-text cell. */
  lemma DeriveKeepsText(rows: seq<Row>, columns: set<Column>, c: Column)
    requires c in TextColumns
    ensures forall i :: 0 <= i < |rows| ==>
      TextCell(C.DeriveDates(C.DeriveAgeGroup(rows, columns))[i], c) == TextCell(rows[i], c)
  {
    var a := C.DeriveAgeGroup(rows, columns);
    assert forall i :: 0 <= i < |rows| ==> TextCell(a[i], c) == TextCell(rows[i], c);
  }

  /** Imputation, the fills and the derived columns keep text cells text. */
  lemma FillAndDeriveKeepText(rows: seq<Row>, columns: set<Column>, c: Column)
    requires c in TextColumns
    requires forall i :: 0 <= i < |rows| ==> TextCell(rows[i], c).Some?
    ensures var d := C.DeriveDates(C.DeriveAgeGroup(C.FillUnknown(
                       C.ImputeBilling(rows, columns), columns), columns));
      forall i :: 0 <= i < |d| ==> TextCell(d[i], c).Some?
  {
    var p := C.ImputeBilling(rows, columns);
    ImputeKeepsText(rows, columns, c);
    FillKeepsText(p, columns, c);
    DeriveKeepsText(C.FillUnknown(p, columns), columns, c);
  }

  /** Duplicate removal, imputation, the fills and the derived columns keep text cells text. */
  lemma LaterStepsKeepText(rows: seq<Row>, columns: set<Column>, c: Column)
    requires c in TextColumns
    requires forall i :: 0 <= i < |rows| ==> TextCell(rows[i], c).Some?
    ensures var d := C.DeriveDates(C.DeriveAgeGroup(C.FillUnknown(
                       C.ImputeBilling(Distinct.Dedup(rows), columns), columns), columns));
      forall i :: 0 <= i < |d| ==> TextCell(d[i], c).Some?
  {
    DedupKeepsText(rows, c);
    FillAndDeriveKeepText(Distinct.Dedup(rows), columns, c);
  }

  /**
   * The steps after type coercion turn a present Medical Condition or Blood
   * Type column into one whose counts add up to the number of rows.
   */
  lemma CleanStepsCountsTotal(rows: seq<Row>, columns: set<Column>, c: Column)
    requires c in TextColumns && c in columns
    ensures var n := C.TrimText(C.NormaliseGenders(rows, columns), columns);
      var d := C.DeriveDates(C.DeriveAgeGroup(C.FillUnknown(
                 C.ImputeBilling(Distinct.Dedup(n), columns), columns), columns));
      forall cs :: c in cs ==> ColumnCounts(d, cs, c).Some? && Total(ColumnCounts(d, cs, c).value) == |d|
  {
    var n := C.TrimText(C.NormaliseGenders(rows, columns), columns);
    NormalisedTextPresent(rows, columns, c);
    LaterStepsKeepText(n, columns, c);
  }

  /**
   * On the cleaned table, a present Medical Condition or Blood Type column has
   * its count table, and its counts add up to the number of patients.
   */
  lemma CleanedCountsTotal(header: seq<string>, raws: seq<RawRow>, toNumeric: string -> Option<real>, c: Column)
    requires DateOfAdmission in C.LoadedColumns(header) && BillingAmount in C.LoadedColumns(header)
    requires (c == MedicalCondition || c == BloodType) && c in C.LoadedColumns(header)
    ensures ColumnCounts(C.Cleaned(header, raws, toNumeric), C.CleanedColumns(header), c).Some?
    ensures Total(ColumnCounts(C.Cleaned(header, raws, toNumeric), C.CleanedColumns(header), c).value)
         == TotalPatients(C.Cleaned(header, raws, toNumeric))
  {
    var columns := C.LoadedColumns(header);
    CleanStepsCountsTotal(C.CoerceAll(raws, columns, toNumeric), columns, c);
    assert c in C.CleanedColumns(header);
  }

  // ---------------------------------------------------------------- monthly

  /** The month key a row contributes: its Admission Month when it has a date. */
  function DatedMonth(r: Row): Option<string> {
    if r.admission.Some? then r.admissionMonth else None
  }

  /**
   * The Admission Month text of every row with a date (`dropna` on the date,
   * then the group key): each month as often as dated rows hold it.
   */
  function DatedMonths(rows: seq<Row>): (ms: seq<string>)
    ensures |ms| == |set i | 0 <= i < |rows| && rows[i].admission.Some? && rows[i].admissionMonth.Some?|
    ensures |ms| <= |rows|
    ensures forall m :: m in ms <==>
      exists i :: 0 <= i < |rows| && rows[i].admission.Some? && rows[i].admissionMonth == Some(m)
    ensures forall m :: multiset(ms)[m] ==
                        |set i | 0 <= i < |rows| && rows[i].admission.Some? && rows[i].admissionMonth == Some(m)|
  {
    var ms := Present(rows, DatedMonth, |rows|);
    assert FilledRows(rows, DatedMonth, |rows|) ==
      set i | 0 <= i < |rows| && rows[i].admission.Some? && rows[i].admissionMonth.Some?;
    assert forall m :: RowsHolding(rows, DatedMonth, m, |rows|) ==
                       set i | 0 <= i < |rows| && rows[i].admission.Some? && rows[i].admissionMonth == Some(m);
    ms
  }

  /** The number of rows with a date of admission. */
  function DatedCount(rows: seq<Row>): nat {
    |set i | 0 <= i < |rows| && rows[i].admission.Some?|
  }

  /** Admissions per month: one row per month of a dated row, months ascending. */
  function MonthlyAdmissions(rows: seq<Row>): (r: seq<(string, nat)>)
    ensures IsCountTable(DatedMonths(rows), r)
    ensures forall i, j :: 0 <= i < j < |r| ==> Text.LexLess(r[i].0, r[j].0)
  {
    KeyOrderedCounts(DatedMonths(rows))
  }

  /** Once the month columns are derived, every dated row contributes exactly one month. */
  lemma DatedMonthsOfDerived(rows: seq<Row>)
    requires C.MonthsDerived(rows)
    ensures |DatedMonths(rows)| == DatedCount(rows)
  {
    assert (set i | 0 <= i < |rows| && rows[i].admission.Some? && rows[i].admissionMonth.Some?)
        == (set i | 0 <= i < |rows| && rows[i].admission.Some?);
  }

  /** On a table with derived months, the monthly counts add up to the number of dated rows. */
  lemma MonthlyTotal(rows: seq<Row>)
    requires C.MonthsDerived(rows)
    ensures Total(MonthlyAdmissions(rows)) == DatedCount(rows)
  {
    DatedMonthsOfDerived(rows);
  }

  /**
   * Every month key is the "YYYY-MM" text of some dated row, so the "NaT" text
   * of undated rows is never a key, and ascending keys are chronological months.
   */
  lemma MonthlyChronological(rows: seq<Row>)
    requires C.MonthsDerived(rows)
    ensures var r := MonthlyAdmissions(rows);
      forall i :: 0 <= i < |r| ==>
        exists a :: 0 <= a < |rows| && rows[a].admission.Some? && r[i].0 == N.MonthKey(rows[a].admission.value)
    ensures "NaT" !in Keys(MonthlyAdmissions(rows))
    ensures var r := MonthlyAdmissions(rows);
      forall i, j, d, e :: 0 <= i < j < |r| && r[i].0 == N.MonthKey(d) && r[j].0 == N.MonthKey(e) ==>
        N.MonthBefore(d, e)
  {
    var r := MonthlyAdmissions(rows);
    MonthKeysDated(rows);
    forall i, j, d, e | 0 <= i < j < |r| && r[i].0 == N.MonthKey(d) && r[j].0 == N.MonthKey(e)
      ensures N.MonthBefore(d, e)
    {
      N.MonthKeyOrder(d, e);
    }
  }

  /** Every month key comes from a dated row. */
  lemma MonthKeysDated(rows: seq<Row>)
    requires C.MonthsDerived(rows)
    ensures var r := MonthlyAdmissions(rows);
      forall i :: 0 <= i < |r| ==>
        exists a :: 0 <= a < |rows| && rows[a].admission.Some? && r[i].0 == N.MonthKey(rows[a].admission.value)
  {
    var r := MonthlyAdmissions(rows);
    forall i | 0 <= i < |r|
      ensures exists a :: 0 <= a < |rows| && rows[a].admission.Some? && r[i].0 == N.MonthKey(rows[a].admission.value)
    {
      assert r[i].0 in Keys(r);
      var a :| 0 <= a < |rows| && rows[a].admission.Some? && rows[a].admissionMonth == Some(r[i].0);
    }
  }

  /** Each month's count is the number of dated rows admitted in that month. */
  lemma MonthlyCountsRows(rows: seq<Row>)
    ensures var r := MonthlyAdmissions(rows);
      forall i :: 0 <= i < |r| ==>
        r[i].1 == |set j | 0 <= j < |rows| && rows[j].admission.Some? && rows[j].admissionMonth == Some(r[i].0)|
  {
  }

  /** The month totals of the cleaned table count exactly its dated rows. */
  lemma CleanedMonthlyTotal(header: seq<string>, raws: seq<RawRow>, toNumeric: string -> Option<real>)
    requires DateOfAdmission in C.LoadedColumns(header) && BillingAmount in C.LoadedColumns(header)
    ensures Total(MonthlyAdmissions(C.Cleaned(header, raws, toNumeric)))
         == DatedCount(C.Cleaned(header, raws, toNumeric))
  {
    var columns := C.LoadedColumns(header);
    C.DeriveDatesSpec(C.DeriveAgeGroup(C.FillUnknown(C.Imputed(header, raws, toNumeric), columns), columns));
    MonthlyTotal(C.Cleaned(header, raws, toNumeric));
  }
}
