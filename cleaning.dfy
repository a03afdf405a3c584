/**
 * The cleaning and enrichment steps as functions from one table state to the
 * next, each gated on the presence of its column, and the whole sequence of
 * them. `Table.PatientTable` performs these steps in place.
 */
module Cleaning {
  import opened Wrappers
  import opened Records
  import N = Normalise
  import Text
  import Distinct
  import Sorting
  import Stats

  // ---------------------------------------------------------------- coercion

  /** Type coercion of one loaded row; absent columns stay empty. */
  function Coerce(raw: RawRow, columns: set<Column>, toNumeric: string -> Option<real>): Row {
    Row(
      name := if Name in columns then raw.name else None,
      bloodType := if BloodType in columns then raw.bloodType else None,
      condition := if MedicalCondition in columns then raw.condition else None,
      doctor := if Doctor in columns then raw.doctor else None,
      hospital := if Hospital in columns then raw.hospital else None,
      insurance := if InsuranceProvider in columns then raw.insurance else None,
      gender := if Gender in columns then raw.gender else None,
      billing := if BillingAmount in columns then N.BillingAmount(raw.billing, toNumeric) else None,
      age := if Age in columns then raw.age else None,
      admission := if DateOfAdmission in columns then raw.admission else None,
      extra := raw.extra,
      ageGroup := None, admissionYear := None, admissionMonth := None, monthName := None)
  }

  /** The date, billing and age conversions applied to every loaded row. */
  function CoerceAll(raws: seq<RawRow>, columns: set<Column>, toNumeric: string -> Option<real>)
    : (rows: seq<Row>)
    ensures |rows| == |raws|
    ensures forall i :: 0 <= i < |raws| ==>
      && rows[i].name == (if Name in columns then raws[i].name else None)
      && rows[i].bloodType == (if BloodType in columns then raws[i].bloodType else None)
      && rows[i].condition == (if MedicalCondition in columns then raws[i].condition else None)
      && rows[i].doctor == (if Doctor in columns then raws[i].doctor else None)
      && rows[i].hospital == (if Hospital in columns then raws[i].hospital else None)
      && rows[i].insurance == (if InsuranceProvider in columns then raws[i].insurance else None)
      && rows[i].gender == (if Gender in columns then raws[i].gender else None)
    ensures forall i :: 0 <= i < |raws| ==>
      && rows[i].billing == (if BillingAmount in columns then N.BillingAmount(raws[i].billing, toNumeric) else None)
      && rows[i].age == (if Age in columns then raws[i].age else None)
      && rows[i].admission == (if DateOfAdmission in columns then raws[i].admission else None)
      && rows[i].extra == raws[i].extra
    ensures forall i :: 0 <= i < |raws| ==>
      && rows[i].ageGroup.None? && rows[i].admissionYear.None?
      && rows[i].admissionMonth.None? && rows[i].monthName.None?
  {
    seq(|raws|, i requires 0 <= i < |raws| => Coerce(raws[i], columns, toNumeric))
  }

  // ---------------------------------------------------------------- gender

  /** The Gender normalisation applied to every row when the column is present. */
  function NormaliseGenders(rows: seq<Row>, columns: set<Column>): (rows': seq<Row>)
    ensures |rows'| == |rows|
    ensures forall i :: 0 <= i < |rows| ==>
      rows'[i].gender == if Gender in columns then Some(N.GenderValue(rows[i].gender)) else rows[i].gender
    ensures forall i :: 0 <= i < |rows| ==> rows'[i] == rows[i].(gender := rows'[i].gender)
  {
    if Gender in columns then
      seq(|rows|, i requires 0 <= i < |rows| => rows[i].(gender := Some(N.GenderValue(rows[i].gender))))
    else rows
  }

  // ---------------------------------------------------------------- free text

  /** The trimmed text of a cell: `astype(str).str.strip()`. */
  function TrimmedCell(v: Option<string>): Option<string> {
    Some(Text.Strip(N.AsText(v)))
  }

  /** One free-text column converted to text and stripped in every row. */
  function TrimColumn(rows: seq<Row>, c: Column): (rows': seq<Row>)
    requires c in TextColumns
    ensures |rows'| == |rows|
  {
    seq(|rows|, i requires 0 <= i < |rows| => WithTextCell(rows[i], c, TrimmedCell(TextCell(rows[i], c))))
  }

  /** The table after the first `n` rounds of the loop over the free-text columns. */
  function TrimTextUpTo(rows: seq<Row>, columns: set<Column>, n: nat): (rows': seq<Row>)
    requires n <= |TextColumns|
    ensures |rows'| == |rows|
  {
    if n == 0 then rows
    else
      var before := TrimTextUpTo(rows, columns, n - 1);
      var c := TextColumns[n - 1];
      if c in columns then TrimColumn(before, c) else before
  }

  function TrimText(rows: seq<Row>, columns: set<Column>): seq<Row> {
    TrimTextUpTo(rows, columns, |TextColumns|)
  }

  /** One row of a trimmed column. */
  lemma TrimColumnAt(rows: seq<Row>, c: Column, i: nat)
    requires c in TextColumns && i < |rows|
    ensures TrimColumn(rows, c)[i] == WithTextCell(rows[i], c, TrimmedCell(TextCell(rows[i], c)))
  {
  }

  /** Round `n` of the trimming loop leaves the other free-text columns alone. */
  lemma TrimRoundOther(rows: seq<Row>, columns: set<Column>, n: nat, i: nat, k: nat)
    requires n < |TextColumns| && i < |rows| && k < |TextColumns| && k != n
    ensures TextCell(TrimTextUpTo(rows, columns, n + 1)[i], TextColumns[k])
         == TextCell(TrimTextUpTo(rows, columns, n)[i], TextColumns[k])
  {
    var before := TrimTextUpTo(rows, columns, n);
    if TextColumns[n] in columns {
      TrimColumnAt(before, TextColumns[n], i);
    }
  }

  /** Round `n` of the trimming loop strips column `n` when the table has it. */
  lemma TrimRoundOwn(rows: seq<Row>, columns: set<Column>, n: nat, i: nat)
    requires n < |TextColumns| && i < |rows|
    ensures var before := TextCell(TrimTextUpTo(rows, columns, n)[i], TextColumns[n]);
      TextCell(TrimTextUpTo(rows, columns, n + 1)[i], TextColumns[n])
      == if TextColumns[n] in columns then TrimmedCell(before) else before
  {
    var before := TrimTextUpTo(rows, columns, n);
    if TextColumns[n] in columns {
      TrimColumnAt(before, TextColumns[n], i);
    }
  }

  /** One free-text cell after the first `n` rounds of the trimming loop. */
  lemma {:induction false} TrimTextUpToAt(rows: seq<Row>, columns: set<Column>, n: nat, i: nat, k: nat)
    requires n <= |TextColumns| && i < |rows| && k < |TextColumns|
    ensures TextCell(TrimTextUpTo(rows, columns, n)[i], TextColumns[k]) ==
      if k < n && TextColumns[k] in columns then TrimmedCell(TextCell(rows[i], TextColumns[k]))
      else TextCell(rows[i], TextColumns[k])
  {
    if n > 0 {
      TrimTextUpToAt(rows, columns, n - 1, i, k);
      if k == n - 1 {
        TrimRoundOwn(rows, columns, n - 1, i);
      } else {
        TrimRoundOther(rows, columns, n - 1, i, k);
      }
    }
  }

  /** The rounds of the trimming loop touch only free-text cells. */
  lemma {:induction false} TrimTextUpToOutside(rows: seq<Row>, columns: set<Column>, n: nat, i: nat)
    requires n <= |TextColumns| && i < |rows|
    ensures SameOutsideText(rows[i], TrimTextUpTo(rows, columns, n)[i])
  {
    if n > 0 {
      TrimTextUpToOutside(rows, columns, n - 1, i);
      var before := TrimTextUpTo(rows, columns, n - 1);
      var c := TextColumns[n - 1];
      if c in columns {
        TrimColumnAt(before, c, i);
      }
    }
  }

  /**
   * After the loop every present free-text column holds the stripped text of
   * its old cell, and an absent one, like every other cell, is unchanged.
   */
  lemma TrimTextSpec(rows: seq<Row>, columns: set<Column>)
    ensures |TrimText(rows, columns)| == |rows|
    ensures forall i, c :: 0 <= i < |rows| && c in TextColumns ==>
      TextCell(TrimText(rows, columns)[i], c) ==
        if c in columns then TrimmedCell(TextCell(rows[i], c)) else TextCell(rows[i], c)
    ensures forall i :: 0 <= i < |rows| ==> SameOutsideText(rows[i], TrimText(rows, columns)[i])
  {
    forall i, c | 0 <= i < |rows| && c in TextColumns
      ensures TextCell(TrimText(rows, columns)[i], c) ==
        if c in columns then TrimmedCell(TextCell(rows[i], c)) else TextCell(rows[i], c)
    {
      var k :| 0 <= k < |TextColumns| && TextColumns[k] == c;
      TrimTextUpToAt(rows, columns, |TextColumns|, i, k);
    }
    forall i | 0 <= i < |rows| ensures SameOutsideText(rows[i], TrimText(rows, columns)[i]) {
      TrimTextUpToOutside(rows, columns, |TextColumns|, i);
    }
  }

  // ---------------------------------------------------------------- billing

  /** The non-missing billing amounts, in row order: each amount as often as rows hold it. */
  function BillingValues(rows: seq<Row>): (xs: seq<real>)
    ensures |xs| == |set i | 0 <= i < |rows| && rows[i].billing.Some?| <= |rows|
    ensures |xs| > 0 <==> exists i :: 0 <= i < |rows| && rows[i].billing.Some?
    ensures forall x :: multiset(xs)[x] == |set i | 0 <= i < |rows| && rows[i].billing == Some(x)|
  {
    var cell := (r: Row) => r.billing;
    var xs := Present(rows, cell, |rows|);
    assert |xs| > 0 ==> xs[0] in xs;
    assert FilledRows(rows, cell, |rows|) == set i | 0 <= i < |rows| && rows[i].billing.Some?;
    assert forall x :: RowsHolding(rows, cell, x, |rows|) == set i | 0 <= i < |rows| && rows[i].billing == Some(x);
    xs
  }

  predicate AnyBillingMissing(rows: seq<Row>) {
    exists i :: 0 <= i < |rows| && rows[i].billing.None?
  }

  /**
   * `fillna(median())` on Billing Amount when the column exists and has a gap;
   * the median is taken over the rows given, before any gap is filled.
   */
  function ImputeBilling(rows: seq<Row>, columns: set<Column>): (rows': seq<Row>)
    ensures |rows'| == |rows|
    ensures BillingAmount !in columns ==> rows' == rows
    ensures forall i :: 0 <= i < |rows| && rows[i].billing.Some? ==> rows'[i] == rows[i]
  {
    if BillingAmount in columns && AnyBillingMissing(rows) then
      var m := Stats.Median(BillingValues(rows));
      seq(|rows|, i requires 0 <= i < |rows| =>
        if rows[i].billing.None? then rows[i].(billing := m) else rows[i])
    else rows
  }

  /** With no gap, imputation leaves the table as it is. */
  lemma ImputeWithoutGap(rows: seq<Row>, columns: set<Column>)
    requires !AnyBillingMissing(rows)
    ensures ImputeBilling(rows, columns) == rows
  {
  }

  /**
   * Each missing amount becomes the median of the present ones, each present
   * amount is kept, and no other cell changes.
   */
  lemma ImputeSpec(rows: seq<Row>, columns: set<Column>)
    requires BillingAmount in columns
    ensures forall i :: 0 <= i < |rows| ==>
      ImputeBilling(rows, columns)[i] == rows[i].(billing :=
        if rows[i].billing.None? then Stats.Median(BillingValues(rows)) else rows[i].billing)
  {
    if !AnyBillingMissing(rows) {
      forall i | 0 <= i < |rows| ensures rows[i].billing.Some? { }
    }
  }

  /** When at least one amount is present, no amount is missing afterwards. */
  lemma ImputeComplete(rows: seq<Row>, columns: set<Column>)
    requires BillingAmount in columns
    requires exists i :: 0 <= i < |rows| && rows[i].billing.Some?
    ensures forall i :: 0 <= i < |rows| ==> ImputeBilling(rows, columns)[i].billing.Some?
  {
    ImputeSpec(rows, columns);
  }

  /** When every amount is missing, the median is missing too and the gaps stay. */
  lemma ImputeAllMissing(rows: seq<Row>, columns: set<Column>)
    requires forall i :: 0 <= i < |rows| ==> rows[i].billing.None?
    ensures ImputeBilling(rows, columns) == rows
  {
    assert Stats.Median(BillingValues(rows)) == None;
  }

  // ---------------------------------------------------------------- "Unknown"

  /** `fillna("Unknown")` of one cell. */
  function FillCell(v: Option<string>): (r: Option<string>)
    ensures v.None? ==> r == Some("Unknown")
    ensures v.Some? ==> r == v
  {
    if v.None? then Some("Unknown") else v
  }

  /** `fillna("Unknown")` on Gender, Insurance Provider and Blood Type, each when present. */
  function FillUnknown(rows: seq<Row>, columns: set<Column>): (rows': seq<Row>)
    ensures |rows'| == |rows|
    ensures FilledIn(rows', columns)
    ensures forall i :: 0 <= i < |rows| ==>
      && (Gender in columns && rows[i].gender.None? ==> rows'[i].gender == Some("Unknown"))
      && (InsuranceProvider in columns && rows[i].insurance.None? ==> rows'[i].insurance == Some("Unknown"))
      && (BloodType in columns && rows[i].bloodType.None? ==> rows'[i].bloodType == Some("Unknown"))
    ensures forall i :: 0 <= i < |rows| ==>
      && (rows[i].gender.Some? ==> rows'[i].gender == rows[i].gender)
      && (rows[i].insurance.Some? ==> rows'[i].insurance == rows[i].insurance)
      && (rows[i].bloodType.Some? ==> rows'[i].bloodType == rows[i].bloodType)
    ensures forall i :: 0 <= i < |rows| ==>
      rows'[i] == rows[i].(gender := rows'[i].gender, insurance := rows'[i].insurance,
                           bloodType := rows'[i].bloodType)
  {
    seq(|rows|, i requires 0 <= i < |rows| =>
      rows[i].(
        gender := if Gender in columns then FillCell(rows[i].gender) else rows[i].gender,
        insurance := if InsuranceProvider in columns then FillCell(rows[i].insurance) else rows[i].insurance,
        bloodType := if BloodType in columns then FillCell(rows[i].bloodType) else rows[i].bloodType))
  }

  /** Every present Gender, Insurance Provider and Blood Type cell holds text. */
  ghost predicate FilledIn(rows: seq<Row>, columns: set<Column>) {
    forall i :: 0 <= i < |rows| ==>
      && (Gender in columns ==> rows[i].gender.Some?)
      && (InsuranceProvider in columns ==> rows[i].insurance.Some?)
      && (BloodType in columns ==> rows[i].bloodType.Some?)
  }

  /** The fills replace only empty cells, so on a filled-in table they change nothing. */
  lemma FillUnknownNoop(rows: seq<Row>, columns: set<Column>)
    requires FilledIn(rows, columns)
    ensures FillUnknown(rows, columns) == rows
  {
  }

  // ---------------------------------------------------------------- derived

  /** `pd.cut` of Age into the fixed groups, when Age is present. */
  function DeriveAgeGroup(rows: seq<Row>, columns: set<Column>): (rows': seq<Row>)
    ensures |rows'| == |rows|
    ensures forall i :: 0 <= i < |rows| ==>
      rows'[i].ageGroup == if Age in columns then N.AgeGroupFor(rows[i].age) else rows[i].ageGroup
    ensures forall i :: 0 <= i < |rows| ==> rows'[i] == rows[i].(ageGroup := rows'[i].ageGroup)
  {
    if Age in columns then
      seq(|rows|, i requires 0 <= i < |rows| => rows[i].(ageGroup := N.AgeGroupFor(rows[i].age)))
    else rows
  }

  /**
   * Admission Year, Admission Month and Month Name from Date of Admission. A
   * missing date gives no year and no month name, and the month text "NaT".
   */
  function DeriveDates(rows: seq<Row>): (rows': seq<Row>)
    ensures |rows'| == |rows|
    ensures forall i :: 0 <= i < |rows| && rows[i].admission.None? ==>
      && rows'[i].admissionYear.None? && rows'[i].admissionMonth == Some("NaT")
      && rows'[i].monthName.None?
    ensures forall i :: 0 <= i < |rows| ==>
      rows'[i] == rows[i].(admissionYear := rows'[i].admissionYear,
                           admissionMonth := rows'[i].admissionMonth, monthName := rows'[i].monthName)
  {
    seq(|rows|, i requires 0 <= i < |rows| =>
      match rows[i].admission
      case None =>
        rows[i].(admissionYear := None, admissionMonth := Some("NaT"), monthName := None)
      case Some(d) =>
        rows[i].(admissionYear := Some(d.year as int), admissionMonth := Some(N.MonthKey(d)),
                 monthName := Some(N.MonthName(d))))
  }

  /** Every row's month text agrees with its date. */
  ghost predicate MonthsDerived(rows: seq<Row>) {
    forall i :: 0 <= i < |rows| ==>
      rows[i].admissionMonth == Some(match rows[i].admission
                                     case None => "NaT"
                                     case Some(d) => N.MonthKey(d))
  }

  lemma DeriveDatesSpec(rows: seq<Row>)
    ensures MonthsDerived(DeriveDates(rows))
    ensures forall i :: 0 <= i < |rows| ==> DeriveDates(rows)[i].admission == rows[i].admission
    ensures forall i :: 0 <= i < |rows| && rows[i].admission.Some? ==>
      var d := rows[i].admission.value;
      && DeriveDates(rows)[i].admissionYear == Some(d.year as int)
      && Text.DigitsValue(DeriveDates(rows)[i].admissionMonth.value[..4]) == d.year
      && N.MonthOfName(DeriveDates(rows)[i].monthName.value) == Some(d.month)
  {
    forall i | 0 <= i < |rows| && rows[i].admission.Some?
      ensures Text.DigitsValue(N.MonthKey(rows[i].admission.value)[..4]) == rows[i].admission.value.year
      ensures N.MonthOfName(N.MonthName(rows[i].admission.value)) == Some(rows[i].admission.value.month)
    {
      N.MonthKeyFields(rows[i].admission.value);
      N.MonthNameRoundTrip(rows[i].admission.value);
    }
  }

  // ---------------------------------------------------------------- whole step

  /** The columns after loading: the known input columns named in the header. */
  function LoadedColumns(header: seq<string>): set<Column> {
    PresentColumns(header)
  }

  /** The table after type coercion, gender normalisation and text trimming. */
  function Normalised(header: seq<string>, raws: seq<RawRow>, toNumeric: string -> Option<real>)
    : seq<Row>
  {
    var columns := LoadedColumns(header);
    TrimText(NormaliseGenders(CoerceAll(raws, columns, toNumeric), columns), columns)
  }

  /** The table after `drop_duplicates()` and the billing imputation. */
  function Imputed(header: seq<string>, raws: seq<RawRow>, toNumeric: string -> Option<real>)
    : seq<Row>
  {
    ImputeBilling(Distinct.Dedup(Normalised(header, raws, toNumeric)), LoadedColumns(header))
  }

  /** The columns of the cleaned table. */
  function CleanedColumns(header: seq<string>): set<Column> {
    var columns := LoadedColumns(header);
    columns + (if Age in columns then {AgeGroup} else {}) + {AdmissionYear, AdmissionMonth, MonthName}
  }

  /** The cleaned and enriched table. */
  function Cleaned(header: seq<string>, raws: seq<RawRow>, toNumeric: string -> Option<real>)
    : seq<Row>
    requires DateOfAdmission in LoadedColumns(header)
  {
    var columns := LoadedColumns(header);
    DeriveDates(DeriveAgeGroup(FillUnknown(Imputed(header, raws, toNumeric), columns), columns))
  }

  /** After gender normalisation and trimming every present Gender, Insurance Provider and Blood Type cell holds text. */
  lemma TextStepsFilledIn(rows: seq<Row>, columns: set<Column>)
    ensures FilledIn(TrimText(NormaliseGenders(rows, columns), columns), columns)
  {
    var g := NormaliseGenders(rows, columns);
    TrimTextSpec(g, columns);
    var t := TrimText(g, columns);
    forall i | 0 <= i < |t|
      ensures Gender in columns ==> t[i].gender.Some?
      ensures InsuranceProvider in columns ==> t[i].insurance.Some?
      ensures BloodType in columns ==> t[i].bloodType.Some?
    {
      assert SameOutsideText(g[i], t[i]);
      assert TextCell(t[i], InsuranceProvider) == t[i].insurance;
      assert TextCell(t[i], BloodType) == t[i].bloodType;
    }
  }

  lemma NormalisedFilledIn(header: seq<string>, raws: seq<RawRow>, toNumeric: string -> Option<real>)
    ensures FilledIn(Normalised(header, raws, toNumeric), LoadedColumns(header))
  {
    var columns := LoadedColumns(header);
    TextStepsFilledIn(CoerceAll(raws, columns, toNumeric), columns);
  }

  /**
   * The "Unknown" fills never change the table: by then every Gender,
   * Insurance Provider and Blood Type cell is text (a missing one reads "nan").
   */
  lemma FillsChangeNothing(header: seq<string>, raws: seq<RawRow>, toNumeric: string -> Option<real>)
    ensures FillUnknown(Imputed(header, raws, toNumeric), LoadedColumns(header))
         == Imputed(header, raws, toNumeric)
  {
    var columns := LoadedColumns(header);
    var n := Normalised(header, raws, toNumeric);
    var d := Distinct.Dedup(n);
    NormalisedFilledIn(header, raws, toNumeric);
    assert FilledIn(d, columns) by {
      forall i | 0 <= i < |d|
        ensures Gender in columns ==> d[i].gender.Some?
        ensures InsuranceProvider in columns ==> d[i].insurance.Some?
        ensures BloodType in columns ==> d[i].bloodType.Some?
      {
        assert d[i] in d;
        var j :| 0 <= j < |n| && n[j] == d[i];
      }
    }
    var p := Imputed(header, raws, toNumeric);
    assert FilledIn(p, columns) by {
      if BillingAmount in columns { ImputeSpec(d, columns); }
    }
    FillUnknownNoop(p, columns);
  }

  /** A missing Gender ends up as the text "Nan", never "Unknown". */
  lemma MissingGenderIsNan(header: seq<string>, raws: seq<RawRow>, toNumeric: string -> Option<real>, k: nat)
    requires Gender in LoadedColumns(header) && k < |raws| && raws[k].gender.None?
    ensures Normalised(header, raws, toNumeric)[k].gender == Some("Nan")
  {
    var columns := LoadedColumns(header);
    var g := NormaliseGenders(CoerceAll(raws, columns, toNumeric), columns);
    TrimTextSpec(g, columns);
    assert SameOutsideText(g[k], Normalised(header, raws, toNumeric)[k]);
    N.GenderValueMissing();
  }

  /** A missing free-text cell becomes the text "nan" when it is stripped. */
  lemma MissingTextIsNan()
    ensures TrimmedCell(None) == Some("nan")
  {
    Text.StripTrimmed("nan");
  }

  /** A missing Insurance Provider ends up as the text "nan", never "Unknown". */
  lemma MissingInsuranceIsNan(header: seq<string>, raws: seq<RawRow>, toNumeric: string -> Option<real>, k: nat)
    requires InsuranceProvider in LoadedColumns(header) && k < |raws| && raws[k].insurance.None?
    ensures Normalised(header, raws, toNumeric)[k].insurance == Some("nan")
  {
    var columns := LoadedColumns(header);
    assert TextCell(CoerceAll(raws, columns, toNumeric)[k], InsuranceProvider) == None;
    PreparedMissingIsNan(raws, columns, toNumeric, k, InsuranceProvider);
  }

  /** A missing Blood Type ends up as the text "nan", never "Unknown". */
  lemma MissingBloodTypeIsNan(header: seq<string>, raws: seq<RawRow>, toNumeric: string -> Option<real>, k: nat)
    requires BloodType in LoadedColumns(header) && k < |raws| && raws[k].bloodType.None?
    ensures Normalised(header, raws, toNumeric)[k].bloodType == Some("nan")
  {
    var columns := LoadedColumns(header);
    assert TextCell(CoerceAll(raws, columns, toNumeric)[k], BloodType) == None;
    PreparedMissingIsNan(raws, columns, toNumeric, k, BloodType);
  }

  /** A free-text cell missing after coercion is "nan" once the text steps are done. */
  lemma PreparedMissingIsNan(raws: seq<RawRow>, columns: set<Column>, toNumeric: string -> Option<real>,
                             k: nat, c: Column)
    requires k < |raws| && c in TextColumns && c in columns
    requires TextCell(CoerceAll(raws, columns, toNumeric)[k], c).None?
    ensures TextCell(TrimText(NormaliseGenders(CoerceAll(raws, columns, toNumeric), columns), columns)[k], c)
      == Some("nan")
  {
    var coerced := CoerceAll(raws, columns, toNumeric);
    var g := NormaliseGenders(coerced, columns);
    assert g[k] == coerced[k].(gender := g[k].gender);
    TrimmedMissingIsNan(g, columns, k, c);
  }

  /** The trimming loop turns a missing cell of a present free-text column into "nan". */
  lemma TrimmedMissingIsNan(rows: seq<Row>, columns: set<Column>, k: nat, c: Column)
    requires k < |rows| && c in TextColumns && c in columns && TextCell(rows[k], c).None?
    ensures TextCell(TrimText(rows, columns)[k], c) == Some("nan")
  {
    TrimTextSpec(rows, columns);
    MissingTextIsNan();
  }

  /**
   * A missing Billing Amount stays missing through the coercion and the text
   * conversions, provided the parser makes nothing of the empty string.
   */
  lemma MissingBillingStaysMissing(header: seq<string>, raws: seq<RawRow>, toNumeric: string -> Option<real>,
                                   k: nat)
    requires k < |raws| && raws[k].billing.None? && toNumeric("") == None
    ensures Normalised(header, raws, toNumeric)[k].billing.None?
  {
    var columns := LoadedColumns(header);
    var g := NormaliseGenders(CoerceAll(raws, columns, toNumeric), columns);
    TrimTextSpec(g, columns);
    assert SameOutsideText(g[k], Normalised(header, raws, toNumeric)[k]);
    N.BillingAmountMissing(toNumeric);
  }

  /** The fills and the derived columns leave every billing amount as it is. */
  lemma LaterStepsKeepBilling(rows: seq<Row>, columns: set<Column>)
    ensures var c := DeriveDates(DeriveAgeGroup(FillUnknown(rows, columns), columns));
      |c| == |rows| && forall i :: 0 <= i < |rows| ==> c[i].billing == rows[i].billing
  {
  }

  predicate AnyBillingPresent(rows: seq<Row>) {
    exists i :: 0 <= i < |rows| && rows[i].billing.Some?
  }

  /** Duplicate removal keeps some amount exactly when there was one, and keeps some row exactly when there was one. */
  lemma DedupBilling(rows: seq<Row>)
    ensures AnyBillingPresent(Distinct.Dedup(rows)) <==> AnyBillingPresent(rows)
    ensures |Distinct.Dedup(rows)| == 0 <==> |rows| == 0
  {
    var d := Distinct.Dedup(rows);
    if AnyBillingPresent(rows) {
      var i :| 0 <= i < |rows| && rows[i].billing.Some?;
      assert rows[i] in d;
    }
    if AnyBillingPresent(d) {
      var j :| 0 <= j < |d| && d[j].billing.Some?;
      assert d[j] in d;
    }
    if |rows| > 0 {
      assert rows[0] in d;
    }
  }

  /**
   * On any table, Billing Amount is complete after duplicate removal and
   * imputation exactly when the table was empty or held at least one amount.
   */
  lemma ImputedBillingComplete(rows: seq<Row>, columns: set<Column>)
    requires BillingAmount in columns
    ensures !AnyBillingMissing(ImputeBilling(Distinct.Dedup(rows), columns))
        <==> (|rows| == 0 || AnyBillingPresent(rows))
  {
    var d := Distinct.Dedup(rows);
    var p := ImputeBilling(d, columns);
    DedupBilling(rows);
    if AnyBillingPresent(d) {
      ImputeComplete(d, columns);
      assert !AnyBillingMissing(p);
    } else {
      ImputeAllMissing(d, columns);
      assert p == d;
      if |d| > 0 {
        assert d[0].billing.None?;
        assert AnyBillingMissing(p);
      }
    }
  }

  /**
   * Billing Amount is complete after cleaning exactly when there were no rows
   * or at least one amount survived coercion: if every amount was missing the
   * median is missing and so are all amounts.
   */
  lemma CleanedBillingComplete(header: seq<string>, raws: seq<RawRow>, toNumeric: string -> Option<real>)
    requires DateOfAdmission in LoadedColumns(header) && BillingAmount in LoadedColumns(header)
    ensures !AnyBillingMissing(Cleaned(header, raws, toNumeric))
        <==> (|raws| == 0 || AnyBillingPresent(Normalised(header, raws, toNumeric)))
  {
    var columns := LoadedColumns(header);
    var n := Normalised(header, raws, toNumeric);
    var p := Imputed(header, raws, toNumeric);
    var c := Cleaned(header, raws, toNumeric);
    assert c == DeriveDates(DeriveAgeGroup(FillUnknown(p, columns), columns));
    assert p == ImputeBilling(Distinct.Dedup(n), columns);
    assert |n| == |raws|;
    LaterStepsKeepBilling(p, columns);
    assert AnyBillingMissing(c) <==> AnyBillingMissing(p);
    ImputedBillingComplete(n, columns);
  }

  // ---------------------------------------------------------------- duplicates

  /** A row with every cell empty. */
  const EmptyRow: Row := Row(None, None, None, None, None, None, None, None, None, None, [],
                             None, None, None, None)

  /**
   * Imputation after duplicate removal can make two kept rows equal: a row
   * with a missing amount and an otherwise equal row holding the median.
   */
  lemma ImputationCanCreateDuplicates()
    ensures var rows := [EmptyRow, EmptyRow.(billing := Some(5.0))];
      && Distinct.Dedup(rows) == rows
      && ImputeBilling(rows, {BillingAmount}) == [EmptyRow.(billing := Some(5.0))] +
                                                  [EmptyRow.(billing := Some(5.0))]
  {
    var rows := [EmptyRow, EmptyRow.(billing := Some(5.0))];
    assert Sorting.NoDuplicates(rows);
    Distinct.DedupOfDistinct(rows);
    assert rows[1..] == [EmptyRow.(billing := Some(5.0))];
    assert BillingValues(rows) == [5.0] by {
      assert BillingValues(rows[1..][1..]) == [];
    }
    assert Sorting.SortBy([5.0], Stats.AtMost) == [5.0];
    assert Stats.Median([5.0]) == Some(5.0);
    assert AnyBillingMissing(rows) by { assert rows[0].billing.None?; }
  }

  // ---------------------------------------------------------------- conformance

  lemma CoerceAllConforms(raws: seq<RawRow>, columns: set<Column>, toNumeric: string -> Option<real>)
    requires AgeGroup !in columns && AdmissionYear !in columns
    requires AdmissionMonth !in columns && MonthName !in columns
    ensures Conforms(CoerceAll(raws, columns, toNumeric), columns)
  {
  }

  lemma NormaliseGendersConforms(rows: seq<Row>, columns: set<Column>)
    requires Conforms(rows, columns)
    ensures Conforms(NormaliseGenders(rows, columns), columns)
  {
  }

  lemma TrimColumnConforms(rows: seq<Row>, columns: set<Column>, c: Column)
    requires Conforms(rows, columns) && c in TextColumns && c in columns
    ensures Conforms(TrimColumn(rows, c), columns)
  {
    var t := TrimColumn(rows, c);
    forall i | 0 <= i < |t| ensures RowConforms(t[i], columns) {
      assert RowConforms(rows[i], columns);
      WithTextCellConforms(rows[i], columns, c, TrimmedCell(TextCell(rows[i], c)));
    }
  }

  /** Setting a free-text cell of a column the table has fills no absent column. */
  lemma WithTextCellConforms(r: Row, columns: set<Column>, c: Column, v: Option<string>)
    requires RowConforms(r, columns) && c in TextColumns && c in columns
    ensures RowConforms(WithTextCell(r, c, v), columns)
  {
    match c
    case Name =>
    case BloodType =>
    case MedicalCondition =>
    case Doctor =>
    case Hospital =>
    case InsuranceProvider =>
  }

  lemma DedupConforms(rows: seq<Row>, columns: set<Column>)
    requires Conforms(rows, columns)
    ensures Conforms(Distinct.Dedup(rows), columns)
  {
    var d := Distinct.Dedup(rows);
    forall i | 0 <= i < |d| ensures RowConforms(d[i], columns) {
      assert d[i] in d;
      var j :| 0 <= j < |rows| && rows[j] == d[i];
    }
  }

  lemma ImputeConforms(rows: seq<Row>, columns: set<Column>)
    requires Conforms(rows, columns)
    ensures Conforms(ImputeBilling(rows, columns), columns)
  {
  }

  lemma FillUnknownConforms(rows: seq<Row>, columns: set<Column>)
    requires Conforms(rows, columns)
    ensures Conforms(FillUnknown(rows, columns), columns)
  {
  }

  lemma DeriveAgeGroupConforms(rows: seq<Row>, columns: set<Column>)
    requires Conforms(rows, columns)
    ensures Conforms(DeriveAgeGroup(rows, columns), columns + (if Age in columns then {AgeGroup} else {}))
  {
  }

  lemma DeriveDatesConforms(rows: seq<Row>, columns: set<Column>)
    requires Conforms(rows, columns)
    ensures Conforms(DeriveDates(rows), columns + {AdmissionYear, AdmissionMonth, MonthName})
  {
  }
}
