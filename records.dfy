/**
 * The Patient Record Table's columns and rows. A row has one field per known
 * column; a column the table does not have is `None` in every row, and
 * unrecognised CSV columns travel along as `extra` cells.
 */
module Records {
  import opened Wrappers
  import N = Normalise
  import Text

  datatype Column =
    | Name | BloodType | MedicalCondition | Doctor | Hospital | InsuranceProvider
    | Gender | BillingAmount | Age | DateOfAdmission
    | AgeGroup | AdmissionYear | AdmissionMonth | MonthName

  /** The header each column has in the data. */
  function ColumnName(c: Column): string {
    match c
    case Name => "Name"
    case BloodType => "Blood Type"
    case MedicalCondition => "Medical Condition"
    case Doctor => "Doctor"
    case Hospital => "Hospital"
    case InsuranceProvider => "Insurance Provider"
    case Gender => "Gender"
    case BillingAmount => "Billing Amount"
    case Age => "Age"
    case DateOfAdmission => "Date of Admission"
    case AgeGroup => "Age Group"
    case AdmissionYear => "Admission Year"
    case AdmissionMonth => "Admission Month"
    case MonthName => "Month Name"
  }

  /** The columns the input file may carry. */
  const InputColumns: seq<Column> :=
    [DateOfAdmission, BillingAmount, Age, Gender,
     Name, BloodType, MedicalCondition, Doctor, Hospital, InsuranceProvider]

  /** The free-text columns, in the order the trimming loop visits them. */
  const TextColumns: seq<Column> :=
    [Name, BloodType, MedicalCondition, Doctor, Hospital, InsuranceProvider]

  /** `df.columns = [c.strip() for c in df.columns]`. */
  function StripHeader(header: seq<string>): (r: seq<string>)
    ensures |r| == |header|
    ensures forall i :: 0 <= i < |header| ==> r[i] == Text.Strip(header[i])
  {
    seq(|header|, i requires 0 <= i < |header| => Text.Strip(header[i]))
  }

  /** The known input columns whose name appears in the stripped header. */
  function PresentColumns(header: seq<string>): set<Column> {
    set c | c in InputColumns && ColumnName(c) in StripHeader(header)
  }

  /** A column is present exactly when some header entry strips to its name. */
  lemma PresentColumnsSpec(header: seq<string>, c: Column)
    ensures c in PresentColumns(header) <==>
      c in InputColumns && exists i :: 0 <= i < |header| && Text.Strip(header[i]) == ColumnName(c)
  {
    if c in InputColumns && ColumnName(c) in StripHeader(header) {
      var i :| 0 <= i < |header| && StripHeader(header)[i] == ColumnName(c);
      assert Text.Strip(header[i]) == ColumnName(c);
    }
  }

  /** A header cell with surrounding blanks still names its column. */
  lemma PaddedHeaderExample()
    ensures Age in PresentColumns([" Age "])
  {
    assert Text.LeadingSpace(" Age ") == 1;
    assert " Age "[1..] == "Age ";
    assert Text.TrailingSpace("Age ") == 1;
    assert Text.Strip(" Age ") == "Age";
    assert Text.Strip([" Age "][0]) == ColumnName(Age);
    assert Age in InputColumns;
    PresentColumnsSpec([" Age "], Age);
  }

  /**
   * A row as loaded. Text cells are `None` when empty (NaN). Age and Date of
   * Admission hold what `pd.to_numeric` and `pd.to_datetime` made of the cell;
   * Billing Amount is still text, as `astype(str)` renders the loaded cell.
   */
  datatype RawRow = RawRow(
    name: Option<string>, bloodType: Option<string>, condition: Option<string>,
    doctor: Option<string>, hospital: Option<string>, insurance: Option<string>,
    gender: Option<string>, billing: Option<string>, age: Option<real>,
    admission: Option<N.Date>, extra: seq<Option<string>>)

  /** A row of the table from the type coercions on. */
  datatype Row = Row(
    name: Option<string>, bloodType: Option<string>, condition: Option<string>,
    doctor: Option<string>, hospital: Option<string>, insurance: Option<string>,
    gender: Option<string>, billing: Option<real>, age: Option<real>,
    admission: Option<N.Date>, extra: seq<Option<string>>,
    ageGroup: Option<N.AgeGroup>, admissionYear: Option<int>,
    admissionMonth: Option<string>, monthName: Option<string>)

  /** The cell of a free-text column. */
  function TextCell(r: Row, c: Column): Option<string>
    requires c in TextColumns
  {
    match c
    case Name => r.name
    case BloodType => r.bloodType
    case MedicalCondition => r.condition
    case Doctor => r.doctor
    case Hospital => r.hospital
    case InsuranceProvider => r.insurance
  }

  /** `r` and `r'` agree everywhere except, possibly, on the free-text cells. */
  predicate SameOutsideText(r: Row, r': Row) {
    && r'.gender == r.gender && r'.billing == r.billing && r'.age == r.age
    && r'.admission == r.admission && r'.extra == r.extra && r'.ageGroup == r.ageGroup
    && r'.admissionYear == r.admissionYear && r'.admissionMonth == r.admissionMonth
    && r'.monthName == r.monthName
  }

  /** `r` with the cell of free-text column `c` replaced by `v`. */
  function WithTextCell(r: Row, c: Column, v: Option<string>): (r': Row)
    requires c in TextColumns
    ensures TextCell(r', c) == v
    ensures forall d :: d in TextColumns && d != c ==> TextCell(r', d) == TextCell(r, d)
    ensures SameOutsideText(r, r')
  {
    match c
    case Name => r.(name := v)
    case BloodType => r.(bloodType := v)
    case MedicalCondition => r.(condition := v)
    case Doctor => r.(doctor := v)
    case Hospital => r.(hospital := v)
    case InsuranceProvider => r.(insurance := v)
  }

  /** The positions among the first `k` rows whose cell, as `cell` reads it, holds `x`. */
  ghost function RowsHolding<V>(rows: seq<Row>, cell: Row -> Option<V>, x: V, k: nat): set<int>
    requires k <= |rows|
  {
    set i | 0 <= i < k && cell(rows[i]) == Some(x)
  }

  /** The positions among the first `k` rows whose cell, as `cell` reads it, is not missing. */
  ghost function FilledRows<V>(rows: seq<Row>, cell: Row -> Option<V>, k: nat): set<int>
    requires k <= |rows|
  {
    set i | 0 <= i < k && cell(rows[i]).Some?
  }

  /**
   * The non-missing cells of one column among the first `k` rows, in row
   * order; with `k == |rows|` this is what `dropna()` keeps of a column:
   * every value as often as rows hold it.
   */
  function Present<V(!new)>(rows: seq<Row>, cell: Row -> Option<V>, k: nat): (xs: seq<V>)
    requires k <= |rows|
    ensures |xs| == |FilledRows(rows, cell, k)| <= k
    ensures (forall i :: 0 <= i < k ==> cell(rows[i]).Some?) ==> |xs| == k
    ensures forall x :: multiset(xs)[x] == |RowsHolding(rows, cell, x, k)|
    ensures forall x :: x in xs <==> exists i :: 0 <= i < k && cell(rows[i]) == Some(x)
  {
    if k == 0 then []
    else
      var rest := Present(rows, cell, k - 1);
      var c := cell(rows[k - 1]);
      var xs := rest + if c.Some? then [c.value] else [];
      FilledSnoc(rows, cell, k);
      HoldingStep(rows, cell, k, rest, xs);
      HoldersPresent(rows, cell, k, xs);
      xs
  }

  /** The multiplicities after one more row follow from those before it. */
  lemma HoldingStep<V(!new)>(rows: seq<Row>, cell: Row -> Option<V>, k: nat, rest: seq<V>, xs: seq<V>)
    requires 0 < k <= |rows|
    requires forall x :: multiset(rest)[x] == |RowsHolding(rows, cell, x, k - 1)|
    requires xs == rest + if cell(rows[k - 1]).Some? then [cell(rows[k - 1]).value] else []
    ensures forall x :: multiset(xs)[x] == |RowsHolding(rows, cell, x, k)|
  {
    assert multiset(xs) == multiset(rest) + multiset(xs[|rest|..]);
    forall x ensures multiset(xs)[x] == |RowsHolding(rows, cell, x, k)| {
      HoldingSnoc(rows, cell, x, k);
    }
  }

  /** A value occurs exactly when some row holds it. */
  lemma HoldersPresent<V(!new)>(rows: seq<Row>, cell: Row -> Option<V>, k: nat, xs: seq<V>)
    requires k <= |rows|
    requires forall x :: multiset(xs)[x] == |RowsHolding(rows, cell, x, k)|
    ensures forall x :: x in xs <==> exists i :: 0 <= i < k && cell(rows[i]) == Some(x)
  {
    forall x ensures x in xs <==> exists i :: 0 <= i < k && cell(rows[i]) == Some(x) {
      HoldingNonEmpty(rows, cell, x, k);
      assert x in xs <==> x in multiset(xs);
    }
  }

  lemma HoldingNonEmpty<V(!new)>(rows: seq<Row>, cell: Row -> Option<V>, x: V, k: nat)
    requires k <= |rows|
    ensures |RowsHolding(rows, cell, x, k)| > 0 <==> exists i :: 0 <= i < k && cell(rows[i]) == Some(x)
  {
    if exists i :: 0 <= i < k && cell(rows[i]) == Some(x) {
      var i :| 0 <= i < k && cell(rows[i]) == Some(x);
      assert i in RowsHolding(rows, cell, x, k);
    }
  }

  /** One more row adds its position to the rows holding `x` exactly when its cell holds `x`. */
  lemma HoldingSnoc<V(!new)>(rows: seq<Row>, cell: Row -> Option<V>, x: V, k: nat)
    requires 0 < k <= |rows|
    ensures |RowsHolding(rows, cell, x, k)| ==
      |RowsHolding(rows, cell, x, k - 1)| + (if cell(rows[k - 1]) == Some(x) then 1 else 0)
  {
    var a := RowsHolding(rows, cell, x, k - 1);
    if cell(rows[k - 1]) == Some(x) {
      assert RowsHolding(rows, cell, x, k) == a + {k - 1};
    } else {
      assert RowsHolding(rows, cell, x, k) == a;
    }
  }

  /** One more row adds its position to the filled rows exactly when its cell is not missing. */
  lemma FilledSnoc<V>(rows: seq<Row>, cell: Row -> Option<V>, k: nat)
    requires 0 < k <= |rows|
    ensures |FilledRows(rows, cell, k)| ==
      |FilledRows(rows, cell, k - 1)| + (if cell(rows[k - 1]).Some? then 1 else 0)
  {
    var a := FilledRows(rows, cell, k - 1);
    if cell(rows[k - 1]).Some? {
      assert FilledRows(rows, cell, k) == a + {k - 1};
    } else {
      assert FilledRows(rows, cell, k) == a;
    }
  }

  /** Every column the table does not have is empty in `r`. */
  predicate RowConforms(r: Row, columns: set<Column>) {
    && (Name !in columns ==> r.name.None?)
    && (BloodType !in columns ==> r.bloodType.None?)
    && (MedicalCondition !in columns ==> r.condition.None?)
    && (Doctor !in columns ==> r.doctor.None?)
    && (Hospital !in columns ==> r.hospital.None?)
    && (InsuranceProvider !in columns ==> r.insurance.None?)
    && (Gender !in columns ==> r.gender.None?)
    && (BillingAmount !in columns ==> r.billing.None?)
    && (Age !in columns ==> r.age.None?)
    && (DateOfAdmission !in columns ==> r.admission.None?)
    && (AgeGroup !in columns ==> r.ageGroup.None?)
    && (AdmissionYear !in columns ==> r.admissionYear.None?)
    && (AdmissionMonth !in columns ==> r.admissionMonth.None?)
    && (MonthName !in columns ==> r.monthName.None?)
  }

  ghost predicate Conforms(rows: seq<Row>, columns: set<Column>) {
    forall i :: 0 <= i < |rows| ==> RowConforms(rows[i], columns)
  }
}
