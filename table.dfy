/**
 * The patient table as the script holds it: one object whose rows and
 * column set are rewritten step by step, in the order of the cleaning and
 * enrichment block. Each step is proved to produce exactly the table the
 * corresponding `Cleaning` function describes.
 */
module Table {
  import opened Wrappers
  import opened Records
  import C = Cleaning
  import Distinct

  class PatientTable {
    var columns: set<Column>
    var rows: seq<Row>

    /** Every column the table lacks is empty in every row. */
    ghost predicate Valid()
      reads this
    {
      Conforms(rows, columns)
    }

    /**
     * The loaded table with its header stripped and the date, billing and
     * age conversions applied.
     */
    constructor Load(header: seq<string>, raws: seq<RawRow>, toNumeric: string -> Option<real>)
      ensures columns == C.LoadedColumns(header)
      ensures rows == C.CoerceAll(raws, columns, toNumeric)
      ensures |rows| == |raws|
      ensures Valid()
    {
      var present := C.LoadedColumns(header);
      assert AgeGroup !in present && AdmissionYear !in present;
      assert AdmissionMonth !in present && MonthName !in present;
      columns := present;
      rows := C.CoerceAll(raws, present, toNumeric);
      C.CoerceAllConforms(raws, present, toNumeric);
    }

    /** Gender trimmed, title-cased and mapped from "M"/"F", when the column exists. */
    method NormaliseGender()
      requires Valid()
      modifies this
      ensures columns == old(columns)
      ensures rows == C.NormaliseGenders(old(rows), columns)
      ensures Valid()
    {
      C.NormaliseGendersConforms(rows, columns);
      if Gender in columns {
        rows := C.NormaliseGenders(rows, columns);
      }
    }

    /** The loop over the free-text columns, stripping each one that exists. */
    method TrimTextColumns()
      requires Valid()
      modifies this
      ensures columns == old(columns)
      ensures rows == C.TrimText(old(rows), columns)
      ensures Valid()
    {
      for k := 0 to |TextColumns|
        invariant columns == old(columns)
        invariant rows == C.TrimTextUpTo(old(rows), columns, k)
        invariant Valid()
      {
        var col := TextColumns[k];
        if col in columns {
          C.TrimColumnConforms(rows, columns, col);
          rows := C.TrimColumn(rows, col);
        }
      }
    }

    /** `drop_duplicates()`: the first occurrence of every row, in order. */
    method DropDuplicates()
      requires Valid()
      modifies this
      ensures columns == old(columns)
      ensures rows == Distinct.Dedup(old(rows))
      ensures Valid()
    {
      C.DedupConforms(rows, columns);
      rows := Distinct.Dedup(rows);
    }

    /** The billing median imputation, then the three "Unknown" fills. */
    method FillMissing()
      requires Valid()
      modifies this
      ensures columns == old(columns)
      ensures rows == C.FillUnknown(C.ImputeBilling(old(rows), columns), columns)
      ensures Valid()
    {
      C.ImputeConforms(rows, columns);
      if BillingAmount in columns && C.AnyBillingMissing(rows) {
        rows := C.ImputeBilling(rows, columns);
      }
      C.FillUnknownConforms(rows, columns);
      rows := C.FillUnknown(rows, columns);
    }

    /** Age Group when Age exists; then Admission Year, Admission Month and Month Name. */
    method DeriveColumns()
      requires Valid() && DateOfAdmission in columns
      modifies this
      ensures columns == old(columns) + (if Age in old(columns) then {AgeGroup} else {})
                         + {AdmissionYear, AdmissionMonth, MonthName}
      ensures rows == C.DeriveDates(C.DeriveAgeGroup(old(rows), old(columns)))
      ensures Valid()
    {
      C.DeriveAgeGroupConforms(rows, columns);
      if Age in columns {
        rows := C.DeriveAgeGroup(rows, columns);
        columns := columns + {AgeGroup};
      }
      C.DeriveDatesConforms(rows, columns);
      rows := C.DeriveDates(rows);
      columns := columns + {AdmissionYear, AdmissionMonth, MonthName};
    }
  }

  /** The whole cleaning and enrichment block, step by step on one table. */
  method CleanAndEnrich(header: seq<string>, raws: seq<RawRow>, toNumeric: string -> Option<real>)
    returns (t: PatientTable)
    requires DateOfAdmission in C.LoadedColumns(header)
    ensures fresh(t) && t.Valid()
    ensures t.columns == C.CleanedColumns(header)
    ensures t.rows == C.Cleaned(header, raws, toNumeric)
  {
    t := new PatientTable.Load(header, raws, toNumeric);
    t.NormaliseGender();
    t.TrimTextColumns();
    assert t.rows == C.Normalised(header, raws, toNumeric);
    t.DropDuplicates();
    t.FillMissing();
    t.DeriveColumns();
  }
}
