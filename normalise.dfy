/**
 * The per-value rules of the cleaning step: the billing character filter, the
 * gender normaliser, the fixed age buckets and the two month labels derived
 * from an admission date.
 */
module Normalise {
  import opened Wrappers
  import opened Text

  /** `astype(str)` of a cell as loaded: a missing cell (NaN) prints as "nan". */
  function AsText(cell: Option<string>): string {
    match cell
    case None => "nan"
    case Some(s) => s
  }

  // ---------------------------------------------------------------- billing

  /** The characters the regex `[^0-9.\-]` does not match. */
  predicate IsBillingChar(c: char) {
    ('0' <= c <= '9') || c == '.' || c == '-'
  }

  /** `str.replace(r"[^0-9.\-]", "", regex=True)`: drops every other character. */
  function BillingFilter(s: string): (r: string)
    ensures |r| <= |s|
    ensures forall i :: 0 <= i < |r| ==> IsBillingChar(r[i])
  {
    if s == [] then []
    else (if IsBillingChar(s[0]) then [s[0]] else []) + BillingFilter(s[1..])
  }

  /** The filter works character by character, so it keeps the original order. */
  lemma {:induction false} BillingFilterAppend(a: string, b: string)
    ensures BillingFilter(a + b) == BillingFilter(a) + BillingFilter(b)
  {
    if a == [] {
      assert a + b == b;
    } else {
      assert (a + b)[1..] == a[1..] + b;
      BillingFilterAppend(a[1..], b);
    }
  }

  /** One character is kept exactly when it is a digit, a point or a minus sign. */
  lemma BillingFilterChar(c: char)
    ensures BillingFilter([c]) == if IsBillingChar(c) then [c] else []
  {
    assert [c][1..] == [];
  }

  /** Every allowed character occurs as often in the result as in the input; no other does. */
  lemma {:induction false} BillingFilterMultiplicity(s: string, c: char)
    ensures multiset(BillingFilter(s))[c] == if IsBillingChar(c) then multiset(s)[c] else 0
  {
    if s != [] {
      assert s == [s[0]] + s[1..];
      BillingFilterMultiplicity(s[1..], c);
    }
  }

  /** A string is left unchanged exactly when it holds only allowed characters. */
  lemma {:induction false} BillingFilterFixes(s: string)
    ensures BillingFilter(s) == s <==> forall i :: 0 <= i < |s| ==> IsBillingChar(s[i])
  {
    if s != [] {
      BillingFilterFixes(s[1..]);
      if !IsBillingChar(s[0]) {
        assert |BillingFilter(s)| < |s|;
      } else if BillingFilter(s) == s {
        assert BillingFilter(s[1..]) == s[1..];
        assert forall i :: 0 <= i < |s| ==> IsBillingChar(s[i]) by {
          forall i | 0 <= i < |s| ensures IsBillingChar(s[i]) {
            if i > 0 { assert s[i] == s[1..][i - 1]; }
          }
        }
      }
    }
  }

  /** Filtering twice is filtering once. */
  lemma BillingFilterIdempotent(s: string)
    ensures BillingFilter(BillingFilter(s)) == BillingFilter(s)
  {
    BillingFilterFixes(BillingFilter(s));
  }

  /** A currency string loses its symbol and its thousands separator. */
  lemma BillingFilterExample()
    ensures BillingFilter("$1,234.56") == "1234.56"
  {
  }

  /** A missing billing cell reaches the parser as the empty string. */
  lemma BillingFilterMissing()
    ensures BillingFilter(AsText(None)) == ""
  {
  }

  /** The billing amount of a loaded cell: filtered text handed to `pd.to_numeric`. */
  function BillingAmount(cell: Option<string>, toNumeric: string -> Option<real>): Option<real> {
    toNumeric(BillingFilter(AsText(cell)))
  }

  /** A missing amount is missing after parsing when the parser rejects the empty string. */
  lemma BillingAmountMissing(toNumeric: string -> Option<real>)
    requires toNumeric("") == None
    ensures BillingAmount(None, toNumeric) == None
  {
    BillingFilterMissing();
  }

  // ---------------------------------------------------------------- gender

  /** The replacement {"M": "Male", "F": "Female"} of whole values. */
  function Expanded(t: string): (g: string)
    ensures g == "Male" <==> t == "M" || t == "Male"
    ensures g == "Female" <==> t == "F" || t == "Female"
    ensures t != "M" && t != "F" ==> g == t
  {
    if t == "M" then "Male" else if t == "F" then "Female" else t
  }

  /**
   * `astype(str).str.strip().str.title()` followed by the replacement
   * {"M": "Male", "F": "Female"} of whole values.
   */
  function GenderValue(cell: Option<string>): (g: string)
    ensures g != "M" && g != "F"
    ensures Trimmed(g) && Title(g) == g
    ensures var t := Title(Strip(AsText(cell)));
      && (g == "Male" <==> t == "M" || t == "Male")
      && (g == "Female" <==> t == "F" || t == "Female")
      && (t != "M" && t != "F" ==> g == t)
  {
    var s := Strip(AsText(cell));
    var t := Title(s);
    TitleOfMaleFemale();
    TitleKeepsTrimmed(s);
    TitleIdempotent(s);
    Expanded(t)
  }

  lemma TitleOfMaleFemale()
    ensures Title("Male") == "Male" && Title("Female") == "Female"
  {
    assert "Male" == ['M'] + "ale";
    assert "Female" == ['F'] + "emale";
  }

  /** Normalising a normalised gender changes nothing. */
  lemma GenderValueIdempotent(cell: Option<string>)
    ensures GenderValue(Some(GenderValue(cell))) == GenderValue(cell)
  {
    var g := GenderValue(cell);
    StripTrimmed(g);
  }

  /** A missing gender becomes "Nan", not "Unknown". */
  lemma GenderValueMissing()
    ensures GenderValue(None) == "Nan"
  {
    assert Strip("nan") == "nan" by { StripTrimmed("nan"); }
    var t := Title("nan");
    assert t[0] == 'N' && t[1] == 'a' && t[2] == 'n';
    assert t == "Nan";
  }

  /** A lone "m" with surrounding blanks is recognised as male. */
  lemma GenderValuePaddedM()
    ensures GenderValue(Some(" m ")) == "Male"
  {
    assert LeadingSpace(" m ") == 1;
    assert " m "[1..] == "m ";
    assert TrailingSpace("m ") == 1;
    assert Strip(" m ") == "m";
    assert Title("m") == "M";
  }

  /** Spelled-out values are only re-cased. */
  lemma GenderValueUpperCase()
    ensures GenderValue(Some("FEMALE")) == "Female"
  {
    StripTrimmed("FEMALE");
    var t := Title("FEMALE");
    assert t[0] == 'F' && t[1] == 'e' && t[2] == 'm' && t[3] == 'a' && t[4] == 'l' && t[5] == 'e';
    assert t == "Female";
  }

  lemma GenderValueLowerCase()
    ensures GenderValue(Some("male")) == "Male"
  {
    StripTrimmed("male");
    assert Title("male") == "Male" by {
      assert "male" == ['m'] + "ale";
    }
  }

  // ---------------------------------------------------------------- age group

  datatype AgeGroup = Child | Adult | Middle | Senior

  /** The category labels given to `pd.cut`. */
  function Label(g: AgeGroup): string {
    match g
    case Child => "Child (0-18)"
    case Adult => "Adult (19-40)"
    case Middle => "Middle (41-60)"
    case Senior => "Senior (61+)"
  }

  /** The bin edges given to `pd.cut`. */
  const AgeBins: seq<real> := [0.0, 18.0, 40.0, 60.0, 200.0]

  function BinIndex(g: AgeGroup): (k: nat)
    ensures k < |AgeBins| - 1
  {
    match g
    case Child => 0
    case Adult => 1
    case Middle => 2
    case Senior => 3
  }

  /**
   * Membership of bin `g` with `right=True, include_lowest=True`: each bin is
   * closed on the right, and only the first one is also closed on the left.
   */
  predicate InBin(g: AgeGroup, a: real) {
    var k := BinIndex(g);
    (if k == 0 then AgeBins[k] <= a else AgeBins[k] < a) && a <= AgeBins[k + 1]
  }

  /** `pd.cut` of one age over the fixed bins. */
  function AgeGroupOf(a: real): (r: Option<AgeGroup>)
    ensures forall g :: r == Some(g) <==> InBin(g, a)
    ensures r == None <==> a < AgeBins[0] || AgeBins[|AgeBins| - 1] < a
  {
    if a < 0.0 then None
    else if a <= 18.0 then Some(Child)
    else if a <= 40.0 then Some(Adult)
    else if a <= 60.0 then Some(Middle)
    else if a <= 200.0 then Some(Senior)
    else None
  }

  /** A missing age gets no group; a present one the group whose bin holds it. */
  function AgeGroupFor(age: Option<real>): (r: Option<AgeGroup>)
    ensures age == None ==> r == None
    ensures forall g :: r == Some(g) <==> age.Some? && InBin(g, age.value)
  {
    match age
    case None => None
    case Some(a) => AgeGroupOf(a)
  }

  /** No age lies in two bins. */
  lemma BinsDisjoint(g: AgeGroup, h: AgeGroup, a: real)
    requires InBin(g, a) && InBin(h, a)
    ensures g == h
  {
  }

  /** Every age in [0, 200] lies in some bin. */
  lemma BinsCover(a: real)
    requires 0.0 <= a <= 200.0
    ensures exists g :: InBin(g, a)
  {
    assert AgeGroupOf(a).Some?;
    assert InBin(AgeGroupOf(a).value, a);
  }

  lemma AgeGroupExamples()
    ensures AgeGroupOf(0.0) == Some(Child) && AgeGroupOf(17.0) == Some(Child)
    ensures AgeGroupOf(18.0) == Some(Child) && AgeGroupOf(19.0) == Some(Adult)
    ensures AgeGroupOf(40.0) == Some(Adult) && AgeGroupOf(41.0) == Some(Middle)
    ensures AgeGroupOf(60.0) == Some(Middle) && AgeGroupOf(61.0) == Some(Senior)
    ensures AgeGroupOf(200.0) == Some(Senior) && AgeGroupOf(201.0) == None
    ensures AgeGroupOf(-1.0) == None && AgeGroupOf(18.5) == Some(Adult)
  {
  }

  lemma LabelInjective(g: AgeGroup, h: AgeGroup)
    requires Label(g) == Label(h)
    ensures g == h
  {
    assert Label(g)[0] == Label(h)[0];
    assert Label(g)[1] == Label(h)[1];
  }

  // ---------------------------------------------------------------- dates

  /** Years a pandas `Timestamp` can hold (1677-09-21 to 2262-04-11). */
  type Year = y: int | 1677 <= y <= 2262 witness 1970
  type MonthNumber = m: int | 1 <= m <= 12 witness 1
  type DayNumber = d: int | 1 <= d <= 31 witness 1

  /** A parsed Date of Admission (time of day is not modelled). */
  datatype Date = Date(year: Year, month: MonthNumber, day: DayNumber)

  /** Year-then-month order of two dates' months. */
  predicate MonthBefore(d: Date, e: Date) {
    d.year < e.year || (d.year == e.year && d.month < e.month)
  }

  /** `dt.to_period("M").astype(str)`: the month as "YYYY-MM". */
  function MonthKey(d: Date): (k: string)
    ensures |k| == 7 && k[4] == '-'
  {
    Padded(d.year, 4) + ("-" + Padded(d.month, 2))
  }

  /** The key reads back as the date's year and month. */
  lemma MonthKeyFields(d: Date)
    ensures DigitsValue(MonthKey(d)[..4]) == d.year
    ensures DigitsValue(MonthKey(d)[5..]) == d.month
  {
    assert MonthKey(d)[..4] == Padded(d.year, 4);
    assert MonthKey(d)[5..] == Padded(d.month, 2);
    PaddedValue(d.year, 4);
    PaddedValue(d.month, 2);
  }

  /** String order of month keys is chronological order of the months. */
  lemma MonthKeyOrder(d: Date, e: Date)
    ensures LexLess(MonthKey(d), MonthKey(e)) <==> MonthBefore(d, e)
  {
    var dy, ey := Padded(d.year, 4), Padded(e.year, 4);
    var dm, em := Padded(d.month, 2), Padded(e.month, 2);
    LexLessAppend(dy, "-" + dm, ey, "-" + em);
    LexLessAppend("-", dm, "-", em);
    PaddedLess(d.year, e.year, 4);
    PaddedLess(d.month, e.month, 2);
    PaddedInjective(d.year, e.year, 4);
  }

  /** Two dates share a key exactly when they fall in the same month. */
  lemma MonthKeySame(d: Date, e: Date)
    ensures MonthKey(d) == MonthKey(e) <==> (d.year == e.year && d.month == e.month)
  {
    if MonthKey(d) == MonthKey(e) {
      MonthKeyFields(d);
      MonthKeyFields(e);
    }
  }

  lemma MonthKeyExample()
    ensures MonthKey(Date(2023, 1, 15)) == "2023-01"
  {
  }

  /** The `%b` month abbreviations of the C locale. */
  const MonthAbbrevs: seq<string> :=
    ["Jan", "Feb", "Mar", "Apr", "May", "Jun", "Jul", "Aug", "Sep", "Oct", "Nov", "Dec"]

  /** `dt.strftime("%b")`. */
  function MonthName(d: Date): (name: string)
    ensures |name| == 3
  {
    MonthAbbrevs[d.month - 1]
  }

  /** The month number a `%b` abbreviation names, if any. */
  function MonthOfName(name: string): Option<MonthNumber> {
    if name in MonthAbbrevs then
      var m :| 0 <= m < |MonthAbbrevs| && MonthAbbrevs[m] == name;
      Some(m + 1)
    else None
  }

  /** Each abbreviation names its own month and no other. */
  lemma MonthNameRoundTrip(d: Date)
    ensures MonthOfName(MonthName(d)) == Some(d.month)
  {
    var name := MonthName(d);
    var m :| 0 <= m < |MonthAbbrevs| && MonthAbbrevs[m] == name;
    assert m == d.month - 1;
  }
}
