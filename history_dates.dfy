/**
 * The date helpers of the volunteer-history page, all meant to return no
 * date rather than raise: `_safe_date` checks a year, month and day,
 * three readers take a date from the first ten characters of a string in
 * one layout each ("YYYY-MM-DD", "MM/DD/YYYY", "YYYY/MM/DD"), the query
 * string reader tries them in that order after stripping, and
 * `_coerce_to_date` normalises a stored value.
 *
 * `_safe_date` as written checks the month and the day but not the year,
 * and `datetime.date` raises for year 0, which four zeros in the year
 * field produce. `SafeDateAsWritten` and the `...AsWritten` readers model
 * that; `SafeDate` and the readers built on it, which the rest of the
 * model uses, return no date instead.
 */
module HistoryDates {
  import opened Wrappers
  import opened Text
  import opened Calendar

  /** `_safe_date(year, month, day)`, returning no date for every triple
      `datetime.date` would reject. */
  function SafeDate(year: int, month: int, day: int): (r: Option<Date>)
    ensures r.Some? <==> IsValidDate(year, month, day)
    ensures r.Some? ==> r.value == YMD(year, month, day)
  {
    if !(1 <= month <= 12) then None
    else if !(1 <= day <= DaysInMonth(year, month)) then None
    else if !(MinYear <= year <= MaxYear) then None
    else Some(YMD(year, month, day))
  }

  /** The outcome of a helper as written: no date, a date, or the `ValueError`
      that `datetime.date` raises. */
  datatype Attempt = Absent | Built(date: Date) | Raised

  /** `_safe_date` as written: `calendar.monthrange` accepts any year, so a
      month and day in range reach `datetime.date` even when the year is not. */
  function SafeDateAsWritten(year: int, month: int, day: int): Attempt
  {
    if !(1 <= month <= 12) then Absent
    else if !(1 <= day <= DaysInMonth(year, month)) then Absent
    else if MinYear <= year <= MaxYear then Built(YMD(year, month, day))
    else Raised
  }

  /** As written, `_safe_date` raises exactly for a valid month and day in a year
      outside 1..9999, and otherwise agrees with `SafeDate`. */
  lemma SafeDateAsWrittenRaisesOnlyForYear(year: int, month: int, day: int)
    ensures SafeDateAsWritten(year, month, day) == Raised <==>
      1 <= month <= 12 && 1 <= day <= DaysInMonth(year, month) && !(MinYear <= year <= MaxYear)
    ensures SafeDate(year, month, day).None? <==> SafeDateAsWritten(year, month, day) in {Absent, Raised}
    ensures SafeDate(year, month, day).Some? ==> SafeDateAsWritten(year, month, day) == Built(SafeDate(year, month, day).value)
  {
  }

  /** The three layouts the readers accept. */
  datatype Layout = IsoDash | MonthDaySlash | YearSlash

  /** Where a layout puts its separators and its year, month and day fields. */
  function Separator(l: Layout): char
  {
    if l == IsoDash then '-' else '/'
  }

  function SeparatorAt(l: Layout): (int, int)
  {
    if l == MonthDaySlash then (2, 5) else (4, 7)
  }

  function YearAt(l: Layout): int { if l == MonthDaySlash then 6 else 0 }
  function MonthAt(l: Layout): int { if l == MonthDaySlash then 0 else 5 }
  function DayAt(l: Layout): int { if l == MonthDaySlash then 3 else 8 }

  /** `d` written in layout `l`; for `IsoDash` this is `d.isoformat()`. */
  function Render(l: Layout, d: Date): (s: string)
    ensures |s| == 10
    ensures s[SeparatorAt(l).0] == Separator(l) && s[SeparatorAt(l).1] == Separator(l)
    ensures s[YearAt(l)..YearAt(l) + 4] == Padded(d.year, 4)
    ensures s[MonthAt(l)..MonthAt(l) + 2] == Padded(d.month, 2)
    ensures s[DayAt(l)..DayAt(l) + 2] == Padded(d.day, 2)
  {
    var y, m, dd := Padded(d.year, 4), Padded(d.month, 2), Padded(d.day, 2);
    var sep := [Separator(l)];
    var s := if l == MonthDaySlash then m + sep + dd + sep + y else y + sep + m + sep + dd;
    assert s[YearAt(l)..YearAt(l) + 4] == y;
    assert s[MonthAt(l)..MonthAt(l) + 2] == m;
    assert s[DayAt(l)..DayAt(l) + 2] == dd;
    s
  }

  lemma RenderIsoIsIsoFormat(d: Date)
    ensures Render(IsoDash, d) == IsoFormat(d)
  {
  }

  /** The year, month and day fields of the first ten characters of `s` in layout
      `l`, when the separators are in place and every field is digits. */
  function ReadFields(l: Layout, s: string): Option<YMD>
  {
    if |s| < 10 then None
    else if s[SeparatorAt(l).0] != Separator(l) || s[SeparatorAt(l).1] != Separator(l) then None
    else
      var y, m, d := s[YearAt(l)..YearAt(l) + 4], s[MonthAt(l)..MonthAt(l) + 2], s[DayAt(l)..DayAt(l) + 2];
      if !(IsDigitString(y) && IsDigitString(m) && IsDigitString(d)) then None
      else Some(YMD(DigitsValue(y), DigitsValue(m), DigitsValue(d)))
  }

  /** `_parse_iso_ymd_10`, `_parse_mdy_slash` and `_parse_ymd_slash`. */
  function ParseLayout(l: Layout, s: string): Option<Date>
  {
    match ReadFields(l, s)
    case None => None
    case Some(f) => SafeDate(f.year, f.month, f.day)
  }

  /** The same readers as written, on top of `SafeDateAsWritten`. */
  function ParseLayoutAsWritten(l: Layout, s: string): Attempt
  {
    match ReadFields(l, s)
    case None => Absent
    case Some(f) => SafeDateAsWritten(f.year, f.month, f.day)
  }

  /** The ten characters are the layout's rendering of the date read from them. */
  lemma FieldsRenderBack(l: Layout, s: string, d: Date)
    requires ReadFields(l, s) == Some(d)
    ensures s[..10] == Render(l, d)
  {
    var r := Render(l, d);
    var y, m, dd := s[YearAt(l)..YearAt(l) + 4], s[MonthAt(l)..MonthAt(l) + 2], s[DayAt(l)..DayAt(l) + 2];
    PaddedOfDigits(y);
    PaddedOfDigits(m);
    PaddedOfDigits(dd);
    forall k | 0 <= k < 10 ensures s[k] == r[k] {
      if YearAt(l) <= k < YearAt(l) + 4 {
        assert s[k] == y[k - YearAt(l)] && r[k] == r[YearAt(l)..YearAt(l) + 4][k - YearAt(l)];
      } else if MonthAt(l) <= k < MonthAt(l) + 2 {
        assert s[k] == m[k - MonthAt(l)] && r[k] == r[MonthAt(l)..MonthAt(l) + 2][k - MonthAt(l)];
      } else if DayAt(l) <= k < DayAt(l) + 2 {
        assert s[k] == dd[k - DayAt(l)] && r[k] == r[DayAt(l)..DayAt(l) + 2][k - DayAt(l)];
      }
    }
  }

  lemma PrefixSlice(s: string, i: int, j: int)
    requires 0 <= i <= j <= 10 <= |s|
    ensures s[i..j] == s[..10][i..j]
  {
  }

  /** A zero-padded field inside the first ten characters reads back as its
      number cut to the field's width. */
  lemma FieldReadsBack(s: string, r: string, i: nat, w: nat, n: nat)
    requires |s| >= 10 && s[..10] == r && i + w <= 10 && 0 < w
    requires r[i..i + w] == Padded(n, w) && n < Pow10(w)
    ensures IsDigitString(s[i..i + w]) && DigitsValue(s[i..i + w]) == n
  {
    PrefixSlice(s, i, i + w);
    var t := s[i..i + w];
    assert t == Padded(n, w);
    PaddedValue(n, w);
    assert DigitsValue(t) == n % Pow10(w);
    SmallMod(n, Pow10(w));
  }

  lemma SmallMod(n: nat, p: nat)
    requires n < p
    ensures n % p == n
  {
  }

  /** The rendering of a date reads back as that date. */
  lemma RenderReadsBack(l: Layout, s: string, d: Date)
    requires |s| >= 10 && s[..10] == Render(l, d)
    ensures ReadFields(l, s) == Some(d)
  {
    var r := Render(l, d);
    assert Pow10(4) == 10000 && Pow10(2) == 100;
    FieldReadsBack(s, r, YearAt(l), 4, d.year);
    FieldReadsBack(s, r, MonthAt(l), 2, d.month);
    FieldReadsBack(s, r, DayAt(l), 2, d.day);
    assert s[SeparatorAt(l).0] == r[SeparatorAt(l).0] && s[SeparatorAt(l).1] == r[SeparatorAt(l).1];
  }

  /** A reader returns `d` exactly when the first ten characters are `d` in its
      layout: a date comes back only from a well-formed field, and every valid
      date is read back from its own rendering. */
  lemma ParseLayoutCharacterised(l: Layout, s: string, d: Date)
    ensures ParseLayout(l, s) == Some(d) <==> |s| >= 10 && s[..10] == Render(l, d)
  {
    if ParseLayout(l, s) == Some(d) {
      FieldsRenderBack(l, s, d);
    }
    if |s| >= 10 && s[..10] == Render(l, d) {
      RenderReadsBack(l, s, d);
    }
  }

  /** `_parse_iso_ymd_10(d.isoformat()) == d`. */
  lemma IsoRoundTrip(d: Date)
    ensures ParseLayout(IsoDash, IsoFormat(d)) == Some(d)
  {
    ParseLayoutCharacterised(IsoDash, IsoFormat(d), d);
  }

  /** Only the first ten characters are read: a time or a zone after the date is ignored. */
  lemma TailIgnored(l: Layout, s: string, t: string)
    requires |s| >= 10
    ensures ParseLayout(l, s + t) == ParseLayout(l, s)
  {
    assert (s + t)[..10] == s[..10];
    var st := s + t;
    assert st[YearAt(l)..YearAt(l) + 4] == s[YearAt(l)..YearAt(l) + 4];
    assert st[MonthAt(l)..MonthAt(l) + 2] == s[MonthAt(l)..MonthAt(l) + 2];
    assert st[DayAt(l)..DayAt(l) + 2] == s[DayAt(l)..DayAt(l) + 2];
  }

  /** No string has fields in two layouts. */
  lemma LayoutsExclusive(l: Layout, m: Layout, s: string)
    requires l != m && ReadFields(l, s).Some?
    ensures ReadFields(m, s).None?
  {
    if l == MonthDaySlash || m == MonthDaySlash {
      assert s[0..2][..] == s[..2] && s[..4][2] == s[2];
    }
  }

  /** `_parse_qs_date_noexceptions(s)`: no date for a missing or empty value;
      otherwise the stripped value in the first layout that yields a date. */
  function ParseQsDate(s: Option<string>): (r: Option<Date>)
  {
    if s == None || s.value == "" then None
    else
      var t := Strip(s.value);
      var iso := ParseLayout(IsoDash, t);
      if iso.Some? then iso
      else
        var mdy := ParseLayout(MonthDaySlash, t);
        if mdy.Some? then mdy else ParseLayout(YearSlash, t)
  }

  /** The order in which the layouts are tried does not matter: the query reader
      returns `d` exactly when the stripped value is `d` in some layout. */
  lemma ParseQsDateCharacterised(s: string, d: Date)
    ensures ParseQsDate(Some(s)) == Some(d) <==>
      exists l: Layout :: |Strip(s)| >= 10 && Strip(s)[..10] == Render(l, d)
  {
    ParseLayoutCharacterised(IsoDash, Strip(s), d);
    ParseLayoutCharacterised(MonthDaySlash, Strip(s), d);
    ParseLayoutCharacterised(YearSlash, Strip(s), d);
    if s == "" {
      assert Strip(s) == "";
    }
  }

  /** The query reader as written, where a `ValueError` from a reader propagates. */
  function ParseQsDateAsWritten(s: Option<string>): Attempt
  {
    if s == None || s.value == "" then Absent
    else
      var t := Strip(s.value);
      var iso := ParseLayoutAsWritten(IsoDash, t);
      if iso != Absent then iso
      else
        var mdy := ParseLayoutAsWritten(MonthDaySlash, t);
        if mdy != Absent then mdy else ParseLayoutAsWritten(YearSlash, t)
  }

  /** One reader as written agrees with the corrected one where it does not raise,
      and raises only when the year field reads as 0. */
  lemma LayoutAsWrittenAgrees(l: Layout, t: string)
    ensures ParseLayoutAsWritten(l, t) == Absent <==> ParseLayout(l, t) == None && ParseLayoutAsWritten(l, t) != Raised
    ensures ParseLayout(l, t).Some? ==> ParseLayoutAsWritten(l, t) == Built(ParseLayout(l, t).value)
    ensures ParseLayoutAsWritten(l, t).Built? ==> ParseLayout(l, t) == Some(ParseLayoutAsWritten(l, t).date)
    ensures ParseLayoutAsWritten(l, t) == Raised ==> ReadFields(l, t).Some? && ReadFields(l, t).value.year == 0
  {
    if ReadFields(l, t).Some? {
      var f := ReadFields(l, t).value;
      DigitsValueBound(t[YearAt(l)..YearAt(l) + 4]);
      assert Pow10(4) == 10000;
      SafeDateAsWrittenRaisesOnlyForYear(f.year, f.month, f.day);
    }
  }

  /** Where it does not raise, the reader as written agrees with `ParseQsDate`;
      it raises only when a layout's year field reads as a year outside 1..9999. */
  lemma ParseQsDateAsWrittenAgrees(s: Option<string>)
    ensures ParseQsDateAsWritten(s) == Absent <==> ParseQsDate(s) == None && ParseQsDateAsWritten(s) != Raised
    ensures ParseQsDateAsWritten(s).Built? ==> ParseQsDate(s) == Some(ParseQsDateAsWritten(s).date)
    ensures ParseQsDate(s).Some? ==> ParseQsDateAsWritten(s) == Built(ParseQsDate(s).value)
    ensures ParseQsDateAsWritten(s) == Raised ==>
      exists l: Layout :: ReadFields(l, Strip(s.value)).Some? && ReadFields(l, Strip(s.value)).value.year == 0
  {
    if s.Some? && s.value != "" {
      var t := Strip(s.value);
      LayoutAsWrittenAgrees(IsoDash, t);
      LayoutAsWrittenAgrees(MonthDaySlash, t);
      LayoutAsWrittenAgrees(YearSlash, t);
    }
  }

  /** On a value without surrounding whitespace the query reader tries the three
      readers on the value itself. */
  lemma ParseQsDateUnpadded(s: string)
    requires s != [] && !IsSpace(s[0]) && !IsSpace(s[|s| - 1])
    ensures ParseQsDate(Some(s)) ==
      if ParseLayout(IsoDash, s).Some? then ParseLayout(IsoDash, s)
      else if ParseLayout(MonthDaySlash, s).Some? then ParseLayout(MonthDaySlash, s)
      else ParseLayout(YearSlash, s)
  {
    StripUnpadded(s);
  }

  /** The same for the reader as written. */
  lemma ParseQsDateAsWrittenUnpadded(s: string)
    requires s != [] && !IsSpace(s[0]) && !IsSpace(s[|s| - 1])
    ensures ParseQsDateAsWritten(Some(s)) ==
      if ParseLayoutAsWritten(IsoDash, s) != Absent then ParseLayoutAsWritten(IsoDash, s)
      else if ParseLayoutAsWritten(MonthDaySlash, s) != Absent then ParseLayoutAsWritten(MonthDaySlash, s)
      else ParseLayoutAsWritten(YearSlash, s)
  {
    StripUnpadded(s);
  }

  /** A value with no surrounding whitespace that starts with `d` in some layout
      reads as `d`. */
  lemma ReadsAs(s: string, l: Layout, d: Date)
    requires |s| >= 10 && s[..10] == Render(l, d)
    requires !IsSpace(s[0]) && !IsSpace(s[|s| - 1])
    ensures ParseQsDate(Some(s)) == Some(d)
  {
    StripUnpadded(s);
    ParseQsDateCharacterised(s, d);
  }

  /** A zero-padded field is a digit string whose value is its number cut to the
      field's width. */
  lemma SliceValue(t: string, i: nat, w: nat, n: nat)
    requires 0 < w && i + w <= |t| && t[i..i + w] == Padded(n, w)
    ensures IsDigitString(t[i..i + w]) && DigitsValue(t[i..i + w]) == n % Pow10(w)
  {
    PaddedValue(n, w);
  }

  /** The ISO fields of any three numbers, zero-padded, read back as those numbers
      cut to the width of their fields. */
  lemma ReadIsoFields(y: nat, m: nat, d: nat)
    ensures ReadFields(IsoDash, Padded(y, 4) + "-" + Padded(m, 2) + "-" + Padded(d, 2)) == Some(YMD(y % 10000, m % 100, d % 100))
  {
    var s := Padded(y, 4) + "-" + Padded(m, 2) + "-" + Padded(d, 2);
    assert s[0..4] == Padded(y, 4);
    assert s[5..7] == Padded(m, 2);
    assert s[8..10] == Padded(d, 2);
    assert s[4] == '-' && s[7] == '-';
    SliceValue(s, 0, 4, y);
    SliceValue(s, 5, 2, m);
    SliceValue(s, 8, 2, d);
    assert Pow10(4) == 10000 && Pow10(2) == 100;
  }

  /** Two and four zero-padded digits, written out. */
  lemma PaddedTwo(n: nat)
    ensures Padded(n, 2) == [DigitChar(n / 10 % 10), DigitChar(n % 10)]
  {
    assert Padded(n, 2) == Padded(n / 10, 1) + [DigitChar(n % 10)];
    assert Padded(n / 10, 1) == [DigitChar(n / 10 % 10)];
  }

  lemma PaddedFour(n: nat)
    ensures Padded(n, 4) == [DigitChar(n / 10 / 10 / 10 % 10), DigitChar(n / 10 / 10 % 10), DigitChar(n / 10 % 10), DigitChar(n % 10)]
  {
    assert Padded(n, 4) == Padded(n / 10, 3) + [DigitChar(n % 10)];
    assert Padded(n / 10, 3) == Padded(n / 10 / 10, 2) + [DigitChar(n / 10 % 10)];
    PaddedTwo(n / 10 / 10);
  }

  /** The fields of "0000-01-01". */
  lemma YearZeroFields()
    ensures ReadFields(IsoDash, "0000-01-01") == Some(YMD(0, 1, 1))
  {
    PaddedFour(0);
    PaddedTwo(1);
    assert Padded(0, 4) == "0000" && Padded(1, 2) == "01";
    assert "0000-01-01" == Padded(0, 4) + "-" + Padded(1, 2) + "-" + Padded(1, 2);
    ReadIsoFields(0, 1, 1);
  }

  /** Four zeros in the year field: as written the reader raises `ValueError`
      (year 0 is out of range); corrected, it returns no date. */
  lemma YearZeroRaisesAsWritten()
    ensures ParseQsDateAsWritten(Some("0000-01-01")) == Raised
    ensures ParseQsDate(Some("0000-01-01")) == None
  {
    var s := "0000-01-01";
    YearZeroFields();
    assert SafeDateAsWritten(0, 1, 1) == Raised;
    assert ParseLayoutAsWritten(IsoDash, s) == Raised;
    ParseQsDateAsWrittenUnpadded(s);
    ParseQsDateAsWrittenAgrees(Some(s));
  }

  /** The fields of 22 October 2025, zero-padded. */
  lemma PaddedExample()
    ensures Padded(2025, 4) == "2025" && Padded(10, 2) == "10" && Padded(22, 2) == "22"
  {
    PaddedFour(2025);
    PaddedTwo(10);
    PaddedTwo(22);
  }

  /** "2025-10-22", "10/22/2025" and "2025/10/22" name the same day. */
  lemma IsoLayoutExample()
    ensures ParseQsDate(Some("2025-10-22")) == Some(YMD(2025, 10, 22))
  {
    PaddedExample();
    assert Render(IsoDash, YMD(2025, 10, 22)) == "2025-10-22";
    ReadsAs("2025-10-22", IsoDash, YMD(2025, 10, 22));
  }

  lemma MonthDayLayoutExample()
    ensures ParseQsDate(Some("10/22/2025")) == Some(YMD(2025, 10, 22))
  {
    PaddedExample();
    assert Render(MonthDaySlash, YMD(2025, 10, 22)) == "10/22/2025";
    ReadsAs("10/22/2025", MonthDaySlash, YMD(2025, 10, 22));
  }

  lemma YearSlashLayoutExample()
    ensures ParseQsDate(Some("2025/10/22")) == Some(YMD(2025, 10, 22))
  {
    PaddedExample();
    assert Render(YearSlash, YMD(2025, 10, 22)) == "2025/10/22";
    ReadsAs("2025/10/22", YearSlash, YMD(2025, 10, 22));
  }

  /** 16 October 2025 in ISO layout. */
  lemma RenderTimestampDate()
    ensures Render(IsoDash, YMD(2025, 10, 16)) == "2025-10-16"
  {
    PaddedFour(2025);
    PaddedTwo(10);
    PaddedTwo(16);
    assert Padded(2025, 4) == "2025" && Padded(10, 2) == "10" && Padded(16, 2) == "16";
  }

  /** A timestamp reads as its date, in the query reader and in coercion alike. */
  lemma TimestampExample()
    ensures ParseQsDate(Some("2025-10-16T12:00:00Z")) == Some(YMD(2025, 10, 16))
    ensures CoerceToDate(Text("2025-10-16T12:00:00Z")) == Some(YMD(2025, 10, 16))
  {
    var date := "2025-10-16";
    var s := date + "T12:00:00Z";
    assert s == "2025-10-16T12:00:00Z";
    assert s[..10] == date;
    var d: Date := YMD(2025, 10, 16);
    RenderTimestampDate();
    ReadsAs(s, IsoDash, d);
    ParseLayoutCharacterised(IsoDash, s, d);
  }

  /** A string in no layout reads as no date. */
  lemma GarbageExample()
    ensures ParseQsDate(Some("not-a-date")) == None
  {
    var s := "not-a-date";
    ParseQsDateUnpadded(s);
    assert s[2] == 't' && s[4] == 'a';
  }

  /** Values shorter than a date, and missing or empty values, read as no date. */
  lemma ShortValueExample()
    ensures ParseQsDate(Some("bad")) == None
    ensures ParseQsDate(Some("")) == None && ParseQsDate(None) == None
    ensures CoerceToDate(Text("bad")) == None && CoerceToDate(NoInput) == None
  {
    ParseQsDateUnpadded("bad");
  }

  /** The value `_coerce_to_date` receives: nothing, a date, a datetime, a string,
      or anything else. */
  datatype DateInput = NoInput | DateValue(date: Date) | DateTimeValue(dt: DateTime)
                     | Text(text: string) | OtherValue

  /** `_coerce_to_date` (the second definition, which replaces the first): a string
      is read in the ISO layout only, without stripping. */
  function CoerceToDate(x: DateInput): (r: Option<Date>)
    ensures x.DateValue? ==> r == Some(x.date)
    ensures x.DateTimeValue? ==> r == Some(x.dt.date)
    ensures x.Text? ==> r == ParseLayout(IsoDash, x.text)
    ensures x.NoInput? || x.OtherValue? ==> r == None
  {
    match x
    case NoInput => None
    case DateValue(d) => Some(d)
    case DateTimeValue(t) => Some(t.date)
    case Text(s) => ParseLayout(IsoDash, s)
    case OtherValue => None
  }

  /** A stored date survives being written out with `isoformat()` and coerced back. */
  lemma CoerceIsoString(d: Date)
    ensures CoerceToDate(Text(IsoFormat(d))) == Some(d)
  {
    IsoRoundTrip(d);
  }

  /** Unlike the query reader, coercion does not accept the other layouts. */
  lemma CoerceRejectsUsLayout()
    ensures CoerceToDate(Text("10/22/2025")) == None
    ensures ParseQsDate(Some("10/22/2025")).Some?
  {
    MonthDayLayoutExample();
    assert ReadFields(IsoDash, "10/22/2025") == None;
  }
}
