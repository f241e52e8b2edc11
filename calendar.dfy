/**
 * Python's `datetime.date` and `datetime.datetime` as values, with the
 * Gregorian calendar rules of the `calendar` module and the rendering of
 * `date.isoformat()`.
 */
module Calendar {
  import opened Text

  /** Python's `datetime.MINYEAR` and `datetime.MAXYEAR`. */
  const MinYear := 1
  const MaxYear := 9999

  /** `calendar.isleap`: divisible by 4, and not by 100 unless by 400. */
  predicate IsLeap(year: int)
  {
    year % 4 == 0 && (year % 100 != 0 || year % 400 == 0)
  }

  /** `calendar.monthrange(year, month)[1]`. */
  function DaysInMonth(year: int, month: int): (n: int)
    requires 1 <= month <= 12
    ensures 28 <= n <= 31
    ensures month == 2 ==> (n == 29 <==> IsLeap(year))
  {
    if month == 2 then (if IsLeap(year) then 29 else 28)
    else if month == 4 || month == 6 || month == 9 || month == 11 then 30
    else 31
  }

  /** Year, month and day, before Python's range checks. */
  datatype YMD = YMD(year: int, month: int, day: int)

  /** The triples that `datetime.date(year, month, day)` accepts without raising. */
  predicate IsValidDate(year: int, month: int, day: int)
  {
    MinYear <= year <= MaxYear && 1 <= month <= 12 && 1 <= day <= DaysInMonth(year, month)
  }

  /** A `datetime.date`: one of the triples Python accepts. */
  type Date = d: YMD | IsValidDate(d.year, d.month, d.day) witness YMD(1, 1, 1)

  /** `datetime.date.min`. */
  const MinDate: Date := YMD(1, 1, 1)

  /** A `datetime.datetime` (a date and a time of day); `.date()` is its `date` field. */
  datatype DateTime = DateTime(date: Date, hour: int, minute: int, second: int)

  /** Python's `<=` on dates: lexicographic on (year, month, day). */
  predicate DateLe(a: Date, b: Date)
  {
    a.year < b.year || (a.year == b.year && (a.month < b.month || (a.month == b.month && a.day <= b.day)))
  }

  predicate DateLt(a: Date, b: Date)
  {
    DateLe(a, b) && a != b
  }

  /** An integer that orders dates as Python does. */
  function DateKey(d: Date): int
  {
    d.year * 10000 + d.month * 100 + d.day
  }

  lemma DateKeyOrder(a: Date, b: Date)
    ensures DateLe(a, b) <==> DateKey(a) <= DateKey(b)
    ensures a == b <==> DateKey(a) == DateKey(b)
  {
    if a.year < b.year {
      assert DateKey(a) <= a.year * 10000 + 1231 < (a.year + 1) * 10000 + 101 <= DateKey(b);
    } else if a.year > b.year {
      assert DateKey(b) <= b.year * 10000 + 1231 < (b.year + 1) * 10000 + 101 <= DateKey(a);
    }
  }

  lemma MinDateIsLeast(d: Date)
    ensures DateLe(MinDate, d)
  {
  }

  /** `d.isoformat()`: "YYYY-MM-DD", each field zero-padded. */
  function IsoFormat(d: Date): (s: string)
    ensures |s| == 10 && s[4] == '-' && s[7] == '-'
    ensures IsDigitString(s[..4]) && IsDigitString(s[5..7]) && IsDigitString(s[8..10])
  {
    var s := Padded(d.year, 4) + "-" + Padded(d.month, 2) + "-" + Padded(d.day, 2);
    assert s[..4] == Padded(d.year, 4);
    assert s[5..7] == Padded(d.month, 2);
    assert s[8..10] == Padded(d.day, 2);
    s
  }

  /** The fields of `d.isoformat()` read back as the year, month and day. */
  lemma IsoFormatFields(d: Date)
    ensures DigitsValue(IsoFormat(d)[..4]) == d.year
    ensures DigitsValue(IsoFormat(d)[5..7]) == d.month
    ensures DigitsValue(IsoFormat(d)[8..10]) == d.day
  {
    var s := IsoFormat(d);
    assert s[..4] == Padded(d.year, 4);
    assert s[5..7] == Padded(d.month, 2);
    assert s[8..10] == Padded(d.day, 2);
    assert Pow10(4) == 10000 && Pow10(2) == 100;
    PaddedValueFits(d.year, 4);
    PaddedValueFits(d.month, 2);
    PaddedValueFits(d.day, 2);
  }
}
