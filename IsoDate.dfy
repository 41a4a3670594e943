/**
 * Calendar dates in the date-only forms of the ECMAScript date-time string
 * format with a four-digit year (`YYYY`, `YYYY-MM`, `YYYY-MM-DD`), as both
 * components of the system exchange them: the client compares `YYYY-MM-DD`
 * strings and turns them into instants, the extractor writes them. The
 * expanded-year forms (`+YYYYYY`, `-YYYYYY-MM-DD`, ...) are not read here.
 */
module IsoDate {
  import opened Wrappers
  import opened Text

  /** A proleptic Gregorian calendar date. */
  datatype Ymd = Ymd(year: int, month: int, day: int)

  predicate IsLeapYear(y: int) {
    y % 4 == 0 && (y % 100 != 0 || y % 400 == 0)
  }

  function DaysInMonth(y: int, m: int): (r: nat)
    requires 1 <= m <= 12
    ensures 28 <= r <= 31
    ensures m == 2 ==> (r == 29 <==> IsLeapYear(y))
  {
    if m == 2 then (if IsLeapYear(y) then 29 else 28)
    else if m == 4 || m == 6 || m == 9 || m == 11 then 30
    else 31
  }

  predicate ValidYmd(d: Ymd) {
    1 <= d.month <= 12 && 1 <= d.day <= DaysInMonth(d.year, d.month)
  }

  /** `s` has the shape `DDDD-DD-DD` (digits and two dashes). */
  predicate IsDateShape(s: string) {
    |s| == 10 && AllDigits(s[..4]) && s[4] == '-' && AllDigits(s[5..7])
    && s[7] == '-' && AllDigits(s[8..])
  }

  /**
   * The calendar date a date-only string denotes, or None where the
   * engine yields an invalid date (NaN): `YYYY` is January 1st, `YYYY-MM`
   * the first of the month.
   */
  function ParseDateOnly(s: string): (r: Option<Ymd>)
    ensures r.Some? ==> ValidYmd(r.value) && 0 <= r.value.year <= 9999
    ensures IsDateShape(s) ==>
      r == (var d := Ymd(NumberOf(s[..4]), NumberOf(s[5..7]), NumberOf(s[8..]));
            if ValidYmd(d) then Some(d) else None)
  {
    if |s| == 4 && AllDigits(s) then
      Some(Ymd(NumberOf(s), 1, 1))
    else if |s| == 7 && AllDigits(s[..4]) && s[4] == '-' && AllDigits(s[5..]) then
      var d := Ymd(NumberOf(s[..4]), NumberOf(s[5..]), 1);
      if ValidYmd(d) then Some(d) else None
    else if IsDateShape(s) then
      var d := Ymd(NumberOf(s[..4]), NumberOf(s[5..7]), NumberOf(s[8..]));
      if ValidYmd(d) then Some(d) else None
    else None
  }

  /** A full `YYYY-MM-DD` date naming a real calendar day. */
  predicate IsIsoDate(s: string) {
    IsDateShape(s) && ParseDateOnly(s).Some?
  }

  /**
   * A day number that increases with the date. It is not the number of
   * days since the epoch; the model only ever compares instants built
   * from it, and comparison is all it preserves.
   */
  function DayIndex(d: Ymd): int {
    d.year * 372 + (d.month - 1) * 31 + (d.day - 1)
  }

  lemma DayIndexOrder(a: Ymd, b: Ymd)
    requires ValidYmd(a) && ValidYmd(b)
    ensures DayIndex(a) <= DayIndex(b) <==> YmdLe(a, b)
    ensures DayIndex(a) == DayIndex(b) <==> a == b
  {
  }

  /** Comparing two strings that share a one-character separator at the front. */
  lemma SeparatorOrder(p: string, q: string, p2: string, q2: string)
    requires |p| == |p2| == 1 && p == p2
    ensures StrLe(p + q, p2 + q2) <==> StrLe(q, q2)
  {
    StrLeConcat(p, q, p2, q2);
    StrLeReflexive(p);
  }

  /** Digit strings of equal length: strict string order is numeric order. */
  lemma DigitsStrictOrder(a: string, b: string)
    requires |a| == |b| && AllDigits(a) && AllDigits(b)
    ensures StrLess(a, b) <==> NumberOf(a) < NumberOf(b)
    ensures a == b <==> NumberOf(a) == NumberOf(b)
  {
    DigitOrder(a, b);
    DigitOrder(b, a);
  }

  /** The three numbers written in a `DDDD-DD-DD` string, valid date or not. */
  function Fields(s: string): Ymd
    requires IsDateShape(s)
  {
    Ymd(NumberOf(s[..4]), NumberOf(s[5..7]), NumberOf(s[8..]))
  }

  /** Year, then month, then day. */
  predicate YmdLe(a: Ymd, b: Ymd) {
    a.year < b.year || (a.year == b.year && (a.month < b.month || (a.month == b.month && a.day <= b.day)))
  }

  /** Strings of the shape `DDDD-DD-DD` compare as the numbers they hold, field by field. */
  lemma ShapeOrder(a: string, b: string)
    requires IsDateShape(a) && IsDateShape(b)
    ensures StrLe(a, b) <==> YmdLe(Fields(a), Fields(b))
    ensures a == b <==> Fields(a) == Fields(b)
  {
    DigitsStrictOrder(a[..4], b[..4]);
    DigitsStrictOrder(a[5..7], b[5..7]);
    DigitsStrictOrder(a[8..], b[8..]);
    DigitOrder(a[8..], b[8..]);
    assert a == a[..4] + a[4..] && b == b[..4] + b[4..];
    assert a[4..] == a[4..5] + a[5..] && b[4..] == b[4..5] + b[5..];
    assert a[5..] == a[5..7] + a[7..] && b[5..] == b[5..7] + b[7..];
    assert a[7..] == a[7..8] + a[8..] && b[7..] == b[7..8] + b[8..];
    assert a[4..5] == b[4..5] == "-" && a[7..8] == b[7..8] == "-";
    StrLeConcat(a[..4], a[4..], b[..4], b[4..]);
    SeparatorOrder(a[4..5], a[5..], b[4..5], b[5..]);
    StrLeConcat(a[5..7], a[7..], b[5..7], b[7..]);
    SeparatorOrder(a[7..8], a[8..], b[7..8], b[8..]);
  }

  /**
   * `YYYY-MM-DD` strings are ordered as the dates they name: comparing
   * them as strings compares the days.
   */
  lemma IsoDateOrder(a: string, b: string)
    requires IsIsoDate(a) && IsIsoDate(b)
    ensures StrLe(a, b) <==> DayIndex(ParseDateOnly(a).value) <= DayIndex(ParseDateOnly(b).value)
    ensures a == b <==> ParseDateOnly(a) == ParseDateOnly(b)
  {
    ShapeOrder(a, b);
    DayIndexOrder(ParseDateOnly(a).value, ParseDateOnly(b).value);
  }

  /** The `YYYY-MM-DD` text of a date whose year has four digits. */
  function FormatIsoDate(d: Ymd): (s: string)
    requires 0 <= d.year <= 9999 && 1 <= d.month <= 12 && 1 <= d.day <= 31
    ensures IsDateShape(s)
  {
    PadDigits(d.year, 4) + "-" + PadDigits(d.month, 2) + "-" + PadDigits(d.day, 2)
  }

  /** Formatting a valid date and parsing the text back gives the date. */
  lemma FormatParseRoundTrip(d: Ymd)
    requires 0 <= d.year <= 9999 && ValidYmd(d)
    ensures IsIsoDate(FormatIsoDate(d))
    ensures ParseDateOnly(FormatIsoDate(d)) == Some(d)
  {
    var s := FormatIsoDate(d);
    assert s[..4] == PadDigits(d.year, 4);
    assert s[5..7] == PadDigits(d.month, 2);
    assert s[8..] == PadDigits(d.day, 2);
    PadDigitsRoundTrip(d.year, 4);
    PadDigitsRoundTrip(d.month, 2);
    PadDigitsRoundTrip(d.day, 2);
  }
}
