/**
 * The two textual formats the attendance request schema enforces with
 * regular expressions: a date `^\d{4}-\d{2}-\d{2}$` and a time of day
 * `^\d{2}:\d{2}$`. The patterns check shape only, so "2024-13-45" and
 * "99:99" are accepted; the parse/format pairs below make that exact.
 */
module Formats {
  import opened Text
  import opened Wrappers

  /** `^\d{4}-\d{2}-\d{2}$` */
  predicate IsDate(s: string) {
    && |s| == 10
    && AllDigits(s[..4]) && s[4] == '-'
    && AllDigits(s[5..7]) && s[7] == '-'
    && AllDigits(s[8..])
  }

  /** `^\d{2}:\d{2}$` */
  predicate IsTime(s: string) {
    && |s| == 5
    && AllDigits(s[..2]) && s[2] == ':'
    && AllDigits(s[3..])
  }

  /** The numbers a date string spells; nothing checks that they name a real calendar day. */
  datatype DateFields = DateFields(year: nat, month: nat, day: nat)

  /** The numbers a time string spells; nothing checks hours below 24 or minutes below 60. */
  datatype TimeFields = TimeFields(hour: nat, minute: nat)

  predicate DateFits(d: DateFields) {
    d.year < 10000 && d.month < 100 && d.day < 100
  }

  predicate TimeFits(t: TimeFields) {
    t.hour < 100 && t.minute < 100
  }

  /** Year, then month, then day. */
  predicate Chronological(d: DateFields, e: DateFields) {
    || d.year < e.year
    || (d.year == e.year && d.month < e.month)
    || (d.year == e.year && d.month == e.month && d.day <= e.day)
  }

  function FormatDate(d: DateFields): (s: string)
    requires DateFits(d)
    ensures IsDate(s)
  {
    var s := Digits(d.year, 4) + "-" + Digits(d.month, 2) + "-" + Digits(d.day, 2);
    assert s[..4] == Digits(d.year, 4) && s[5..7] == Digits(d.month, 2) && s[8..] == Digits(d.day, 2);
    s
  }

  function ParseDate(s: string): (r: Option<DateFields>)
    ensures r.Some? <==> IsDate(s)
    ensures r.Some? ==> DateFits(r.value)
  {
    if IsDate(s) then Some(DateFields(Num(s[..4]), Num(s[5..7]), Num(s[8..]))) else None
  }

  function FormatTime(t: TimeFields): (s: string)
    requires TimeFits(t)
    ensures IsTime(s)
  {
    var s := Digits(t.hour, 2) + ":" + Digits(t.minute, 2);
    assert s[..2] == Digits(t.hour, 2) && s[3..] == Digits(t.minute, 2);
    s
  }

  function ParseTime(s: string): (r: Option<TimeFields>)
    ensures r.Some? <==> IsTime(s)
    ensures r.Some? ==> TimeFits(r.value)
  {
    if IsTime(s) then Some(TimeFields(Num(s[..2]), Num(s[3..]))) else None
  }

  lemma ParseFormatDate(d: DateFields)
    requires DateFits(d)
    ensures ParseDate(FormatDate(d)) == Some(d)
  {
    var s := FormatDate(d);
    assert s[..4] == Digits(d.year, 4) && s[5..7] == Digits(d.month, 2) && s[8..] == Digits(d.day, 2);
  }

  lemma FormatParseDate(s: string)
    requires IsDate(s)
    ensures FormatDate(ParseDate(s).value) == s
  {
    DigitsOfNum(s[..4]);
    DigitsOfNum(s[5..7]);
    DigitsOfNum(s[8..]);
    assert s == s[..4] + "-" + s[5..7] + "-" + s[8..];
  }

  lemma ParseFormatTime(t: TimeFields)
    requires TimeFits(t)
    ensures ParseTime(FormatTime(t)) == Some(t)
  {
    var s := FormatTime(t);
    assert s[..2] == Digits(t.hour, 2) && s[3..] == Digits(t.minute, 2);
  }

  lemma FormatParseTime(s: string)
    requires IsTime(s)
    ensures FormatTime(ParseTime(s).value) == s
  {
    DigitsOfNum(s[..2]);
    DigitsOfNum(s[3..]);
    assert s == s[..2] + ":" + s[3..];
  }

  /**
   * Comparing two well-formed date strings as text, as the listing's
   * range filters and ordering do, agrees with comparing the dates.
   */
  lemma DateOrderIsChronological(a: string, b: string)
    requires IsDate(a) && IsDate(b)
    ensures LexLe(a, b) <==> Chronological(ParseDate(a).value, ParseDate(b).value)
  {
    assert a == a[..4] + a[4..] && b == b[..4] + b[4..];
    LexLeNumeralField(a[..4], a[4..], b[..4], b[4..]);
    assert a[4..] == a[4..5] + a[5..] && b[4..] == b[4..5] + b[5..];
    assert a[4..5] == b[4..5];
    LexLeConcat(a[4..5], a[5..], b[4..5], b[5..]);
    assert a[5..] == a[5..7] + a[7..] && b[5..] == b[5..7] + b[7..];
    LexLeNumeralField(a[5..7], a[7..], b[5..7], b[7..]);
    assert a[7..] == a[7..8] + a[8..] && b[7..] == b[7..8] + b[8..];
    assert a[7..8] == b[7..8];
    LexLeConcat(a[7..8], a[8..], b[7..8], b[8..]);
    LexLeDigits(a[8..], b[8..]);
  }
}
