/** What `time.Parse(time.RFC3339, s)` followed by `Unix()` computes, for the
    `date-time` form of section 5.6 of RFC 3339:
    `YYYY-MM-DDThh:mm:ss[.frac](Z|+hh:mm|-hh:mm)`. */
module Timestamp {
  import opened Text
  import opened Values

  /** A UTC offset: `Z`, or east/west of UTC by hours and minutes. */
  datatype Zone = Utc | Offset(east: bool, hours: nat, minutes: nat)

  datatype DateTime = DateTime(year: nat, month: nat, day: nat, hour: nat, minute: nat, second: nat, zone: Zone)

  predicate IsLeap(y: int) {
    y % 4 == 0 && (y % 100 != 0 || y % 400 == 0)
  }

  function YearLength(y: int): nat {
    if IsLeap(y) then 366 else 365
  }

  /** Days in month `m` of year `y` (Go's `daysIn`). */
  function DaysIn(m: int, y: int): nat
    requires 1 <= m <= 12
  {
    if m == 2 then (if IsLeap(y) then 29 else 28)
    else if m == 4 || m == 6 || m == 9 || m == 11 then 30
    else 31
  }

  /** Days from 0000-01-01 to the first day of year `y`: 365 per year plus one
      per leap year among 0 .. y-1. */
  function DaysBeforeYear(y: nat): nat {
    365 * y + (y + 3) / 4 - (y + 99) / 100 + (y + 399) / 400
  }

  /** The closed form counts days year by year. */
  lemma DaysBeforeYearStep(y: nat)
    ensures DaysBeforeYear(y + 1) == DaysBeforeYear(y) + YearLength(y)
  {
    Quads(y);
    Centuries(y);
    QuadCenturies(y);
    Multiples(y);
    var leap := if y % 4 == 0 then 1 else 0;
    var cent := if y % 100 == 0 then 1 else 0;
    var quad := if y % 400 == 0 then 1 else 0;
    assert YearLength(y) == 365 + leap - cent + quad;
  }

  lemma Multiples(y: nat)
    ensures y % 400 == 0 ==> y % 100 == 0
    ensures y % 100 == 0 ==> y % 4 == 0
  {
    if y % 400 == 0 {
      assert y == 100 * (4 * (y / 400));
    }
    if y % 100 == 0 {
      assert y == 4 * (25 * (y / 100));
    }
  }

  lemma Quads(y: nat)
    ensures (y + 4) / 4 == (y + 3) / 4 + (if y % 4 == 0 then 1 else 0)
  {
  }

  lemma Centuries(y: nat)
    ensures (y + 100) / 100 == (y + 99) / 100 + (if y % 100 == 0 then 1 else 0)
  {
  }

  lemma QuadCenturies(y: nat)
    ensures (y + 400) / 400 == (y + 399) / 400 + (if y % 400 == 0 then 1 else 0)
  {
  }

  /** Days from the first of January to the first of month `m` of year `y`. */
  function DaysBeforeMonth(m: int, y: int): nat
    requires 1 <= m <= 12
  {
    var table := [0, 31, 59, 90, 120, 151, 181, 212, 243, 273, 304, 334];
    table[m - 1] + (if m > 2 && IsLeap(y) then 1 else 0)
  }

  /** The month table counts days month by month, and the twelve months make a year. */
  lemma {:induction false} DaysBeforeMonthStep(m: int, y: int)
    requires 1 <= m <= 12
    ensures m < 12 ==> DaysBeforeMonth(m + 1, y) == DaysBeforeMonth(m, y) + DaysIn(m, y)
    ensures m == 12 ==> DaysBeforeMonth(m, y) + DaysIn(m, y) == YearLength(y)
  {
  }

  const EpochYear := 1970

  /** Days since 1970-01-01 of a calendar date. */
  function DaysSinceEpoch(y: nat, m: int, d: int): int
    requires 1 <= m <= 12
  {
    DaysBeforeYear(y) - DaysBeforeYear(EpochYear) + DaysBeforeMonth(m, y) + d - 1
  }

  function OffsetSeconds(z: Zone): int {
    match z
    case Utc => 0
    case Offset(east, h, m) => (if east then 1 else -1) * (h * 3600 + m * 60)
  }

  /** The ranges Go's parser checks: month, day within its month, hour,
      minute, second, and an offset of at most 24 hours and 60 minutes. */
  predicate ValidDateTime(t: DateTime) {
    && t.year <= 9999
    && 1 <= t.month <= 12
    && 1 <= t.day <= DaysIn(t.month, t.year)
    && t.hour < 24 && t.minute < 60 && t.second < 60
    && (t.zone.Offset? ==> t.zone.hours <= 24 && t.zone.minutes <= 60)
  }

  /** `Time.Unix()`: seconds since 1970-01-01T00:00:00Z. */
  function EpochSeconds(t: DateTime): int
    requires ValidDateTime(t)
  {
    DaysSinceEpoch(t.year, t.month, t.day) * 86400 + t.hour * 3600 + t.minute * 60 + t.second - OffsetSeconds(t.zone)
  }

  /** The first day of the next month, or of the next year after
      31 December, starts 86400 seconds after the last day of a month. */
  lemma {:induction false} EpochNextDay(t: DateTime, u: DateTime)
    requires ValidDateTime(t) && ValidDateTime(u)
    requires t.zone == u.zone && t.hour == u.hour && t.minute == u.minute && t.second == u.second
    requires t.day == DaysIn(t.month, t.year) && u.day == 1
    requires || (t.month < 12 && u.year == t.year && u.month == t.month + 1)
             || (t.month == 12 && u.year == t.year + 1 && u.month == 1)
    ensures EpochSeconds(u) == EpochSeconds(t) + 86400
  {
    DaysBeforeMonthStep(t.month, t.year);
    if t.month == 12 {
      DaysBeforeYearStep(t.year);
    }
  }

  /* --- Parsing --- */

  /** The value of the `n` decimal digits of `s` starting at `i`. */
  function Field(s: string, i: nat, n: nat): nat
    requires i + n <= |s| && AllDigits(s[i..i + n])
  {
    DigitsValue(s[i..i + n])
  }

  /** Digits and separators where `YYYY-MM-DDThh:mm:ss` puts them. */
  predicate DateTimeLayout(s: string) {
    && |s| >= 19
    && AllDigits(s[0..4]) && s[4] == '-' && AllDigits(s[5..7]) && s[7] == '-' && AllDigits(s[8..10])
    && s[10] == 'T' && AllDigits(s[11..13]) && s[13] == ':' && AllDigits(s[14..16]) && s[16] == ':'
    && AllDigits(s[17..19])
  }

  /** Drops a leading run of digits. */
  function DropDigits(s: string): (r: string)
    ensures |r| <= |s| && r == s[|s| - |r|..]
    ensures AllDigits(s[..|s| - |r|])
    ensures r == [] || !IsDigit(r[0])
  {
    if s != [] && IsDigit(s[0]) then DropDigits(s[1..]) else s
  }

  /** Go accepts fractional seconds after the seconds field even when the
      layout has none (`.` or `,` then digits); they do not change `Unix()`. */
  function SkipFraction(s: string): (r: string)
    ensures |r| <= |s|
  {
    if |s| >= 2 && (s[0] == '.' || s[0] == ',') && IsDigit(s[1]) then DropDigits(s[1..]) else s
  }

  /** The `Z07:00` zone: `Z`, or a sign, two hour digits, `:` and two minute digits. */
  function ParseZone(s: string): Option<Zone> {
    if s == "Z" then Some(Utc)
    else if |s| == 6 && (s[0] == '+' || s[0] == '-') && AllDigits(s[1..3]) && s[3] == ':' && AllDigits(s[4..6]) then
      Some(Offset(s[0] == '+', Field(s, 1, 2), Field(s, 4, 2)))
    else None
  }

  /** `time.Parse(time.RFC3339, s)`, restricted as described in the README. */
  function ParseRfc3339(s: string): (r: Option<DateTime>)
    ensures r.Some? ==> ValidDateTime(r.value)
    ensures r.Some? ==> |s| >= 20 && IsDigit(s[0])
  {
    if !DateTimeLayout(s) then None
    else
      match ParseZone(SkipFraction(s[19..]))
      case None => None
      case Some(z) =>
        var t := DateTime(Field(s, 0, 4), Field(s, 5, 2), Field(s, 8, 2), Field(s, 11, 2), Field(s, 14, 2), Field(s, 17, 2), z);
        if ValidDateTime(t) then Some(t) else None
  }

  /* --- Formatting, the inverse used to state what parsing accepts --- */

  /** The `w` low decimal digits of `n`, zero-padded. */
  function Pad(n: nat, w: nat): (r: string)
    ensures |r| == w && AllDigits(r)
  {
    if w == 0 then [] else Pad(n / 10, w - 1) + ['0' + (n % 10) as char]
  }

  function Pow10(k: nat): (r: nat)
    ensures r >= 1
  {
    if k == 0 then 1 else 10 * Pow10(k - 1)
  }

  lemma {:induction false} PadValue(n: nat, w: nat)
    requires n < Pow10(w)
    ensures DigitsValue(Pad(n, w)) == n
  {
    if w > 0 {
      var s := Pad(n, w);
      assert s[..|s| - 1] == Pad(n / 10, w - 1);
      PadValue(n / 10, w - 1);
    }
  }

  function FormatZone(z: Zone): string {
    match z
    case Utc => "Z"
    case Offset(east, h, m) => [if east then '+' else '-'] + Pad(h, 2) + ":" + Pad(m, 2)
  }

  /** `YYYY-MM-DD` */
  function FormatDate(t: DateTime): (r: string)
    ensures |r| == 10
  {
    Pad(t.year, 4) + "-" + Pad(t.month, 2) + "-" + Pad(t.day, 2)
  }

  /** `hh:mm:ss` */
  function FormatTime(t: DateTime): (r: string)
    ensures |r| == 8
  {
    Pad(t.hour, 2) + ":" + Pad(t.minute, 2) + ":" + Pad(t.second, 2)
  }

  /** The RFC 3339 text of a date-time, with its zone written as given. */
  function FormatRfc3339(t: DateTime): string {
    FormatDate(t) + "T" + FormatTime(t) + FormatZone(t.zone)
  }

  lemma ZoneRoundTrip(z: Zone)
    requires z.Offset? ==> z.hours <= 24 && z.minutes <= 60
    ensures ParseZone(FormatZone(z)) == Some(z)
  {
    if z.Offset? {
      var s := FormatZone(z);
      var h := Pad(z.hours, 2);
      var m := Pad(z.minutes, 2);
      assert s == [s[0]] + h + ":" + m;
      assert s[1..3] == h && s[3] == ':' && s[4..6] == m;
      PadValue(z.hours, 2);
      PadValue(z.minutes, 2);
    }
  }

  lemma DateFields(t: DateTime)
    requires ValidDateTime(t)
    ensures var s := FormatDate(t);
      && s[0..4] == Pad(t.year, 4) && s[4] == '-' && s[5..7] == Pad(t.month, 2) && s[7] == '-' && s[8..10] == Pad(t.day, 2)
  {
  }

  lemma TimeFields(t: DateTime)
    requires ValidDateTime(t)
    ensures var s := FormatTime(t);
      && s[0..2] == Pad(t.hour, 2) && s[2] == ':' && s[3..5] == Pad(t.minute, 2) && s[5] == ':' && s[6..8] == Pad(t.second, 2)
  {
  }

  lemma FormatLayout(t: DateTime)
    requires ValidDateTime(t)
    ensures var s := FormatRfc3339(t);
      && DateTimeLayout(s)
      && s[0..4] == Pad(t.year, 4) && s[5..7] == Pad(t.month, 2) && s[8..10] == Pad(t.day, 2)
      && s[11..13] == Pad(t.hour, 2) && s[14..16] == Pad(t.minute, 2) && s[17..19] == Pad(t.second, 2)
      && s[19..] == FormatZone(t.zone)
  {
    var s := FormatRfc3339(t);
    var d, c := FormatDate(t), FormatTime(t);
    DateFields(t);
    TimeFields(t);
    assert s[..10] == d;
    assert s[11..19] == c;
    assert s[0..4] == d[0..4];
    assert s[5..7] == d[5..7];
    assert s[8..10] == d[8..10];
    assert s[11..13] == c[0..2];
    assert s[14..16] == c[3..5];
    assert s[17..19] == c[6..8];
  }

  /** Text whose first nineteen characters agree reads the same date and time. */
  lemma SamePrefix(p: string, s: string)
    requires |p| >= 19 && |s| >= 19 && p[..19] == s[..19]
    ensures DateTimeLayout(p) == DateTimeLayout(s)
    ensures DateTimeLayout(p) ==>
      && Field(p, 0, 4) == Field(s, 0, 4) && Field(p, 5, 2) == Field(s, 5, 2) && Field(p, 8, 2) == Field(s, 8, 2)
      && Field(p, 11, 2) == Field(s, 11, 2) && Field(p, 14, 2) == Field(s, 14, 2) && Field(p, 17, 2) == Field(s, 17, 2)
  {
    assert forall i, j :: 0 <= i <= j <= 19 ==> p[i..j] == p[..19][i..j] && s[i..j] == s[..19][i..j];
  }

  /** Digits in front of text that does not start with one are what DropDigits drops. */
  lemma {:induction false} DropDigitsPadded(d: string, z: string)
    requires AllDigits(d) && (z == [] || !IsDigit(z[0]))
    ensures DropDigits(d + z) == z
  {
    if d == [] {
      assert d + z == z;
    } else {
      assert (d + z)[1..] == d[1..] + z;
      DropDigitsPadded(d[1..], z);
    }
  }

  /** Fractional seconds in front of a zone are skipped up to the zone. */
  lemma SkipFractionOfZone(f: string, z: Zone)
    requires IsFraction(f)
    ensures SkipFraction(f + FormatZone(z)) == FormatZone(z)
  {
    var zt := FormatZone(z);
    assert zt[0] == 'Z' || zt[0] == '+' || zt[0] == '-';
    if f == [] {
      assert f + zt == zt;
    } else {
      var s := f + zt;
      assert s[1..] == f[1..] + zt;
      assert s[1] == f[1];
      DropDigitsPadded(f[1..], zt);
    }
  }

  /** Every valid date-time parses back from its RFC 3339 text with any
      fractional seconds, which do not change the result. */
  lemma ParseFractionRoundTrip(t: DateTime, f: string)
    requires ValidDateTime(t) && IsFraction(f)
    ensures ParseRfc3339(FormatDate(t) + "T" + FormatTime(t) + f + FormatZone(t.zone)) == Some(t)
  {
    var head := FormatDate(t) + "T" + FormatTime(t);
    var z := FormatZone(t.zone);
    assert FormatRfc3339(t) == head + z;
    assert FormatDate(t) + "T" + FormatTime(t) + f + z == head + (f + z);
    FractionSkipped(head, f, t.zone);
    ParseFormatRoundTrip(t);
  }

  /** Fractional seconds between the time and the zone do not change what
      is parsed. */
  lemma FractionSkipped(head: string, f: string, z: Zone)
    requires |head| == 19 && IsFraction(f)
    ensures ParseRfc3339(head + (f + FormatZone(z))) == ParseRfc3339(head + FormatZone(z))
  {
    var zt := FormatZone(z);
    var p := head + zt;
    var s := head + (f + zt);
    assert p[..19] == head == s[..19];
    assert s[19..] == f + zt;
    assert p[19..] == [] + zt;
    SkipFractionOfZone(f, z);
    SkipFractionOfZone([], z);
    SameParse(p, s);
  }

  /** Parsing reads only the first nineteen characters and what follows
      the skipped fraction. */
  lemma SameParse(p: string, s: string)
    requires |p| >= 19 && |s| >= 19 && p[..19] == s[..19]
    requires SkipFraction(p[19..]) == SkipFraction(s[19..])
    ensures ParseRfc3339(p) == ParseRfc3339(s)
  {
    SamePrefix(p, s);
  }

  /* --- What parsing accepts: exactly formatted text --- */

  /** Fractional seconds as Go skips them: nothing, or `.` or `,` then digits. */
  predicate IsFraction(f: string) {
    f == [] || (|f| >= 2 && (f[0] == '.' || f[0] == ',') && AllDigits(f[1..]))
  }

  /** Padding the value of a run of digits to its own length gives it back. */
  lemma {:induction false} PadOfDigits(d: string)
    requires AllDigits(d)
    ensures Pad(DigitsValue(d), |d|) == d
  {
    if d != [] {
      var init := d[..|d| - 1];
      var n := DigitsValue(d);
      assert n / 10 == DigitsValue(init) && n % 10 == (d[|d| - 1] - '0') as int;
      PadOfDigits(init);
      assert d == init + [d[|d| - 1]];
    }
  }

  /** A zone the parser accepts is the formatted text of the zone it returns. */
  lemma ParsedZoneText(s: string)
    requires ParseZone(s).Some?
    ensures s == FormatZone(ParseZone(s).value)
  {
    if s != "Z" {
      PadOfDigits(s[1..3]);
      PadOfDigits(s[4..6]);
      assert s == [s[0]] + s[1..3] + ":" + s[4..6];
    }
  }

  /** SkipFraction drops a fraction from the front and keeps the rest. */
  lemma SkippedFraction(r: string)
    ensures |SkipFraction(r)| <= |r|
    ensures var f := r[..|r| - |SkipFraction(r)|]; r == f + SkipFraction(r) && IsFraction(f)
  {
    if |r| >= 2 && (r[0] == '.' || r[0] == ',') && IsDigit(r[1]) {
      SkippedDigits(r);
    } else {
      assert r[..0] == [];
    }
  }

  lemma SkippedDigits(r: string)
    requires |r| >= 2 && (r[0] == '.' || r[0] == ',') && IsDigit(r[1])
    ensures var rest := DropDigits(r[1..]); var f := r[..|r| - |rest|];
      r == f + rest && IsFraction(f)
  {
    var tail := r[1..];
    var rest := DropDigits(tail);
    assert rest == DropDigits(tail[1..]);
    var k := |tail| - |rest|;
    var f := r[..k + 1];
    assert f[1..] == tail[..k];
    assert r[k + 1..] == tail[k..] == rest;
    assert r == f + r[k + 1..];
  }

  /** The first nineteen characters of accepted text are the formatted
      date and time of the fields read from them. */
  lemma ParsedDateTimeText(s: string, t: DateTime)
    requires DateTimeLayout(s)
    requires t.year == Field(s, 0, 4) && t.month == Field(s, 5, 2) && t.day == Field(s, 8, 2)
    requires t.hour == Field(s, 11, 2) && t.minute == Field(s, 14, 2) && t.second == Field(s, 17, 2)
    ensures s[..19] == FormatDate(t) + "T" + FormatTime(t)
  {
    ParsedDateText(s, t);
    ParsedTimeText(s, t);
    assert s[..19] == s[0..10] + "T" + s[11..19];
  }

  lemma ParsedDateText(s: string, t: DateTime)
    requires DateTimeLayout(s)
    requires t.year == Field(s, 0, 4) && t.month == Field(s, 5, 2) && t.day == Field(s, 8, 2)
    ensures s[0..10] == FormatDate(t)
  {
    PadOfDigits(s[0..4]);
    PadOfDigits(s[5..7]);
    PadOfDigits(s[8..10]);
    assert s[0..10] == s[0..4] + "-" + s[5..7] + "-" + s[8..10];
  }

  lemma ParsedTimeText(s: string, t: DateTime)
    requires DateTimeLayout(s)
    requires t.hour == Field(s, 11, 2) && t.minute == Field(s, 14, 2) && t.second == Field(s, 17, 2)
    ensures s[11..19] == FormatTime(t)
  {
    PadOfDigits(s[11..13]);
    PadOfDigits(s[14..16]);
    PadOfDigits(s[17..19]);
    assert s[11..19] == s[11..13] + ":" + s[14..16] + ":" + s[17..19];
  }

  /** Only RFC 3339 text is accepted: text that parses is the formatted date
      and time of the result, then optional fractional seconds, then the
      formatted zone of the result. */
  lemma ParsedText(s: string)
    requires ParseRfc3339(s).Some?
    ensures var t := ParseRfc3339(s).value;
      var z := FormatZone(t.zone);
      && 19 + |z| <= |s|
      && s == FormatDate(t) + "T" + FormatTime(t) + s[19..|s| - |z|] + z
      && IsFraction(s[19..|s| - |z|])
  {
    var t := ParseRfc3339(s).value;
    var r := s[19..];
    var rest := SkipFraction(r);
    SkippedFraction(r);
    ParsedZoneText(rest);
    ParsedDateTimeText(s, t);
    var z := FormatZone(t.zone);
    assert rest == z;
    var f := r[..|r| - |rest|];
    assert f == s[19..|s| - |z|];
    assert s == s[..19] + r;
  }

  /** The fields read from formatted text are the date-time's own. */
  lemma FormattedFields(t: DateTime)
    requires ValidDateTime(t)
    ensures var s := FormatRfc3339(t);
      && DateTimeLayout(s)
      && Field(s, 0, 4) == t.year && Field(s, 5, 2) == t.month && Field(s, 8, 2) == t.day
      && Field(s, 11, 2) == t.hour && Field(s, 14, 2) == t.minute && Field(s, 17, 2) == t.second
  {
    FormatLayout(t);
    PadValue(t.year, 4);
    PadValue(t.month, 2);
    PadValue(t.day, 2);
    PadValue(t.hour, 2);
    PadValue(t.minute, 2);
    PadValue(t.second, 2);
  }

  /** Every valid date-time parses back from its RFC 3339 text. */
  lemma ParseFormatRoundTrip(t: DateTime)
    requires ValidDateTime(t)
    ensures ParseRfc3339(FormatRfc3339(t)) == Some(t)
  {
    var s := FormatRfc3339(t);
    FormattedFields(t);
    FormatLayout(t);
    var z := s[19..];
    ZoneRoundTrip(t.zone);
    assert SkipFraction(z) == z;
  }
}
