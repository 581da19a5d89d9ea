/** Python `datetime` values and the two conversions the report uses, over a
    fixed-width grammar: parsing `%Y-%m-%d %H:%M:%S[.%f]` and printing and
    re-parsing `%m/%d/%Y %I:%M %p`. */
module DateTimes {
  import opened Wrappers
  import opened Text

  /** A naive `datetime.datetime`: no time zone, microsecond resolution. */
  datatype DateTime = DateTime(year: int, month: int, day: int,
                               hour: int, minute: int, second: int, micro: int)

  predicate IsLeapYear(y: int)
  {
    y % 4 == 0 && (y % 100 != 0 || y % 400 == 0)
  }

  function DaysInMonth(y: int, m: int): (n: int)
    requires 1 <= m <= 12
    ensures 28 <= n <= 31
    ensures m == 2 ==> (n == 29 <==> IsLeapYear(y))
  {
    if m == 2 then (if IsLeapYear(y) then 29 else 28)
    else if m == 4 || m == 6 || m == 9 || m == 11 then 30
    else 31
  }

  /** The values `datetime.datetime` accepts (year 1 to 9999, real calendar days). */
  predicate Valid(d: DateTime)
  {
    && 1 <= d.year <= 9999
    && 1 <= d.month <= 12
    && 1 <= d.day <= DaysInMonth(d.year, d.month)
    && 0 <= d.hour < 24
    && 0 <= d.minute < 60
    && 0 <= d.second < 60
    && 0 <= d.micro < 1000000
  }

  /** The same instant with seconds and microseconds set to zero. */
  function ToMinute(d: DateTime): DateTime
  {
    d.(second := 0, micro := 0)
  }

  /** Python's ordering of datetimes: field by field, most significant first. */
  predicate NotAfter(a: DateTime, b: DateTime)
  {
    if a.year != b.year then a.year < b.year
    else if a.month != b.month then a.month < b.month
    else if a.day != b.day then a.day < b.day
    else if a.hour != b.hour then a.hour < b.hour
    else if a.minute != b.minute then a.minute < b.minute
    else if a.second != b.second then a.second < b.second
    else a.micro <= b.micro
  }

  lemma NotAfterTotal(a: DateTime, b: DateTime)
    ensures NotAfter(a, b) || NotAfter(b, a)
    ensures NotAfter(a, b) && NotAfter(b, a) ==> a == b
  {
  }

  lemma NotAfterTransitive(a: DateTime, b: DateTime, c: DateTime)
    requires NotAfter(a, b) && NotAfter(b, c)
    ensures NotAfter(a, c)
  {
  }

  /** `strptime(t, '%Y-%m-%d %H:%M:%S')` with two-digit fields and a four-digit year. */
  function ParseSeconds(t: string): (r: Option<DateTime>)
    ensures r.Some? ==> Valid(r.value) && r.value.micro == 0
  {
    if && |t| == 19
       && t[4] == '-' && t[7] == '-' && t[10] == ' ' && t[13] == ':' && t[16] == ':'
       && AllDigits(t[0..4]) && AllDigits(t[5..7]) && AllDigits(t[8..10])
       && AllDigits(t[11..13]) && AllDigits(t[14..16]) && AllDigits(t[17..19])
    then
      var d := DateTime(Value(t[0..4]), Value(t[5..7]), Value(t[8..10]),
                        Value(t[11..13]), Value(t[14..16]), Value(t[17..19]), 0);
      if Valid(d) then Some(d) else None
    else None
  }

  function Zeros(n: nat): (z: string)
    ensures |z| == n && AllDigits(z)
  {
    seq(n, _ => '0')
  }

  /** `strptime(t, '%Y-%m-%d %H:%M:%S.%f')`: one to six fraction digits, padded on
      the right with zeros to microseconds. */
  function ParseWithFraction(t: string): (r: Option<DateTime>)
    ensures r.Some? ==> Valid(r.value)
  {
    if 21 <= |t| <= 26 && t[19] == '.' && AllDigits(t[20..]) then
      match ParseSeconds(t[..19])
      case None => None
      case Some(d) =>
        var fraction := t[20..];
        AllDigitsAppend(fraction, Zeros(6 - |fraction|));
        assert Pow10(6) == 1000000;
        Some(d.(micro := Value(fraction + Zeros(6 - |fraction|))))
    else None
  }

  /** The two formats `reformat_datetime` tries, in order. */
  datatype Format = WithFraction | WithoutFraction

  function Strptime(t: string, fmt: Format): Option<DateTime>
  {
    match fmt
    case WithFraction => ParseWithFraction(t)
    case WithoutFraction => ParseSeconds(t)
  }

  /** A string the seconds-only format accepts consists of digits and the
      separators `-`, ` ` and `:`; so it never holds a `.`. */
  lemma SecondsFormatRejectsDot(t: string)
    ensures ParseSeconds(t).Some? ==> '.' !in t
  {
  }

  /** `%I`: midnight and noon are 12. */
  function Hour12(h: int): int
    requires 0 <= h < 24
  {
    if h % 12 == 0 then 12 else h % 12
  }

  /** `%p` in the C locale. */
  function Period(h: int): string
  {
    if h < 12 then "AM" else "PM"
  }

  /** `strftime('%m/%d/%Y %I:%M %p')`. */
  function Display(d: DateTime): string
    requires Valid(d)
  {
    Pad2(d.month) + "/" + Pad2(d.day) + "/" + Pad4(d.year) + " "
      + Pad2(Hour12(d.hour)) + ":" + Pad2(d.minute) + " " + Period(d.hour)
  }

  /** How `strptime` combines `%I` with `%p`. */
  function Hour24(i: int, pm: bool): int
  {
    if pm then (if i == 12 then 12 else i + 12) else (if i == 12 then 0 else i)
  }

  /** `strptime(s, '%m/%d/%Y %I:%M %p')` with two-digit fields, a four-digit year
      and an upper-case period; seconds and microseconds are zero. */
  function ParseDisplay(s: string): (r: Option<DateTime>)
    ensures r.Some? ==> Valid(r.value) && r.value == ToMinute(r.value)
  {
    if && |s| == 19
       && s[2] == '/' && s[5] == '/' && s[10] == ' ' && s[13] == ':' && s[16] == ' '
       && AllDigits(s[0..2]) && AllDigits(s[3..5]) && AllDigits(s[6..10])
       && AllDigits(s[11..13]) && AllDigits(s[14..16])
       && (s[17..] == "AM" || s[17..] == "PM")
    then
      var i := Value(s[11..13]);
      if 1 <= i <= 12 then
        var d := DateTime(Value(s[6..10]), Value(s[0..2]), Value(s[3..5]),
                          Hour24(i, s[17..] == "PM"), Value(s[14..16]), 0, 0);
        if Valid(d) then Some(d) else None
      else None
    else None
  }

  /** Where each field sits in the display string: the calendar date and the minute
      are those of `d`, the hour is 12, 1, ..., 11 and the period is AM exactly for
      the hours 0 to 11. */
  lemma DisplayLayout(d: DateTime)
    requires Valid(d)
    ensures var s := Display(d);
      && |s| == 19
      && s[2] == '/' && s[5] == '/' && s[10] == ' ' && s[13] == ':' && s[16] == ' '
      && s[0..2] == Pad2(d.month) && s[3..5] == Pad2(d.day) && s[6..10] == Pad4(d.year)
      && s[11..13] == Pad2(Hour12(d.hour)) && s[14..16] == Pad2(d.minute)
      && 1 <= Value(s[11..13]) <= 12 && Value(s[11..13]) % 12 == d.hour % 12
      && (s[17..] == "AM" <==> d.hour < 12) && (s[17..] == "AM" || s[17..] == "PM")
  {
    var s := Display(d);
    var m, dd, y, h, mi, p := Pad2(d.month), Pad2(d.day), Pad4(d.year), Pad2(Hour12(d.hour)), Pad2(d.minute), Period(d.hour);
    assert s == m + "/" + dd + "/" + y + " " + h + ":" + mi + " " + p;
    assert s[0..2] == m;
    assert s[3..5] == dd;
    assert s[6..10] == y;
    assert s[11..13] == h;
    assert s[14..16] == mi;
    assert s[17..] == p;
  }

  /** Printing and re-parsing the display form gives the timestamp back to the
      minute: this is the `sort_key` the report orders by. */
  lemma DisplayRoundTrip(d: DateTime)
    requires Valid(d)
    ensures ParseDisplay(Display(d)) == Some(ToMinute(d))
  {
    DisplayLayout(d);
    var s := Display(d);
    assert Hour24(Value(s[11..13]), s[17..] == "PM") == d.hour;
  }
}
