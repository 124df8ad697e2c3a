/** The naive datetimes the script compares, read from text in the one
    pattern it parses with: `%m/%d/%Y %I:%M %p` (for example `01/02/2022 02:41 PM`). */
module DateTimes {
  import opened Wrappers
  import opened PyStr

  datatype Meridiem = AM | PM

  /** A datetime on the 12-hour clock, as the pattern spells it. */
  datatype DateTime = DateTime(year: int, month: int, day: int, hour: int, minute: int, meridiem: Meridiem)

  predicate IsLeapYear(y: int)
  {
    y % 4 == 0 && (y % 100 != 0 || y % 400 == 0)
  }

  function DaysInMonth(y: int, m: int): int
    requires 1 <= m <= 12
  {
    if m == 2 then (if IsLeapYear(y) then 29 else 28)
    else if m == 4 || m == 6 || m == 9 || m == 11 then 30
    else 31
  }

  /** What `datetime.strptime` accepts: a four-digit year from 1, a real
      calendar day, an hour 1..12 and a minute 0..59. */
  predicate Valid(dt: DateTime)
  {
    && 1 <= dt.year <= 9999
    && 1 <= dt.month <= 12
    && 1 <= dt.day <= DaysInMonth(dt.year, dt.month)
    && 1 <= dt.hour <= 12
    && 0 <= dt.minute <= 59
  }

  /** The hour of the day that `strptime` derives from `%I` and `%p`:
      12 AM is hour 0, 12 PM is hour 12. */
  function Hour24(dt: DateTime): int
  {
    match dt.meridiem
    case AM => if dt.hour == 12 then 0 else dt.hour
    case PM => if dt.hour == 12 then 12 else dt.hour + 12
  }

  /** `a < b` on datetimes: earlier year, month, day, hour of day, minute. */
  predicate Before(a: DateTime, b: DateTime)
  {
    if a.year != b.year then a.year < b.year
    else if a.month != b.month then a.month < b.month
    else if a.day != b.day then a.day < b.day
    else if Hour24(a) != Hour24(b) then Hour24(a) < Hour24(b)
    else a.minute < b.minute
  }

  /** `Before` is a strict order ... */
  lemma BeforeStrict(a: DateTime, b: DateTime, c: DateTime)
    ensures !Before(a, a)
    ensures Before(a, b) && Before(b, c) ==> Before(a, c)
    ensures !Before(a, b) && !Before(b, c) ==> !Before(a, c)
  {
  }

  /** ... and total on valid datetimes: two of them that are not ordered are equal. */
  lemma {:induction false} BeforeTotal(a: DateTime, b: DateTime)
    requires Valid(a) && Valid(b)
    ensures Before(a, b) || Before(b, a) || a == b
  {
    if !Before(a, b) && !Before(b, a) {
      assert Hour24(a) == Hour24(b);
    }
  }

  /** On one day, every AM time precedes every PM time, and 12 o'clock is the
      first hour of its half of the day. */
  lemma ClockOrder(a: DateTime, b: DateTime)
    requires Valid(a) && Valid(b)
    requires a.year == b.year && a.month == b.month && a.day == b.day
    ensures a.meridiem == AM && b.meridiem == PM ==> Before(a, b)
    ensures a.meridiem == b.meridiem && a.hour == 12 && b.hour != 12 ==> Before(a, b)
  {
  }

  /** Two digits for a number below 100, as `%02d` writes it. */
  function Pad2(n: nat): (s: string)
    requires n < 100
    ensures |s| == 2 && AllDigits(s)
  {
    [DigitChar(n / 10), DigitChar(n % 10)]
  }

  function Pad4(n: nat): (s: string)
    requires n < 10000
    ensures |s| == 4 && AllDigits(s)
  {
    Pad2(n / 100) + Pad2(n % 100)
  }

  function MeridiemText(m: Meridiem): string
  {
    match m
    case AM => "AM"
    case PM => "PM"
  }

  /** `strftime('%m/%d/%Y %I:%M %p')`, character by character. */
  function Format(dt: DateTime): (s: string)
    requires Valid(dt)
    ensures |s| == 19
  {
    var yHigh, yLow := dt.year / 100, dt.year % 100;
    [ DigitChar(dt.month / 10), DigitChar(dt.month % 10), '/',
      DigitChar(dt.day / 10), DigitChar(dt.day % 10), '/',
      DigitChar(yHigh / 10), DigitChar(yHigh % 10), DigitChar(yLow / 10), DigitChar(yLow % 10), ' ',
      DigitChar(dt.hour / 10), DigitChar(dt.hour % 10), ':',
      DigitChar(dt.minute / 10), DigitChar(dt.minute % 10), ' ',
      if dt.meridiem == AM then 'A' else 'P', 'M' ]
  }

  /** The same text, as its fields glued together. */
  lemma FormatFields(dt: DateTime)
    requires Valid(dt)
    ensures Format(dt) == Pad2(dt.month) + "/" + Pad2(dt.day) + "/" + Pad4(dt.year) + " "
      + Pad2(dt.hour) + ":" + Pad2(dt.minute) + " " + MeridiemText(dt.meridiem)
  {
  }

  /** Two digits at position `i`, read as a number. */
  function TwoDigits(s: string, i: nat): (r: Option<nat>)
    requires i + 2 <= |s|
    ensures r.Some? ==> r.value < 100 && s[i] == DigitChar(r.value / 10) && s[i + 1] == DigitChar(r.value % 10)
  {
    if IsDigit(s[i]) && IsDigit(s[i + 1]) then
      var n := DigitValue(s[i]) * 10 + DigitValue(s[i + 1]);
      DigitRoundTrip(s[i]);
      DigitRoundTrip(s[i + 1]);
      Some(n)
    else None
  }

  lemma DigitRoundTrip(c: char)
    requires IsDigit(c)
    ensures DigitChar(DigitValue(c)) == c
  {
  }

  lemma TwoDigitsOfPad(s: string, i: nat, n: nat)
    requires i + 2 <= |s| && n < 100
    requires s[i] == DigitChar(n / 10) && s[i + 1] == DigitChar(n % 10)
    ensures TwoDigits(s, i) == Some(n)
  {
  }

  lemma LowerMeridiemText(m: Meridiem)
    ensures Lower(MeridiemText(m)) == if m == AM then "am" else "pm"
  {
    var t := MeridiemText(m);
    var l := Lower(t);
    assert l[0] == LowerChar(t[0]) && l[1] == LowerChar(t[1]);
  }

  /** `%p`: AM or PM in either case. */
  function ParseMeridiem(s: string): (r: Option<Meridiem>)
    ensures r.Some? ==> Lower(s) == Lower(MeridiemText(r.value))
    ensures Lower(s) == "am" ==> r == Some(AM)
    ensures Lower(s) == "pm" ==> r == Some(PM)
  {
    var l := Lower(s);
    if l == "am" then Some(AM) else if l == "pm" then Some(PM) else None
  }

  /** `datetime.strptime(s, '%m/%d/%Y %I:%M %p')` on zero-padded text;
      `None` where it raises `ValueError`. */
  function Parse(s: string): (r: Option<DateTime>)
    ensures r.Some? ==> Valid(r.value)
  {
    if |s| != 19 || s[2] != '/' || s[5] != '/' || s[10] != ' ' || s[13] != ':' || s[16] != ' ' then None
    else
      match (TwoDigits(s, 0), TwoDigits(s, 3), TwoDigits(s, 6), TwoDigits(s, 8),
             TwoDigits(s, 11), TwoDigits(s, 14), ParseMeridiem(s[17..]))
      case (Some(mo), Some(d), Some(yHigh), Some(yLow), Some(h), Some(mi), Some(m)) =>
        var dt := DateTime(yHigh * 100 + yLow, mo, d, h, mi, m);
        if Valid(dt) then Some(dt) else None
      case _ => None
  }

  /** Reading back what `Format` wrote gives the same datetime. */
  lemma ParseFormat(dt: DateTime)
    requires Valid(dt)
    ensures Parse(Format(dt)) == Some(dt)
  {
    FormatSeparators(dt);
    FormatNumbers(dt);
    FormatMeridiem(dt);
  }

  lemma FormatSeparators(dt: DateTime)
    requires Valid(dt)
    ensures var s := Format(dt);
      s[2] == '/' && s[5] == '/' && s[10] == ' ' && s[13] == ':' && s[16] == ' '
  {
  }

  lemma FormatNumbers(dt: DateTime)
    requires Valid(dt)
    ensures var s := Format(dt);
      && TwoDigits(s, 0) == Some(dt.month) && TwoDigits(s, 3) == Some(dt.day)
      && TwoDigits(s, 6) == Some(dt.year / 100) && TwoDigits(s, 8) == Some(dt.year % 100)
      && TwoDigits(s, 11) == Some(dt.hour) && TwoDigits(s, 14) == Some(dt.minute)
  {
    var s := Format(dt);
    TwoDigitsOfPad(s, 0, dt.month);
    TwoDigitsOfPad(s, 3, dt.day);
    TwoDigitsOfPad(s, 6, dt.year / 100);
    TwoDigitsOfPad(s, 8, dt.year % 100);
    TwoDigitsOfPad(s, 11, dt.hour);
    TwoDigitsOfPad(s, 14, dt.minute);
  }

  lemma FormatMeridiem(dt: DateTime)
    requires Valid(dt)
    ensures ParseMeridiem(Format(dt)[17..]) == Some(dt.meridiem)
  {
    assert Format(dt)[17..] == MeridiemText(dt.meridiem);
    LowerMeridiemText(dt.meridiem);
  }

  /** `Parse` accepts only the text `Format` writes, up to the case of AM/PM. */
  lemma FormatParse(s: string, dt: DateTime)
    requires Parse(s) == Some(dt)
    ensures Valid(dt) && |s| == 19
    ensures s[..17] == Format(dt)[..17]
    ensures Lower(s[17..]) == Lower(Format(dt)[17..])
  {
    var f := Format(dt);
    var yHigh := TwoDigits(s, 6).value;
    var yLow := TwoDigits(s, 8).value;
    assert dt.year / 100 == yHigh && dt.year % 100 == yLow;
    assert f[17..] == MeridiemText(dt.meridiem);
  }
}
