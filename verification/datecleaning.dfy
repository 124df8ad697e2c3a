/** `clean_date_string`: the Windows shell shows dates such as `1/2/2022 2:41 PM`,
    sprinkled with left-to-right and right-to-left marks; the script strips the
    marks and zero-pads month, day and hour so the text fits `%m/%d/%Y %I:%M %p`. */
module DateCleaning {
  import opened Wrappers
  import opened PyStr
  import opened DateTimes

  /** The value a missing date field is replaced with. */
  const NotAvailable: string := "NA"

  const LeftToRightMark: char := '\U{200E}'
  const RightToLeftMark: char := '\U{200F}'

  predicate IsMark(c: char) { c == LeftToRightMark || c == RightToLeftMark }

  /** The exceptions `clean_date_string` can raise: no `/` (IndexError on the
      day part), no space (IndexError on the time part), no `:` in the time part
      (ValueError from `str.index`). */
  datatype CleanError = MissingDayPart | MissingTimePart | MissingColon

  /** `.replace('\u200f', '').replace('\u200e', '')`: the marks go, every other
      character stays, in order. */
  function StripMarks(s: string): (r: string)
    ensures forall i :: 0 <= i < |r| ==> !IsMark(r[i])
    ensures (forall i :: 0 <= i < |s| ==> !IsMark(s[i])) ==> r == s
  {
    if s == [] then []
    else if IsMark(s[0]) then StripMarks(s[1..])
    else
      assert s == [s[0]] + s[1..];
      [s[0]] + StripMarks(s[1..])
  }

  /** Every character other than the two marks survives as often as it occurs. */
  lemma {:induction false} StripMarksKeeps(s: string, c: char)
    requires !IsMark(c)
    ensures multiset(StripMarks(s))[c] == multiset(s)[c]
  {
    if s != [] {
      assert s == [s[0]] + s[1..];
      StripMarksKeeps(s[1..], c);
    }
  }

  /** Stripping works piece by piece, so the order of what remains is kept. */
  lemma {:induction false} StripMarksAppend(a: string, b: string)
    ensures StripMarks(a + b) == StripMarks(a) + StripMarks(b)
  {
    if a == [] {
      assert a + b == b;
    } else {
      assert (a + b)[0] == a[0];
      assert (a + b)[1..] == a[1..] + b;
      StripMarksAppend(a[1..], b);
    }
  }

  /** `clean_date_string(value)`: `None` (a field the shell did not report)
      becomes "NA"; otherwise the marks are stripped and the date and the hour
      are padded, in that order. */
  function Clean(value: Option<string>): (r: Result<string, CleanError>)
    ensures value.None? ==> r == Ok(NotAvailable)
    ensures value.Some? && r.Ok? ==> |r.value| <= |StripMarks(value.value)| + 3
    ensures value.Some? && '/' !in StripMarks(value.value) ==> r == Err(MissingDayPart)
  {
    match value
    case None => Ok(NotAvailable)
    case Some(raw) =>
      match PadDate(StripMarks(raw))
      case Err(e) => Err(e)
      case Ok(s) => PadHour(s)
  }

  /** The month and day padding of `clean_date_string`: a one-character month
      gets a leading zero; then a one-character day (measured in the text before
      the month was padded) gets a zero after the third character. */
  function PadDate(s: string): (r: Result<string, CleanError>)
    ensures r.Ok? ==> |r.value| <= |s| + 2
    ensures '/' !in s ==> r == Err(MissingDayPart)
  {
    var dateParts := Split(s, '/');
    var monthPadded := if |dateParts[0]| == 1 then "0" + s else s;
    if |dateParts| < 2 then Err(MissingDayPart)
    else if |dateParts[1]| == 1 then Ok(Take(monthPadded, 3) + "0" + Drop(monthPadded, 3))
    else Ok(monthPadded)
  }

  /** The hour padding of `clean_date_string`: when the colon of the second
      space-separated word sits before its position 2, a zero goes in front of
      the character before the first colon of the text. */
  function PadHour(s: string): (r: Result<string, CleanError>)
    ensures r.Ok? ==> |r.value| <= |s| + 1
  {
    var words := Split(s, ' ');
    if |words| < 2 then Err(MissingTimePart)
    else
      match IndexOf(words[1], ':')
      case None => Err(MissingColon)
      case Some(k) =>
        if k < 2 then
          InSplitPart(s, ' ', 1, ':');
          var colon := IndexOf(s, ':').value;
          // `s[:colon - 1]` with `colon == 0` is Python's `s[:-1]`
          var at := if colon == 0 then |s| - 1 else colon - 1;
          Ok(s[..at] + "0" + s[at..])
        else Ok(s)
  }

  /** A field of one or two characters, zero-padded to two. */
  function Padded(field: string): string
  {
    if |field| == 1 then "0" + field else field
  }

  /** On `<month>/<day>/<rest>` with a month of one or two characters, the
      date padding pads exactly the month and the day. */
  lemma PadDateFields(month: string, day: string, rest: string)
    requires 1 <= |month| <= 2
    requires '/' !in month && '/' !in day && '/' !in rest
    ensures PadDate(month + "/" + day + "/" + rest) == Ok(Padded(month) + "/" + Padded(day) + "/" + rest)
  {
    var s := month + "/" + day + "/" + rest;
    var tail := day + "/" + rest;
    SplitDateFields(month, day, rest);
    PadMonthField(month, day, rest);
    PadDateUnfold(s, month, day, rest, Padded(month) + "/" + tail);
    if |day| == 1 {
      PadDayField(Padded(month), day, rest);
    } else {
      RegroupDay(Padded(month), day, rest);
    }
  }

  /** `PadDate` on a string whose three '/'-parts are known. */
  lemma PadDateUnfold(s: string, month: string, day: string, rest: string, monthPadded: string)
    requires Split(s, '/') == [month, day, rest]
    requires monthPadded == if |month| == 1 then "0" + s else s
    ensures PadDate(s) == if |day| == 1 then Ok(Take(monthPadded, 3) + "0" + Drop(monthPadded, 3)) else Ok(monthPadded)
  {
  }

  /** Padding the day of `p/day/rest`, with `p` the two-digit month. */
  lemma PadDayField(p: string, day: string, rest: string)
    requires |p| == 2
    ensures Take(p + "/" + (day + "/" + rest), 3) + "0" + Drop(p + "/" + (day + "/" + rest), 3)
      == p + "/" + ("0" + day) + "/" + rest
  {
    TakeDropAfterField(p, '/', day + "/" + rest);
    RegroupPaddedDay(p, day, rest);
  }

  lemma SplitDateFields(month: string, day: string, rest: string)
    requires '/' !in month && '/' !in day && '/' !in rest
    ensures Split(month + "/" + day + "/" + rest, '/') == [month, day, rest]
  {
    SplitCons(day, '/', rest);
    DateText(month, day, rest);
    SplitCons(month, '/', day + ['/'] + rest);
  }

  lemma DateText(month: string, day: string, rest: string)
    ensures month + "/" + day + "/" + rest == month + ['/'] + (day + ['/'] + rest)
  {
  }

  lemma PadMonthField(month: string, day: string, rest: string)
    requires 1 <= |month| <= 2
    ensures Padded(month) + "/" + (day + "/" + rest)
      == if |month| == 1 then "0" + (month + "/" + day + "/" + rest) else month + "/" + day + "/" + rest
  {
  }

  lemma RegroupPaddedDay(p: string, day: string, rest: string)
    ensures p + "/" + "0" + (day + "/" + rest) == p + "/" + ("0" + day) + "/" + rest
  {
  }

  lemma RegroupDay(p: string, day: string, rest: string)
    ensures p + "/" + (day + "/" + rest) == p + "/" + day + "/" + rest
  {
  }

  lemma TakeDropAfterField(p: string, sep: char, t: string)
    requires |p| == 2
    ensures Take(p + [sep] + t, 3) == p + [sep]
    ensures Drop(p + [sep] + t, 3) == t
  {
    assert (p + [sep] + t)[..3] == p + [sep];
  }

  /** On `<date> <hour>:<minute> <marker>` with a ten-character date and an
      hour of one or two characters, the hour padding pads exactly the hour. */
  lemma PadHourFields(date: string, hour: string, minute: string, marker: string)
    requires |date| == 10 && 1 <= |hour| <= 2
    requires ' ' !in date && ' ' !in hour && ':' !in date && ':' !in hour && ' ' !in minute
    ensures PadHour(date + " " + hour + ":" + (minute + " " + marker))
      == Ok(date + " " + Padded(hour) + ":" + (minute + " " + marker))
  {
    HourWords(date, hour, minute, marker);
    if |hour| == 1 {
      ShortHourPadded(date, hour, minute + " " + marker);
    }
  }

  /** The second word of `<date> <hour>:<minute> <marker>` has its colon right after the hour. */
  lemma HourWords(date: string, hour: string, minute: string, marker: string)
    requires ' ' !in date && ' ' !in hour && ':' !in hour && ' ' !in minute
    ensures var s := date + " " + hour + ":" + (minute + " " + marker);
      |Split(s, ' ')| >= 2 && IndexOf(Split(s, ' ')[1], ':') == Some(|hour|)
  {
    var rest := minute + " " + marker;
    var time := hour + ":" + rest;
    var s := date + " " + time;
    ConcatAssoc(date + " ", hour, ":" + rest);
    ConcatAssoc(date + " " + hour, ":", rest);
    assert s == date + " " + hour + ":" + rest;
    SplitCons(date, ' ', time);
    var clock := hour + ":" + minute;
    assert ' ' !in clock;
    RegroupClock(hour, minute, marker);
    SplitCons(clock, ' ', marker);
    IndexOfAfterPrefix(hour, ':', minute);
  }

  /** A one-character hour: the first colon is at 12, and a zero put before
      position 11 pads exactly the hour. */
  lemma ShortHourPadded(date: string, hour: string, rest: string)
    requires |date| == 10 && |hour| == 1 && ':' !in date && ':' !in hour
    ensures var s := date + " " + hour + ":" + rest;
      IndexOf(s, ':') == Some(12) && s[..11] + "0" + s[11..] == date + " " + Padded(hour) + ":" + rest
  {
    var before := date + " " + hour;
    assert ':' !in before;
    IndexOfAfterPrefix(before, ':', rest);
    ShortHourInsert(date, hour, rest);
  }

  lemma ShortHourInsert(date: string, hour: string, rest: string)
    requires |date| == 10 && |hour| == 1
    ensures var s := date + " " + hour + ":" + rest;
      s[..11] + "0" + s[11..] == date + " " + Padded(hour) + ":" + rest
  {
    var time := hour + ":" + rest;
    var s := date + " " + hour + ":" + rest;
    ConcatAssoc(date + " ", hour, ":" + rest);
    ConcatAssoc(date + " " + hour, ":", rest);
    assert s == date + " " + time;
    TakeAfterDate(date, hour, rest);
    ConcatAssoc(date + " ", "0", time);
    ConcatAssoc(date + " " + "0", hour, ":" + rest);
    ConcatAssoc(date + " ", "0", hour);
    ConcatAssoc(date + " " + ("0" + hour), ":", rest);
  }

  lemma RegroupClock(hour: string, minute: string, marker: string)
    ensures hour + ":" + (minute + " " + marker) == (hour + ":" + minute) + [' '] + marker
  {
  }

  lemma TakeAfterDate(date: string, hour: string, rest: string)
    requires |date| == 10
    ensures (date + " " + (hour + ":" + rest))[..11] == date + " "
    ensures (date + " " + (hour + ":" + rest))[11..] == hour + ":" + rest
  {
  }

  /** A number below 100 as the shell shows it: without its leading zero
      unless `padded`. */
  function ShellField(n: nat, padded: bool): (s: string)
    requires n < 100
    ensures AllDigits(s) && 1 <= |s| <= 2
    ensures |s| == 1 <==> !padded && n < 10
  {
    if padded || n >= 10 then Pad2(n) else [DigitChar(n)]
  }

  /** A datetime as the shell may show it: month, day and hour with or without
      their leading zero, minutes and year always in full. */
  function ShellText(dt: DateTime, padMonth: bool, padDay: bool, padHour: bool): string
    requires Valid(dt)
  {
    ShellField(dt.month, padMonth) + "/" + ShellField(dt.day, padDay) + "/" + Pad4(dt.year) + " "
      + ShellField(dt.hour, padHour) + ":" + Pad2(dt.minute) + " " + MeridiemText(dt.meridiem)
  }

  lemma PaddedShellField(n: nat, padded: bool)
    requires n < 100
    ensures Padded(ShellField(n, padded)) == Pad2(n)
  {
  }

  /** The text of a valid datetime once its date is padded. */
  function DatePaddedText(dt: DateTime, padHour: bool): string
    requires Valid(dt)
  {
    (Pad2(dt.month) + "/" + Pad2(dt.day) + "/" + Pad4(dt.year)) + " " + ShellField(dt.hour, padHour)
      + ":" + (Pad2(dt.minute) + " " + MeridiemText(dt.meridiem))
  }

  lemma PadDateShellText(dt: DateTime, padMonth: bool, padDay: bool, padHour: bool)
    requires Valid(dt)
    ensures PadDate(ShellText(dt, padMonth, padDay, padHour)) == Ok(DatePaddedText(dt, padHour))
  {
    var month, day, hour := ShellField(dt.month, padMonth), ShellField(dt.day, padDay), ShellField(dt.hour, padHour);
    var minute, year, marker := Pad2(dt.minute), Pad4(dt.year), MeridiemText(dt.meridiem);
    assert '/' !in marker;
    NotInDigits(month, '/'); NotInDigits(day, '/'); NotInDigits(year, '/'); NotInDigits(hour, '/'); NotInDigits(minute, '/');
    PaddedShellField(dt.month, padMonth);
    PaddedShellField(dt.day, padDay);
    var rest := year + " " + hour + ":" + minute + " " + marker;
    assert '/' !in rest;
    RegroupDate(month, day, year, hour, minute, marker);
    PadDateFields(month, day, rest);
    RegroupTime(Pad2(dt.month), Pad2(dt.day), year, hour, minute, marker);
  }

  lemma PadHourShellText(dt: DateTime, padHour: bool)
    requires Valid(dt)
    ensures PadHour(DatePaddedText(dt, padHour)) == Ok(Format(dt))
  {
    var hour, minute, year, marker := ShellField(dt.hour, padHour), Pad2(dt.minute), Pad4(dt.year), MeridiemText(dt.meridiem);
    var date := Pad2(dt.month) + "/" + Pad2(dt.day) + "/" + year;
    NotInDigits(Pad2(dt.month), ' '); NotInDigits(Pad2(dt.day), ' '); NotInDigits(year, ' ');
    NotInDigits(Pad2(dt.month), ':'); NotInDigits(Pad2(dt.day), ':'); NotInDigits(year, ':');
    NotInDigits(hour, ' '); NotInDigits(hour, ':'); NotInDigits(minute, ' ');
    assert ' ' !in date && ':' !in date;
    PaddedShellField(dt.hour, padHour);
    PadHourFields(date, hour, minute, marker);
    FormatFields(dt);
    RegroupFormat(Pad2(dt.month), Pad2(dt.day), year, Pad2(dt.hour), minute, marker);
  }

  /** Whatever the shell shows for a datetime, marks included, cleans to the
      zero-padded text that `Parse` reads back as that datetime. */
  lemma CleanShellText(raw: string, dt: DateTime, padMonth: bool, padDay: bool, padHour: bool)
    requires Valid(dt)
    requires StripMarks(raw) == ShellText(dt, padMonth, padDay, padHour)
    ensures Clean(Some(raw)) == Ok(Format(dt))
    ensures Parse(Format(dt)) == Some(dt)
  {
    ParseFormat(dt);
    PadDateShellText(dt, padMonth, padDay, padHour);
    PadHourShellText(dt, padHour);
  }

  lemma RegroupDate(a: string, b: string, c: string, e: string, f: string, g: string)
    ensures a + "/" + b + "/" + c + " " + e + ":" + f + " " + g == a + "/" + b + "/" + (c + " " + e + ":" + f + " " + g)
  {
  }

  lemma RegroupTime(a: string, b: string, c: string, e: string, f: string, g: string)
    ensures a + "/" + b + "/" + (c + " " + e + ":" + f + " " + g) == (a + "/" + b + "/" + c) + " " + e + ":" + (f + " " + g)
  {
  }

  lemma RegroupFormat(a: string, b: string, c: string, e: string, f: string, g: string)
    ensures (a + "/" + b + "/" + c) + " " + e + ":" + (f + " " + g) == a + "/" + b + "/" + c + " " + e + ":" + f + " " + g
  {
  }

  /** Text that is already zero-padded is left as it is. */
  lemma CleanKeepsPadded(dt: DateTime)
    requires Valid(dt)
    ensures Clean(Some(Format(dt))) == Ok(Format(dt))
  {
    ShellTextPadded(dt);
    FormatHasNoMarks(dt);
    CleanShellText(Format(dt), dt, true, true, true);
  }

  lemma ShellTextPadded(dt: DateTime)
    requires Valid(dt)
    ensures ShellText(dt, true, true, true) == Format(dt)
  {
    FormatFields(dt);
  }

  lemma FormatHasNoMarks(dt: DateTime)
    requires Valid(dt)
    ensures StripMarks(Format(dt)) == Format(dt)
  {
    var f := Format(dt);
    forall i | 0 <= i < |f|
      ensures !IsMark(f[i])
    {
    }
  }

  /** The example in the script's own comment: `1/2/2022 2:41 PM` becomes
      `01/02/2022 02:41 PM`. */
  lemma CleanCommentExample()
    ensures Clean(Some("1/2/2022 2:41 PM")) == Ok("01/02/2022 02:41 PM")
  {
    var raw, dt := "1/2/2022 2:41 PM", DateTime(2022, 1, 2, 2, 41, PM);
    forall i | 0 <= i < |raw|
      ensures !IsMark(raw[i])
    {
    }
    ExampleShellText(dt);
    ExampleFormat(dt);
    CleanShellText(raw, dt, false, false, false);
  }

  lemma ExampleShellText(dt: DateTime)
    requires dt == DateTime(2022, 1, 2, 2, 41, PM)
    ensures Valid(dt) && ShellText(dt, false, false, false) == "1/2/2022 2:41 PM"
  {
  }

  lemma ExampleFormat(dt: DateTime)
    requires dt == DateTime(2022, 1, 2, 2, 41, PM)
    ensures Valid(dt) && Format(dt) == "01/02/2022 02:41 PM"
  {
  }
}
