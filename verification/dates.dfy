/**
 * Date display (`LarzacEventsMailer.format_date`): a timestamp such as
 * "2024-03-15T14:30:00Z" becomes "15 mars 2024 à 14h30", a midnight one
 * "15 mars 2024"; text that does not parse is returned as it came.
 *
 * Python's `datetime.fromisoformat` is modelled on the subset
 * `YYYY-MM-DD`, optionally followed by a separator character and `HH:MM` or
 * `HH:MM:SS`, optionally followed by an offset `+HH:MM` / `-HH:MM`.
 */
module DateFormat {
  import opened Common
  import opened Calendar

  datatype DateTime = DateTime(date: Date, hour: int, minute: int, second: int)

  predicate ValidDateTime(dt: DateTime) {
    ValidDate(dt.date) && 0 <= dt.hour < 24 && 0 <= dt.minute < 60 && 0 <= dt.second < 60
  }

  /** `s.replace('Z', '+00:00')`: every 'Z', wherever it stands. */
  function ReplaceZ(s: string): (r: string)
    ensures 'Z' !in r
    ensures 'Z' !in s ==> r == s
  {
    if |s| == 0 then ""
    else (if s[0] == 'Z' then "+00:00" else [s[0]]) + ReplaceZ(s[1..])
  }

  /** `YYYY-MM-DD`, checked against the calendar. */
  function ParseDate(s: string): (r: Option<Date>)
    requires |s| == 10
    ensures r.Some? ==> ValidDate(r.value)
  {
    if s[4] != '-' || s[7] != '-' then None
    else
      match (ParseFixed(s[..4], 4), ParseFixed(s[5..7], 2), ParseFixed(s[8..], 2))
      case (Some(y), Some(m), Some(d)) =>
        if ValidDate(Date(y, m, d)) then Some(Date(y, m, d)) else None
      case _ => None
  }

  /** A clock time, returned only when hour < 24, minute < 60 and second < 60. */
  predicate ValidClock(h: int, m: int, s: int) {
    0 <= h < 24 && 0 <= m < 60 && 0 <= s < 60
  }

  /** `HH:MM` or `HH:MM:SS` (seconds default to 0). */
  function ParseTime(t: string): (r: Option<(int, int, int)>)
    ensures r.Some? ==> ValidClock(r.value.0, r.value.1, r.value.2)
  {
    if |t| == 5 && t[2] == ':' then
      match (ParseFixed(t[..2], 2), ParseFixed(t[3..], 2))
      case (Some(h), Some(m)) => if ValidClock(h, m, 0) then Some((h, m, 0)) else None
      case _ => None
    else if |t| == 8 && t[2] == ':' && t[5] == ':' then
      match (ParseFixed(t[..2], 2), ParseFixed(t[3..5], 2), ParseFixed(t[6..], 2))
      case (Some(h), Some(m), Some(s)) => if ValidClock(h, m, s) then Some((h, m, s)) else None
      case _ => None
    else None
  }

  /**
   * A UTC offset `+HH:MM` or `-HH:MM` of less than one day. Only the total
   * is checked, so the minutes may exceed 59 (`+00:75` is 75 minutes).
   */
  predicate ValidOffset(o: string) {
    && |o| == 6 && (o[0] == '+' || o[0] == '-') && o[3] == ':'
    && match (ParseFixed(o[1..3], 2), ParseFixed(o[4..], 2))
       case (Some(h), Some(m)) => h * 60 + m < 24 * 60
       case _ => false
  }

  /**
   * `datetime.fromisoformat` on the modelled subset. The offset is
   * checked, then dropped: `format_date` shows the wall-clock fields as
   * written, without converting them to another zone.
   */
  function ParseIso(s: string): (r: Option<DateTime>)
    ensures r.Some? ==> ValidDateTime(r.value)
  {
    if |s| < 10 then None
    else
      match ParseDate(s[..10])
      case None => None
      case Some(d) =>
        if |s| == 10 then Some(DateTime(d, 0, 0, 0))
        else
          // Python 3.11 takes any single character as the separator.
          var rest := s[11..];
          var hasOffset := |rest| > 6 && (rest[|rest| - 6] == '+' || rest[|rest| - 6] == '-');
          var time := if hasOffset then rest[..|rest| - 6] else rest;
          if hasOffset && !ValidOffset(rest[|rest| - 6..]) then None
          else
            match ParseTime(time)
            case None => None
            case Some((h, m, sec)) => Some(DateTime(d, h, m, sec))
  }

  lemma ParseIsoDate(d: Date)
    requires ValidDate(d)
    ensures ParseDate(IsoDate(d)) == Some(d)
  {
  }

  /** The `HH:MM:SS` part `isoformat` writes. */
  function IsoClock(h: nat, m: nat, sec: nat): (t: string)
    requires ValidClock(h, m, sec)
    ensures |t| == 8 && t[2] == ':' && t[5] == ':'
    ensures ParseFixed(t[..2], 2) == Some(h)
    ensures ParseFixed(t[3..5], 2) == Some(m)
    ensures ParseFixed(t[6..], 2) == Some(sec)
  {
    Pad2Shape(h);
    Pad2Shape(m);
    Pad2Shape(sec);
    var t := ZeroPad(h, 2) + ":" + ZeroPad(m, 2) + ":" + ZeroPad(sec, 2);
    assert t[..2] == ZeroPad(h, 2);
    assert t[3..5] == ZeroPad(m, 2);
    assert t[6..] == ZeroPad(sec, 2);
    t
  }

  lemma ParseIsoClock(h: nat, m: nat, sec: nat)
    requires ValidClock(h, m, sec)
    ensures ParseTime(IsoClock(h, m, sec)) == Some((h, m, sec))
  {
  }

  /** `datetime.isoformat()` of a zone-less datetime: `YYYY-MM-DDTHH:MM:SS`. */
  function IsoDateTime(dt: DateTime): (s: string)
    requires ValidDateTime(dt)
    ensures |s| == 19
  {
    IsoDate(dt.date) + "T" + IsoClock(dt.hour, dt.minute, dt.second)
  }

  /** A date, a separator and a clock time without offset parse field by field. */
  lemma ParseIsoJoin(d: string, t: string, dt: DateTime)
    requires |d| == 10 && ParseDate(d) == Some(dt.date)
    requires |t| == 8 && t[2] == ':' && ParseTime(t) == Some((dt.hour, dt.minute, dt.second))
    ensures ParseIso(d + "T" + t) == Some(dt)
  {
    var s := d + "T" + t;
    assert s[..10] == d;
    assert s[11..] == t;
  }

  /** A date, a separator, a clock time and a "+00:00" offset parse field by field. */
  lemma ParseIsoJoinUtc(d: string, t: string, dt: DateTime)
    requires |d| == 10 && ParseDate(d) == Some(dt.date)
    requires |t| == 8 && t[2] == ':' && ParseTime(t) == Some((dt.hour, dt.minute, dt.second))
    ensures ParseIso(d + "T" + t + "+00:00") == Some(dt)
  {
    var s := d + "T" + t + "+00:00";
    assert s[..10] == d;
    var rest := s[11..];
    assert rest == t + "+00:00";
    assert rest[..|rest| - 6] == t;
    assert rest[|rest| - 6..] == "+00:00";
    assert ValidOffset("+00:00") by {
      assert "+00:00"[1..3] == "00" && "+00:00"[4..] == "00";
      assert "00"[..1] == "0";
      assert DigitsValue("00") == 0;
    }
  }

  /** Reading back what `isoformat` writes gives the same datetime. */
  lemma ParseIsoDateTime(dt: DateTime)
    requires ValidDateTime(dt)
    ensures ParseIso(IsoDateTime(dt)) == Some(dt)
  {
    ParseIsoDate(dt.date);
    ParseIsoClock(dt.hour, dt.minute, dt.second);
    ParseIsoJoin(IsoDate(dt.date), IsoClock(dt.hour, dt.minute, dt.second), dt);
  }

  // ---------------------------------------------------------------------
  // French rendering
  // ---------------------------------------------------------------------

  /** The month table of `format_date`, indexed 1..12: words without spaces or digits. */
  function MonthName(m: int): (name: string)
    requires 1 <= m <= 12
    ensures 3 <= |name| && forall i :: 0 <= i < |name| ==> name[i] != ' ' && !IsDigit(name[i])
  {
    match m
    case 1 => "janvier"
    case 2 => "février"
    case 3 => "mars"
    case 4 => "avril"
    case 5 => "mai"
    case 6 => "juin"
    case 7 => "juillet"
    case 8 => "août"
    case 9 => "septembre"
    case 10 => "octobre"
    case 11 => "novembre"
    case _ => "décembre"
  }

  /** The month a name of the table stands for. */
  function MonthNumber(name: string): (m: Option<int>)
    ensures m.Some? ==> 1 <= m.value <= 12 && MonthName(m.value) == name
  {
    if name == "janvier" then Some(1)
    else if name == "février" then Some(2)
    else if name == "mars" then Some(3)
    else if name == "avril" then Some(4)
    else if name == "mai" then Some(5)
    else if name == "juin" then Some(6)
    else if name == "juillet" then Some(7)
    else if name == "août" then Some(8)
    else if name == "septembre" then Some(9)
    else if name == "octobre" then Some(10)
    else if name == "novembre" then Some(11)
    else if name == "décembre" then Some(12)
    else None
  }

  /** Every month's name reads back as that month. */
  lemma MonthNumberName(m: int)
    requires 1 <= m <= 12
    ensures MonthNumber(MonthName(m)) == Some(m)
  {
  }

  /**
   * `f"{day} {month} {year}"`, day and year without padding: the day's
   * one or two digits, a space, the month's name, a space and the year's
   * one to four digits, each field reading back as written.
   */
  function FrenchDay(d: Date): (r: string)
    requires ValidDate(d)
    ensures var k, n := |Decimal(d.day)|, |Decimal(d.year)|;
      && 1 <= k <= 2 && 1 <= n <= 4
      && |r| == k + 1 + |MonthName(d.month)| + 1 + n
      && ParseFixed(r[..k], k) == Some(d.day) && r[k] == ' '
      && r[k + 1..|r| - n - 1] == MonthName(d.month)
      && r[|r| - n - 1] == ' ' && ParseFixed(r[|r| - n..], n) == Some(d.year)
  {
    assert Pow10(2) == 100 && Pow10(4) == 10000;
    DecimalLength(d.day, 2);
    DecimalLength(d.year, 4);
    var dd, yy := Decimal(d.day), Decimal(d.year);
    var r := dd + " " + MonthName(d.month) + " " + yy;
    assert r[..|dd|] == dd;
    assert r[|dd| + 1..|r| - |yy| - 1] == MonthName(d.month);
    assert r[|r| - |yy|..] == yy;
    r
  }

  /** Where the day's digits end and the year's begin can be read off the rendering itself. */
  lemma FrenchDayFieldWidths(d: Date)
    requires ValidDate(d)
    ensures var r := FrenchDay(d);
      && |Decimal(d.day)| == (if r[1] == ' ' then 1 else 2)
      && |Decimal(d.year)| == (if r[|r| - 2] == ' ' then 1 else if r[|r| - 3] == ' ' then 2
                               else if r[|r| - 4] == ' ' then 3 else 4)
  {
    var r := FrenchDay(d);
    var k, n := |Decimal(d.day)|, |Decimal(d.year)|;
    if k == 2 {
      assert IsDigit(r[..2][1]);
    }
    var yy := r[|r| - n..];
    if n >= 2 {
      assert IsDigit(yy[n - 2]) && r[|r| - 2] == yy[n - 2];
    }
    if n >= 3 {
      assert IsDigit(yy[n - 3]) && r[|r| - 3] == yy[n - 3];
    }
    if n >= 4 {
      assert IsDigit(yy[n - 4]) && r[|r| - 4] == yy[n - 4];
    }
  }

  /**
   * Reads a day rendering back: the digits before the first space, the
   * month name between the two spaces, the digits after the last.
   */
  function ReadFrenchDay(r: string): Option<Date> {
    if |r| < 7 then None
    else
      var k := if r[1] == ' ' then 1 else 2;
      var n := if r[|r| - 2] == ' ' then 1 else if r[|r| - 3] == ' ' then 2 else if r[|r| - 4] == ' ' then 3 else 4;
      if k + n + 2 > |r| then None
      else
        match (ParseFixed(r[..k], k), MonthNumber(r[k + 1..|r| - n - 1]), ParseFixed(r[|r| - n..], n))
        case (Some(day), Some(m), Some(y)) => Some(Date(y, m, day))
        case _ => None
  }

  /** Reading a day rendering back gives the date rendered. */
  lemma ReadFrenchDayRoundTrip(d: Date)
    requires ValidDate(d)
    ensures ReadFrenchDay(FrenchDay(d)) == Some(d)
  {
    FrenchDayFieldWidths(d);
    MonthNumberName(d.month);
  }

  /** The day rendering is unambiguous: distinct dates are shown differently. */
  lemma FrenchDayInjective(a: Date, b: Date)
    requires ValidDate(a) && ValidDate(b) && FrenchDay(a) == FrenchDay(b)
    ensures a == b
  {
    ReadFrenchDayRoundTrip(a);
    ReadFrenchDayRoundTrip(b);
  }

  /**
   * The time suffix: nothing at midnight, otherwise `" à "`, two hour
   * digits, `h` and two minute digits, reading back as hour and minute.
   */
  function FrenchTime(hour: int, minute: int): (r: string)
    requires 0 <= hour < 24 && 0 <= minute < 60
    ensures hour == 0 && minute == 0 <==> r == ""
    ensures r != "" ==>
      && |r| == 8 && r[..3] == " à " && r[5] == 'h'
      && ParseFixed(r[3..5], 2) == Some(hour) && ParseFixed(r[6..], 2) == Some(minute)
  {
    Pad2Shape(hour);
    Pad2Shape(minute);
    if hour == 0 && minute == 0 then ""
    else
      var r := " à " + ZeroPad(hour, 2) + "h" + ZeroPad(minute, 2);
      assert r[3..5] == ZeroPad(hour, 2);
      assert r[6..] == ZeroPad(minute, 2);
      r
  }

  /**
   * The French rendering: the day, alone exactly at midnight (hour and
   * minute both zero), otherwise followed by the time suffix.
   */
  function French(dt: DateTime): (r: string)
    requires ValidDateTime(dt)
    ensures |r| >= |FrenchDay(dt.date)| && r[..|FrenchDay(dt.date)|] == FrenchDay(dt.date)
    ensures r[|FrenchDay(dt.date)|..] == FrenchTime(dt.hour, dt.minute)
    ensures dt.hour == 0 && dt.minute == 0 <==> r == FrenchDay(dt.date)
  {
    var day, time := FrenchDay(dt.date), FrenchTime(dt.hour, dt.minute);
    var r := day + time;
    assert r[..|day|] == day;
    assert r[|day|..] == time;
    r
  }

  /**
   * `format_date`: the input comes back unchanged exactly when it does not
   * parse; otherwise it is shown in French.
   */
  function FormatDate(s: string): (r: string)
    ensures r == s <==> ParseIso(ReplaceZ(s)).None?
    ensures ParseIso(ReplaceZ(s)).Some? ==> r == French(ParseIso(ReplaceZ(s)).value)
  {
    match ParseIso(ReplaceZ(s))
    case None => s
    case Some(dt) =>
      RenderingDiffersFromInput(s, dt);
      French(dt)
  }

  /** Two timestamps that differ only in their seconds are shown alike. */
  lemma FrenchIgnoresSeconds(a: DateTime, b: DateTime)
    requires ValidDateTime(a) && ValidDateTime(b)
    requires a.date == b.date && a.hour == b.hour && a.minute == b.minute
    ensures French(a) == French(b)
  {
  }

  lemma DigitsNoZ(x: string)
    requires AllDigits(x)
    ensures 'Z' !in x
  {
  }

  /**
   * A rendering never equals its input: whatever parses starts with four
   * digits, while the rendering has a space within its first three
   * characters.
   */
  lemma RenderingDiffersFromInput(s: string, dt: DateTime)
    requires ParseIso(ReplaceZ(s)) == Some(dt)
    ensures French(dt) != s
  {
    var u := ReplaceZ(s);
    var k := |Decimal(dt.date.day)|;
    assert French(dt)[k] == FrenchDay(dt.date)[k] == ' ';
    ParsedStartsWithYear(u);
    ReplaceZDigitPrefix(s, k);
    assert s[k] != French(dt)[k];
  }

  /** Where the replaced text starts with digits, the original has the same characters there. */
  lemma {:induction false} ReplaceZDigitPrefix(s: string, i: nat)
    requires i < |ReplaceZ(s)| && forall j :: 0 <= j <= i ==> IsDigit(ReplaceZ(s)[j])
    ensures i < |s| && s[i] == ReplaceZ(s)[i]
    decreases i
  {
    var u := ReplaceZ(s);
    assert |s| > 0;
    assert u == (if s[0] == 'Z' then "+00:00" else [s[0]]) + ReplaceZ(s[1..]);
    assert u[0] == (if s[0] == 'Z' then '+' else s[0]);
    assert IsDigit(u[0]);
    if i > 0 {
      var v := ReplaceZ(s[1..]);
      assert u == [s[0]] + v;
      forall j | 0 <= j <= i - 1
        ensures IsDigit(v[j])
      {
        assert v[j] == u[j + 1];
      }
      ReplaceZDigitPrefix(s[1..], i - 1);
    }
  }

  /** Whatever parses starts with four year digits. */
  lemma ParsedStartsWithYear(u: string)
    requires ParseIso(u).Some?
    ensures |u| >= 10 && forall i :: 0 <= i < 4 ==> IsDigit(u[i])
  {
    assert AllDigits(u[..10][..4]);
    forall i | 0 <= i < 4
      ensures IsDigit(u[i])
    {
      assert u[i] == u[..10][..4][i];
    }
  }

  /** Formatting what `isoformat` writes, with or without a trailing "Z", gives the French rendering. */
  lemma FormatIsoDateTime(dt: DateTime)
    requires ValidDateTime(dt)
    ensures FormatDate(IsoDateTime(dt)) == French(dt)
    ensures FormatDate(IsoDateTime(dt) + "Z") == French(dt)
  {
    var d, t := IsoDate(dt.date), IsoClock(dt.hour, dt.minute, dt.second);
    NoZInIsoDateTime(dt);
    ParseIsoDateTime(dt);
    ParseIsoDate(dt.date);
    ParseIsoClock(dt.hour, dt.minute, dt.second);
    ReplaceZAppend(IsoDateTime(dt), "Z");
    assert ReplaceZ("Z") == "+00:00";
    assert IsoDateTime(dt) + "+00:00" == d + "T" + t + "+00:00";
    ParseIsoJoinUtc(d, t, dt);
  }

  lemma NoZInIsoDateTime(dt: DateTime)
    requires ValidDateTime(dt)
    ensures 'Z' !in IsoDateTime(dt)
  {
    NoZInIsoDate(dt.date);
    NoZInIsoClock(dt.hour, dt.minute, dt.second);
  }

  lemma NoZInIsoDate(d: Date)
    requires ValidDate(d)
    ensures 'Z' !in IsoDate(d)
  {
    DigitsNoZ(ZeroPad(d.year, 4));
    DigitsNoZ(ZeroPad(d.month, 2));
    DigitsNoZ(ZeroPad(d.day, 2));
  }

  lemma NoZInIsoClock(h: nat, m: nat, sec: nat)
    requires ValidClock(h, m, sec)
    ensures 'Z' !in IsoClock(h, m, sec)
  {
    DigitsNoZ(ZeroPad(h, 2));
    DigitsNoZ(ZeroPad(m, 2));
    DigitsNoZ(ZeroPad(sec, 2));
  }

  lemma {:induction false} ReplaceZAppend(a: string, b: string)
    ensures ReplaceZ(a + b) == ReplaceZ(a) + ReplaceZ(b)
    decreases |a|
  {
    if |a| > 0 {
      var h := if a[0] == 'Z' then "+00:00" else [a[0]];
      assert (a + b)[0] == a[0];
      assert (a + b)[1..] == a[1..] + b;
      assert ReplaceZ(a + b) == h + ReplaceZ(a[1..] + b);
      ReplaceZAppend(a[1..], b);
      assert ReplaceZ(a) == h + ReplaceZ(a[1..]);
    } else {
      assert a + b == b;
    }
  }

  /**
   * A `YYYY-MM-DD` date followed by "T00:00:00", as the subject line and
   * the header write it, shows as the day alone.
   */
  lemma FormatMidnight(start: string)
    requires |start| == 10 && ParseDate(start).Some?
    ensures FormatDate(start + "T00:00:00") == FrenchDay(ParseDate(start).value)
  {
    var u := start + "T00:00:00";
    DateStringNoZ(start);
    ReplaceZAppend(start, "T00:00:00");
    assert ReplaceZ(u) == u;
    ParseMidnight(start);
  }

  /** A `YYYY-MM-DD` date that parses contains no `Z`. */
  lemma DateStringNoZ(start: string)
    requires |start| == 10 && ParseDate(start).Some?
    ensures 'Z' !in start
  {
    forall i | 0 <= i < |start|
      ensures start[i] != 'Z'
    {
      if i < 4 {
        assert start[i] == start[..4][i];
      } else if 4 < i < 7 {
        assert start[i] == start[5..7][i - 5];
      } else if 7 < i {
        assert start[i] == start[8..][i - 8];
      }
    }
  }

  /** A `YYYY-MM-DD` date followed by "T00:00:00" parses as that date at midnight. */
  lemma ParseMidnight(start: string)
    requires |start| == 10 && ParseDate(start).Some?
    ensures ParseIso(start + "T00:00:00") == Some(DateTime(ParseDate(start).value, 0, 0, 0))
  {
    assert ZeroPad(0, 2) == "00";
    assert IsoClock(0, 0, 0) == "00:00:00";
    ParseIsoClock(0, 0, 0);
    ParseIsoJoin(start, "00:00:00", DateTime(ParseDate(start).value, 0, 0, 0));
    assert start + "T" + "00:00:00" == start + "T00:00:00";
  }

  // ---------------------------------------------------------------------
  // Worked examples
  // ---------------------------------------------------------------------

  lemma IsoDateExample()
    ensures IsoDate(Date(2024, 3, 15)) == "2024-03-15"
  {
    assert ZeroPad(2024, 4) == "2024";
    assert ZeroPad(3, 2) == "03";
    assert ZeroPad(15, 2) == "15";
  }

  lemma IsoClockExample()
    ensures IsoClock(14, 30, 0) == "14:30:00"
  {
    assert ZeroPad(14, 2) == "14";
    assert ZeroPad(30, 2) == "30";
    assert ZeroPad(0, 2) == "00";
  }

  lemma FrenchDayExample()
    ensures FrenchDay(Date(2024, 3, 15)) == "15 mars 2024"
  {
    assert Decimal(15) == "15";
    assert Decimal(2024) == "2024";
  }

  lemma FrenchTimeExample()
    ensures FrenchTime(14, 30) == " à 14h30"
    ensures FrenchTime(0, 0) == ""
  {
    assert ZeroPad(14, 2) == "14";
    assert ZeroPad(30, 2) == "30";
  }

  lemma FrenchExample()
    ensures French(DateTime(Date(2024, 3, 15), 14, 30, 0)) == "15 mars 2024 à 14h30"
    ensures French(DateTime(Date(2024, 3, 15), 0, 0, 45)) == "15 mars 2024"
  {
    FrenchDayExample();
    FrenchTimeExample();
  }

  lemma IsoDateTimeExample()
    ensures IsoDateTime(DateTime(Date(2024, 3, 15), 14, 30, 0)) == "2024-03-15T14:30:00"
  {
    IsoDateExample();
    IsoClockExample();
  }

  /** "2024-03-15T14:30:00" shows as "15 mars 2024 à 14h30". */
  lemma FormatDateExample()
    ensures FormatDate("2024-03-15T14:30:00") == "15 mars 2024 à 14h30"
  {
    var dt := DateTime(Date(2024, 3, 15), 14, 30, 0);
    IsoDateTimeExample();
    FrenchExample();
    FormatIsoDateTime(dt);
  }

  /** So does the same timestamp marked UTC with a trailing "Z". */
  lemma FormatDateUtcExample()
    ensures FormatDate("2024-03-15T14:30:00Z") == "15 mars 2024 à 14h30"
  {
    var dt := DateTime(Date(2024, 3, 15), 14, 30, 0);
    assert ValidDateTime(dt);
    IsoDateTimeExample();
    assert "2024-03-15T14:30:00Z" == IsoDateTime(dt) + "Z";
    FormatIsoDateTime(dt);
    FrenchExample();
  }

  /** Text that is not a timestamp comes back as it is. */
  lemma FormatDateUnparsedExample()
    ensures FormatDate("not-a-date") == "not-a-date"
  {
  }
}
