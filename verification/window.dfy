/**
 * The report window (`LarzacEventsMailer.get_next_week_dates`): the next
 * Wednesday strictly after "today", and the Wednesday one week later. The
 * clock is not read here: `today` is a parameter.
 */
module ReportWindow {
  import opened Common
  import opened Calendar
  import opened DateFormat

  /** Weekday index of Wednesday, with Monday = 0. */
  const Wednesday := 2

  /** The weekday `k` days after a day of weekday `w`. */
  function WeekdayAfter(w: int, k: int): (v: int)
    ensures 0 <= v < 7
  {
    (w + k) % 7
  }

  lemma WeekdayShift(t: int, k: int)
    ensures Weekday(t + k) == WeekdayAfter(Weekday(t), k)
  {
  }

  /** Days from a day of weekday `w` to the next Wednesday, never zero. */
  function DaysUntilNextWednesday(w: int): (delta: int)
    requires 0 <= w < 7
    ensures 1 <= delta <= 7
    ensures WeekdayAfter(w, delta) == Wednesday
    ensures forall k :: 1 <= k < delta ==> WeekdayAfter(w, k) != Wednesday
  {
    var d := (Wednesday - w + 7) % 7;
    if d == 0 then 7 else d
  }

  datatype Window = Window(start: Date, end: Date)

  /**
   * The window as dates. None where Python's date arithmetic raises
   * OverflowError, i.e. when the window would end after 9999-12-31.
   */
  function NextWeekWindow(today: Date): (r: Option<Window>)
    requires ValidDate(today)
    ensures r.Some? ==> ValidDate(r.value.start) && ValidDate(r.value.end)
  {
    var delta := DaysUntilNextWednesday(Weekday(ToOrdinal(today)));
    match AddDays(today, delta)
    case None => None
    case Some(start) =>
      match AddDays(start, 7)
      case None => None
      case Some(end) => Some(Window(start, end))
  }

  /**
   * `get_next_week_dates`: the two window bounds as `%Y-%m-%d` strings,
   * which read back as the window's first and second Wednesday.
   */
  function NextWeekDates(today: Date): (r: Option<(string, string)>)
    requires ValidDate(today)
    ensures r.Some? <==> NextWeekWindow(today).Some?
    ensures r.Some? ==>
      && |r.value.0| == 10 && |r.value.1| == 10
      && ParseDate(r.value.0) == Some(NextWeekWindow(today).value.start)
      && ParseDate(r.value.1) == Some(NextWeekWindow(today).value.end)
  {
    match NextWeekWindow(today)
    case None => None
    case Some(w) =>
      ParseIsoDate(w.start);
      ParseIsoDate(w.end);
      Some((IsoDate(w.start), IsoDate(w.end)))
  }

  /** The window in ordinals: `today + delta` and seven days more. */
  lemma NextWeekWindowOrdinals(today: Date)
    requires ValidDate(today)
    ensures var r := NextWeekWindow(today);
      var t := ToOrdinal(today);
      var delta := DaysUntilNextWednesday(Weekday(t));
      && (r.None? <==> t + delta + 7 > MaxOrdinal)
      && (r.Some? ==> ToOrdinal(r.value.start) == t + delta && ToOrdinal(r.value.end) == t + delta + 7)
  {
  }

  /** No day strictly between `t` and the next Wednesday is a Wednesday. */
  lemma NoWednesdayBefore(t: int)
    ensures forall n :: t < n < t + DaysUntilNextWednesday(Weekday(t)) ==> Weekday(n) != Wednesday
  {
    var delta := DaysUntilNextWednesday(Weekday(t));
    forall n | t < n < t + delta
      ensures Weekday(n) != Wednesday
    {
      WeekdayShift(t, n - t);
    }
  }

  /**
   * The window starts on the first Wednesday strictly after today (1 to 7
   * days later, never today) and ends exactly 7 days after it, also a
   * Wednesday; it is missing only when that end would pass the last
   * representable date.
   */
  lemma NextWeekWindowIsNextWednesday(today: Date)
    requires ValidDate(today)
    ensures var r := NextWeekWindow(today);
      var t := ToOrdinal(today);
      && (r.None? <==> t + DaysUntilNextWednesday(Weekday(t)) + 7 > MaxOrdinal)
      && (r.Some? ==>
            var s := ToOrdinal(r.value.start);
            && 1 <= s - t <= 7
            && Weekday(s) == Wednesday
            && ToOrdinal(r.value.end) == s + 7
            && Weekday(ToOrdinal(r.value.end)) == Wednesday
            && forall n :: t < n < s ==> Weekday(n) != Wednesday)
  {
    var t := ToOrdinal(today);
    var delta := DaysUntilNextWednesday(Weekday(t));
    NextWeekWindowOrdinals(today);
    var r := NextWeekWindow(today);
    if r.Some? {
      var s, e := ToOrdinal(r.value.start), ToOrdinal(r.value.end);
      assert s == t + delta && e == s + 7;
      WeekdayShift(t, delta);
      WeekdayShift(s, 7);
      NoWednesdayBefore(t);
    }
  }

  /** A window is pinned down by the ordinals of its two ends. */
  lemma NextWeekWindowAt(today: Date, start: Date, end: Date)
    requires ValidDate(today) && ValidDate(start) && ValidDate(end)
    requires ToOrdinal(start) == ToOrdinal(today) + DaysUntilNextWednesday(Weekday(ToOrdinal(today)))
    requires ToOrdinal(end) == ToOrdinal(start) + 7
    ensures NextWeekWindow(today) == Some(Window(start, end))
  {
    NextWeekWindowOrdinals(today);
    var w := NextWeekWindow(today).value;
    ToOrdinalInjective(w.start, start);
    ToOrdinalInjective(w.end, end);
  }

  /** From Monday 11 March 2024 the window runs from Wednesday 13 to Wednesday 20 March. */
  lemma NextWeekWindowExample()
    ensures NextWeekWindow(Date(2024, 3, 11)) == Some(Window(Date(2024, 3, 13), Date(2024, 3, 20)))
  {
    var mon, wed := Date(2024, 3, 11), Date(2024, 3, 13);
    MondayBeforeAnchor();
    SameMonthOrdinals(mon, 2);
    SameMonthOrdinals(wed, 7);
    assert DaysUntilNextWednesday(0) == 2;
    NextWeekWindowAt(mon, wed, Date(2024, 3, 20));
  }

  /** From Wednesday 13 March 2024 itself the window is the week after: 20 to 27 March. */
  lemma NextWeekWindowFromWednesday()
    ensures NextWeekWindow(Date(2024, 3, 13)) == Some(Window(Date(2024, 3, 20), Date(2024, 3, 27)))
  {
    var wed, next := Date(2024, 3, 13), Date(2024, 3, 20);
    WeekdayAnchors();
    SameMonthOrdinals(wed, 7);
    SameMonthOrdinals(next, 7);
    NextWeekWindowAt(wed, next, Date(2024, 3, 27));
  }
}
