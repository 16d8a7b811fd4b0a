/**
 * `LarzacEventsMailer.send_email`: the headings built from the report
 * window, the event records, the compiled page and the SMTP session,
 * with every failure ending in `False`.
 *
 * Template rendering and the `mjml` compiler are one parameter,
 * `compile`, that yields the HTML page or None when either fails.
 */
module Mailer {
  import opened Common
  import opened Calendar
  import opened ReportWindow
  import opened TextCleaning
  import opened DateFormat
  import opened Events
  import opened Smtp

  /** The settings `__init__` stores; the mailer never changes them. */
  datatype MailerConfig = MailerConfig(smtpServer: string, smtpPort: int, email: string, password: string)

  /** Logo URI, header title, header subtitle and records in; HTML page out, or None on failure. */
  type Compiler = (string, string, string, seq<TemplateEvent>) -> Option<string>

  const HeaderTitle := "Les événements à venir"
  const SubjectPrefix := "L'agenda de la brebis du "
  /** Appended to a `%Y-%m-%d` date so that `format_date` reads it as midnight. */
  const Midnight := "T00:00:00"

  /** The subject line: for a `YYYY-MM-DD` start date, the prefix and that day in French. */
  function Subject(start: string): (r: string)
    ensures |start| == 10 && ParseDate(start).Some? ==> r == SubjectPrefix + FrenchDay(ParseDate(start).value)
  {
    assert |start| == 10 && ParseDate(start).Some? ==> FormatDate(start + Midnight) == FrenchDay(ParseDate(start).value) by {
      if |start| == 10 && ParseDate(start).Some? {
        FormatMidnight(start);
      }
    }
    SubjectPrefix + FormatDate(start + Midnight)
  }

  /** The header subtitle: for two `YYYY-MM-DD` dates, "du" and "au" before each day in French. */
  function HeaderSubtitle(start: string, end: string): (r: string)
    ensures |start| == 10 && ParseDate(start).Some? && |end| == 10 && ParseDate(end).Some? ==>
      r == "du " + FrenchDay(ParseDate(start).value) + " au " + FrenchDay(ParseDate(end).value)
  {
    assert |start| == 10 && ParseDate(start).Some? && |end| == 10 && ParseDate(end).Some? ==>
      FormatDate(start + Midnight) == FrenchDay(ParseDate(start).value) &&
      FormatDate(end + Midnight) == FrenchDay(ParseDate(end).value) by {
      if |start| == 10 && ParseDate(start).Some? && |end| == 10 && ParseDate(end).Some? {
        FormatMidnight(start);
        FormatMidnight(end);
      }
    }
    "du " + FormatDate(start + Midnight) + " au " + FormatDate(end + Midnight)
  }

  /**
   * For every date that has a report window, the subject built from
   * `get_next_week_dates` names the window's first Wednesday and the
   * subtitle both Wednesdays, each as day, French month name and year with
   * no time of day.
   */
  lemma HeadingsName(today: Date)
    requires ValidDate(today) && NextWeekWindow(today).Some?
    ensures NextWeekDates(today).Some?
    ensures var w, dates := NextWeekWindow(today).value, NextWeekDates(today).value;
      && Subject(dates.0) == SubjectPrefix + FrenchDay(w.start)
      && HeaderSubtitle(dates.0, dates.1) == "du " + FrenchDay(w.start) + " au " + FrenchDay(w.end)
  {
  }

  /** The records the template receives, one per event, in order. */
  function PreparedRecords(events: seq<RawEvent>, unescape: Unescaper, fetch: Fetcher): (records: seq<TemplateEvent>)
    ensures |records| == |events|
    ensures forall j :: 0 <= j < |events| ==> records[j] == PrepareEvent(events[j], unescape, fetch)
  {
    seq(|events|, j requires 0 <= j < |events| => PrepareEvent(events[j], unescape, fetch))
  }

  lemma RecordsArePrepared(records: seq<TemplateEvent>, events: seq<RawEvent>, unescape: Unescaper, fetch: Fetcher)
    requires |records| == |events|
    requires forall j :: 0 <= j < |events| ==> records[j] == PrepareEvent(events[j], unescape, fetch)
    ensures records == PreparedRecords(events, unescape, fetch)
  {
  }

  /** The HTML page for the window `(start, end)`, or None when rendering or compiling fails. */
  function Page(compile: Compiler, logo: string, start: string, end: string,
                events: seq<RawEvent>, unescape: Unescaper, fetch: Fetcher): Option<string>
  {
    compile(logo, HeaderTitle, HeaderSubtitle(start, end), PreparedRecords(events, unescape, fetch))
  }

  /**
   * `send_email`. `today` stands for the clock, `fetch` for the image
   * downloads, `compile` for the template and `mjml`, and `conn` for the
   * SMTP connection the method opens. `downloads` lists the image URLs
   * fetched, in order.
   */
  method SendEmail(config: MailerConfig, recipient: string, events: seq<RawEvent>, logo: string, today: Date,
                   unescape: Unescaper, fetch: Fetcher, compile: Compiler, conn: SmtpConnection)
    returns (sent: bool, downloads: seq<string>)
    requires ValidDate(today)
    modifies conn
    ensures NextWeekDates(today).None? ==> !sent && downloads == [] && conn.transcript == old(conn.transcript)
    ensures NextWeekDates(today).Some? ==>
      var start, end := NextWeekDates(today).value.0, NextWeekDates(today).value.1;
      && downloads == Downloads(events)
      && (Page(compile, logo, start, end, events, unescape, fetch).None? ==>
            !sent && conn.transcript == old(conn.transcript))
      && (Page(compile, logo, start, end, events, unescape, fetch).Some? ==>
            var msg := Message(config.email, recipient, Subject(start), Page(compile, logo, start, end, events, unescape, fetch).value);
            && conn.transcript == old(conn.transcript)
                 + SessionTranscript(conn.accepts, config.smtpServer, config.smtpPort, config.email, config.password, msg)
            && sent == SessionSucceeds(conn.accepts, config.smtpServer, config.smtpPort, config.email, config.password, msg))
  {
    var window := NextWeekDates(today);
    if window.None? {
      // `today + timedelta(...)` raises OverflowError past 9999-12-31.
      return false, [];
    }
    var (start, end) := window.value;
    var subtitle := HeaderSubtitle(start, end);
    var records;
    records, downloads := PrepareEvents(events, unescape, fetch);
    RecordsArePrepared(records, events, unescape, fetch);
    var page := compile(logo, HeaderTitle, subtitle, records);
    assert page == Page(compile, logo, start, end, events, unescape, fetch);
    if page.None? {
      return false, downloads;
    }
    var msg := Message(config.email, recipient, Subject(start), page.value);
    sent := RunSession(conn, config.smtpServer, config.smtpPort, config.email, config.password, msg);
  }
}
