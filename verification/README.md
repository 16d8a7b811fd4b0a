# Larzac events mailer — verified model of its core

`main.py` is a weekly batch script. It asks the events API of larzac.org for
the events of the coming week, from the next Wednesday to the Wednesday after
it. It turns each event into a record for an e-mail template: a decoded
title, a cleaned and shortened description, a French date, the link, and a
thumbnail as a `data:` URI. It compiles the page and sends it over SMTP.

This project models the deterministic core of that script in Dafny and proves
what it does:

- `calendar.dfy` (`Calendar`): Python's proleptic Gregorian `date`. Day
  ordinals start at 0001-01-01 = 1. Weekdays count Monday = 0. It also covers
  `date + timedelta`, which fails past 9999-12-31, and `%Y-%m-%d`.
- `window.dfy` (`ReportWindow`): `get_next_week_dates`, with "today" passed
  in.
- `text.dfy` (`TextCleaning`): `truncate_description` and
  `clean_html_entities`. That is tag removal as `re.sub(r'<[^>]+>', '', s)`,
  entity decoding as a parameter, whitespace collapse as
  `re.sub(r'\s+', ' ', s).strip()`, and truncation to 200 characters plus
  `"..."`.
- `dates.dfy` (`DateFormat`): `format_date`. It covers the `Z` rewrite, a
  subset of `datetime.fromisoformat`, the French month table, the midnight
  branch and two-digit hours and minutes.
- `events.dfy` (`Events`): the event loop of `render_mjml_template`, the
  resolution of the `image` field, `process_image` and
  `load_logo_base64_uri`. Downloading and decoding an image is a parameter.
  The model keeps only what the code does with the result: the MIME subtype
  rule and the `data:` URI.
- `smtp.dfy` (`Smtp`): the SMTP commands `send_email` issues for a port and
  a set of credentials. The `server` object is a class that records a
  transcript. The model ends the session at the first command the server
  refuses. For every command except EHLO, that is where `smtplib` raises;
  a refused EHLO is discussed under "Left out".
- `mailer.dfy` (`Mailer`): `send_email` as a whole. It builds the subject
  and header from the window, then the records, the page, and the session.
  Every failure ends in `False`.
- `common.dfy` (`Common`): `Option`, decimal rendering and parsing, ASCII
  lower case.

## Model

| member | source | states |
|---|---|---|
| `Common.Decimal` | main.py:159 | `f"{n}"` is a digit string without leading zero whose value is `n` |
| `Common.ZeroPad` | main.py:161 | `f"{n:0{w}d}"` is a digit string of length `max(w, digits of n)` whose value is `n` |
| `Common.Pad2Shape` | main.py:161 | every `n < 100` renders as exactly two digits under `:02d` |
| `Common.ParseFixed` | main.py:144 | a fixed-width field parses exactly when it has the width and only digits, to its value |
| `Common.ParseZeroPad` | main.py:70-71 | a zero-padded field reads back as the number written |
| `Common.AsciiLower` | main.py:212 | `str.lower()` keeps the length, lowers each letter, leaves no capital |
| `Calendar.DaysInMonth` | main.py:64-67 | every month has 28 to 31 days |
| `Calendar.DaysBeforeYearStep` | main.py:64-67 | the closed-form day count before a year grows by that year's length |
| `Calendar.ToOrdinal` | main.py:64-67 | `toordinal()` lies in 1..3652059 and inside the date's year |
| `Calendar.FromOrdinal` | main.py:64-67 | `fromordinal(n)` is a valid date whose ordinal is `n` |
| `Calendar.ToOrdinalInjective` | main.py:64-67 | distinct valid dates have distinct ordinals |
| `Calendar.SameOrdinalSameYear` | main.py:64-67 | dates with one ordinal lie in one year |
| `Calendar.SameOrdinalSameMonth` | main.py:64-67 | dates of one year with one ordinal lie in one month |
| `Calendar.FromToOrdinal` | main.py:64-67 | `fromordinal(toordinal(d)) == d` |
| `Calendar.Weekday` | main.py:60 | `weekday()` is in 0..6 |
| `Calendar.WeekdayAnchors` | main.py:60 | 1 January of year 1 is a Monday (0) and 13 March 2024 a Wednesday (2), as in Python |
| `Calendar.SameMonthOrdinals` | main.py:64 | two days of one month are as many ordinals apart as their day numbers |
| `Calendar.MondayBeforeAnchor` | main.py:60 | 11 March 2024 is a Monday |
| `Calendar.AddDays` | main.py:64 | `date + timedelta(days=k)` exists exactly when the shifted ordinal is in range, and has that ordinal |
| `Calendar.IsoDate` | main.py:70-71 | `%Y-%m-%d` is 10 characters with dashes at 4 and 7, and its fields read back as year, month, day |
| `ReportWindow.WeekdayAfter` | main.py:60 | the weekday `k` days on is in 0..6 |
| `ReportWindow.WeekdayShift` | main.py:60-64 | moving `k` days moves the weekday by `k` modulo 7 |
| `ReportWindow.DaysUntilNextWednesday` | main.py:60-62 | the offset is 1..7, lands on Wednesday and skips no earlier Wednesday |
| `ReportWindow.NextWeekWindow` | main.py:64-67 | both bounds are valid dates |
| `ReportWindow.NextWeekDates` | main.py:57-73 | the two strings exist exactly when the window does; they are 10 characters each and parse back as the window's first and second Wednesday |
| `ReportWindow.NextWeekWindowOrdinals` | main.py:64-67 | start = today + offset, end = start + 7; missing exactly when past 9999-12-31 |
| `ReportWindow.NoWednesdayBefore` | main.py:60-62 | no day between today and the next Wednesday is a Wednesday |
| `ReportWindow.NextWeekWindowIsNextWednesday` | main.py:60-67 | the start is 1 to 7 days after today, never today, a Wednesday with none before it; the end is 7 days later, also a Wednesday |
| `ReportWindow.NextWeekWindowAt` | main.py:64-67 | a window is determined by the ordinals of its two ends |
| `ReportWindow.NextWeekWindowExample` | main.py:57-73 | from Monday 11 March 2024 the window is 13 to 20 March |
| `ReportWindow.NextWeekWindowFromWednesday` | main.py:57-73 | from Wednesday 13 March 2024 the window is 20 to 27 March, not starting that day |
| `TextCleaning.FirstClose` | main.py:122 | the index of the first `>`, with none before it |
| `TextCleaning.TagAt` | main.py:122 | a match of `<[^>]+>` at the start is a tag; when none is found no prefix is a tag |
| `TextCleaning.StripTags` | main.py:122 | removal never lengthens the text or adds characters |
| `TextCleaning.NoTagStartIffNoTag` | main.py:122 | "no match starts anywhere" is the same as "no substring is a tag" |
| `TextCleaning.NoTagStartNoTag` | main.py:122 | where no match starts, no substring is a tag |
| `TextCleaning.TagStartContainsTag` | main.py:122 | a match starting somewhere is a tag inside the text |
| `TextCleaning.StripTagsNoTagStart` | main.py:122 | no tag is left, even where removals join text |
| `TextCleaning.StripTagsIdentity` | main.py:122 | text without tags is unchanged |
| `TextCleaning.StripTagsSpec` | main.py:122 | no tag is left, and removing twice is the same as once |
| `TextCleaning.FirstCloseAfter` | main.py:122 | the first `>` after a `>`-free prefix is found past that prefix |
| `TextCleaning.StripTagsLeadingTag` | main.py:122 | a leading tag is removed whole, whatever follows |
| `TextCleaning.StripTagsPlainPrefix` | main.py:122 | text without `<` passes through, whatever follows |
| `TextCleaning.StripTagsEnclosed` | main.py:122 | only the plain text between two tags remains |
| `TextCleaning.StripTagsMarkupExample` | main.py:122 | `"<b>bold</b>"` becomes `"bold"` |
| `TextCleaning.StripTagsEmptyBracketsExample` | main.py:122 | `"<>"` is left as it is |
| `TextCleaning.StripTagsUnterminatedExample` | main.py:122 | `"<abc"` is left as it is |
| `TextCleaning.DropLeadingSpaces` | main.py:126 | `lstrip()` returns a suffix not starting with whitespace, having dropped only whitespace |
| `TextCleaning.DropTrailingSpaces` | main.py:126 | `rstrip()` returns a prefix not ending with whitespace, having dropped only whitespace |
| `TextCleaning.Strip` | main.py:126 | `strip()` cuts a contiguous piece out of the input, removing only whitespace before and after it, and leaves no whitespace at either end |
| `TextCleaning.CollapseRuns` | main.py:126 | `re.sub(r'\s+', ' ', s)` is empty only for empty input, starts with whitespace exactly when the input does, leaves only single plain spaces, and keeps the other characters in order |
| `TextCleaning.DropLeadingConcat` | main.py:126 | `lstrip()` of a concatenation keeps the second part whole once the first has a non-whitespace character |
| `TextCleaning.AllSpacesCollapse` | main.py:126 | a non-empty run of whitespace becomes exactly one plain space |
| `TextCleaning.CollapseRunsConcat` | main.py:126 | cut anywhere except inside a whitespace run, the pieces are substituted independently: each run becomes one space in place and other characters stay put |
| `TextCleaning.CollapseWhitespaceWords` | main.py:126 | two words with any run of whitespace between them come out joined by exactly one space |
| `TextCleaning.NonSpaceConcat` | main.py:126 | the non-whitespace characters of a concatenation are those of its parts |
| `TextCleaning.NonSpaceAllSpaces` | main.py:126 | all-whitespace text has no non-whitespace characters |
| `TextCleaning.DropLeadingKeepsContent` | main.py:126 | `lstrip()` keeps every non-whitespace character |
| `TextCleaning.DropTrailingKeepsContent` | main.py:126 | `rstrip()` keeps every non-whitespace character |
| `TextCleaning.SpacesCollapsedSlice` | main.py:126 | any slice of collapsed text is collapsed |
| `TextCleaning.CollapseWhitespace` | main.py:126 | the result has no whitespace at its ends, no two together, only plain spaces, and the same non-whitespace characters in order |
| `TextCleaning.CollapseRunsIdentity` | main.py:126 | collapsed text is left unchanged by the substitution |
| `TextCleaning.CollapseWhitespaceIdempotent` | main.py:126 | collapsing twice is the same as once |
| `TextCleaning.CleanedText` | main.py:122-126 | tags removed, entities decoded, whitespace collapsed: normalised text with the non-whitespace characters of the decoded tag-free text |
| `TextCleaning.Truncate` | main.py:128-129 | up to the limit the text is unchanged; beyond it, its first `max` characters plus `"..."`, exactly `max + 3` long |
| `TextCleaning.TruncateIdempotent` | main.py:128-129 | truncating a truncated text changes nothing |
| `TextCleaning.TruncateDescription` | main.py:118-119 | an empty or `None` description yields the placeholder |
| `TextCleaning.TruncateDescriptionSpec` | main.py:118-131 | the placeholder for a missing or empty description; otherwise the cleaned text, or its first `max` characters plus `"..."` |
| `TextCleaning.PlaceholderNormalized` | main.py:119 | the placeholder has no stray whitespace |
| `TextCleaning.TruncateKeepsNormalized` | main.py:128-129 | cutting normalised text and adding `"..."` keeps it normalised |
| `TextCleaning.TruncateDescriptionNormalized` | main.py:118-131 | every result is normalised; a given description yields at most `max + 3` characters |
| `TextCleaning.MarkupOnlyDescription` | main.py:118-131 | `"<p></p>"` yields `""`, not the placeholder |
| `TextCleaning.CleanHtmlEntities` | main.py:176-178 | empty or `None` gives `""`; anything else is decoded |
| `DateFormat.ReplaceZ` | main.py:144 | after `replace('Z', '+00:00')` no `Z` is left; text without `Z` is unchanged |
| `DateFormat.ReplaceZAppend` | main.py:144 | the replacement works piece by piece |
| `DateFormat.ParseDate` | main.py:144 | a parsed `YYYY-MM-DD` is a valid date |
| `DateFormat.ParseTime` | main.py:144 | a parsed `HH:MM[:SS]` is a valid clock time |
| `DateFormat.ParseIso` | main.py:144 | a parsed timestamp is a valid date and time |
| `DateFormat.ParseIsoDate` | main.py:144 | `%Y-%m-%d` of a date parses back to that date |
| `DateFormat.IsoClock` | main.py:144 | `HH:MM:SS` has its colons at 2 and 5, and its fields read back |
| `DateFormat.ParseIsoClock` | main.py:144 | `HH:MM:SS` parses back to the clock time written |
| `DateFormat.IsoDateTime` | main.py:144 | the ISO form of a timestamp is 19 characters |
| `DateFormat.ParseIsoJoin` | main.py:144 | a date, `T` and a time parse as that timestamp |
| `DateFormat.ParseIsoJoinUtc` | main.py:144 | the same with `+00:00` after it |
| `DateFormat.ParseIsoDateTime` | main.py:144 | the ISO form of any timestamp parses back to it |
| `DateFormat.MonthName` | main.py:146-150 | every month of the table has a name of letters, without spaces or digits |
| `DateFormat.MonthNumber` | main.py:146-150 | a name found in the table is the name of the month returned |
| `DateFormat.MonthNumberName` | main.py:146-150 | every month's name reads back as that month |
| `DateFormat.FrenchDay` | main.py:152-159 | `f"{day} {month} {year}"`: one or two day digits, a space, the month's name, a space, one to four year digits; day, month and year read back |
| `DateFormat.FrenchDayFieldWidths` | main.py:159 | the widths of the day and year fields can be read off the rendering |
| `DateFormat.ReadFrenchDayRoundTrip` | main.py:159 | reading a day rendering back gives the date rendered |
| `DateFormat.FrenchDayInjective` | main.py:159 | distinct dates are rendered differently |
| `DateFormat.FrenchTime` | main.py:155-161 | nothing exactly at midnight (hour and minute zero); otherwise `" à HHhMM"`, 8 characters, whose fields read back as hour and minute |
| `DateFormat.French` | main.py:152-161 | the day rendering, then the time suffix; the day alone exactly at midnight (hour and minute zero) |
| `DateFormat.FrenchIgnoresSeconds` | main.py:155-161 | seconds never change the rendering |
| `DateFormat.DigitsNoZ` | main.py:159-161 | digit strings contain no `Z` |
| `DateFormat.FormatDate` | main.py:143-164 | the input comes back unchanged exactly when it does not parse; otherwise it is the French rendering of the parsed timestamp |
| `DateFormat.RenderingDiffersFromInput` | main.py:143-161 | a rendering never equals the text it was parsed from |
| `DateFormat.ReplaceZDigitPrefix` | main.py:144 | where the rewritten text starts with digits, the original has the same characters |
| `DateFormat.ParsedStartsWithYear` | main.py:144 | whatever parses starts with four digits |
| `DateFormat.FormatIsoDateTime` | main.py:143-161 | the ISO form of a timestamp, with or without a trailing `Z`, shows as its French rendering |
| `DateFormat.NoZInIsoDateTime` | main.py:144 | the ISO form of a timestamp has no `Z` |
| `DateFormat.NoZInIsoDate` | main.py:144 | `%Y-%m-%d` has no `Z` |
| `DateFormat.NoZInIsoClock` | main.py:144 | `HH:MM:SS` has no `Z` |
| `DateFormat.FormatMidnight` | main.py:158-159 | any parsable `YYYY-MM-DD` date plus `T00:00:00` shows as the day alone |
| `DateFormat.DateStringNoZ` | main.py:144 | a parsable `YYYY-MM-DD` date has no `Z` |
| `DateFormat.ParseMidnight` | main.py:144 | a parsable `YYYY-MM-DD` date plus `T00:00:00` parses as that date at midnight |
| `DateFormat.IsoDateExample` | main.py:70-71 | 15 March 2024 is written `"2024-03-15"` |
| `DateFormat.IsoClockExample` | main.py:144 | 14:30:00 is written `"14:30:00"` |
| `DateFormat.FrenchDayExample` | main.py:152-159 | 15 March 2024 shows as `"15 mars 2024"` |
| `DateFormat.FrenchTimeExample` | main.py:155-161 | 14:30 adds `" à 14h30"`, midnight adds nothing |
| `DateFormat.FrenchExample` | main.py:152-161 | 15 March 2024 at 14:30 shows as `"15 mars 2024 à 14h30"`, and at 00:00:45 as `"15 mars 2024"` |
| `DateFormat.IsoDateTimeExample` | main.py:144 | that timestamp is written `"2024-03-15T14:30:00"` |
| `DateFormat.FormatDateExample` | main.py:143-161 | `"2024-03-15T14:30:00"` shows as `"15 mars 2024 à 14h30"` |
| `DateFormat.FormatDateUtcExample` | main.py:143-161 | so does `"2024-03-15T14:30:00Z"` |
| `DateFormat.FormatDateUnparsedExample` | main.py:163-164 | `"not-a-date"` comes back as it is |
| `Events.Get` | main.py:229-232 | `dict.get(key, default)`: the default when missing, `None` for null, else the value |
| `Events.MimeSubtype` | main.py:212-214 | the subtype is never `"jpeg"` |
| `Events.MimeSubtypeSpec` | main.py:352-354 | any spelling of JPEG gives `"jpg"`; another format is lower-cased; with none the fallback is used; no capitals come out of a lower-case fallback |
| `Events.MimeSubtypeIdempotent` | main.py:212-214 | normalising a normalised subtype changes nothing |
| `Events.AsciiLowerIdentity` | main.py:212 | lowering text without capitals changes nothing |
| `Events.DataUri` | main.py:216 | the URI starts with `data:image/`, names the subtype and ends with the payload |
| `Events.ProcessImage` | main.py:190-220 | `""` exactly when fetching or decoding fails, else the data URI of the picture |
| `Events.ProcessImageNoFormat` | main.py:212-216 | an image without a reported format is labelled `jpg` |
| `Events.LogoDataUri` | main.py:343-359 | `""` exactly when the logo cannot be read, else its data URI with fallback `png` |
| `Events.LogoNoFormat` | main.py:352-356 | a logo without a reported format is labelled `png` |
| `Events.JpegIsJpg` | main.py:352-356 | a logo reported as `JPEG` is labelled `jpg` |
| `Events.ImageUrl` | main.py:235-240 | a dict's `url` (or `""`), the `str()` of any other truthy value, `""` when missing or falsy |
| `Events.ImageData` | main.py:235-241 | non-empty exactly when a non-empty URL was fetched; then a data URI ending with the fetched payload |
| `Events.PrepareEvent` | main.py:229-249 | the record's `url` is the event's, and its date is `None` exactly for a null start date |
| `Events.PrepareEventTitle` | main.py:229 | the title is the decoded title, the decoded default when the key is missing, and `""` for `null` or empty |
| `Events.PrepareEventDescription` | main.py:230 | the description is the cleaned, truncated text when non-empty, the placeholder when missing, `null` or empty, and always normalized |
| `Events.PrepareEventDateAndImage` | main.py:231-249 | the date is the French form, `""` when missing; the image is `process_image` of the resolved URL when it is non-empty, else `""`, and non-empty exactly when that fetch succeeds |
| `Events.NoUrlNoDownload` | main.py:241 | without a non-empty image URL the image is `""` and nothing is fetched |
| `Events.PrepareEvents` | main.py:227-249 | one record per event, in order, each the event's record; downloads are the non-empty image URLs in order |
| `Events.DownloadsSpec` | main.py:236-241 | at most one download per event, never an empty URL, none exactly when no event has an image URL |
| `Events.DownloadsAppend` | main.py:228-241 | the downloads of two batches are those of each, in turn |
| `Smtp.HandshakePlan` | main.py:325-333 | at most five commands, never connect, send or quit |
| `Smtp.HandshakePlanSpec` | main.py:325-333 | STARTTLS exactly on 587 and 465; EHLO and debug only on 465; LOGIN exactly with both credentials, last and after STARTTLS; nothing otherwise |
| `Smtp.HandshakePlanPorts` | main.py:325-331 | the plans for ports 587 and 465 without login, written out |
| `Smtp.Issued` | main.py:324-334 | the issued commands are a prefix of the session |
| `Smtp.IssuedSpec` | main.py:324-334 | all commands when all are accepted; otherwise the commands stop at the first refused one |
| `Smtp.IssuedAt` | main.py:324-334 | the issued commands end at the first refused one |
| `Smtp.SmtpConnection.constructor` | main.py:324 | a new connection has sent nothing |
| `Smtp.SmtpConnection.Issue` | main.py:326-334 | one command is appended to the transcript; it succeeds when accepted |
| `Smtp.SmtpConnection.IssueAll` | main.py:325-334 | the transcript grows by the issued commands; success exactly when all are accepted |
| `Smtp.SmtpConnection.RunBlock` | main.py:324-334 | a refused connection sends nothing more; otherwise the rest up to the first refusal, then QUIT; success exactly when all and QUIT are accepted |
| `Smtp.SessionCommandsSplit` | main.py:324-334 | the session opens with the connection, then the plan, then the message |
| `Smtp.SessionTranscript` | main.py:324-334 | the transcript opens with the connection; it is that alone when the connection is refused, and ends with QUIT otherwise |
| `Smtp.AcceptedCons` | main.py:324-334 | a command list is accepted when its head and tail are; the issued commands follow the head |
| `Smtp.RunSession` | main.py:324-334 | connect, plan and message up to the first refusal, then QUIT unless the connection failed; success exactly when all and QUIT are accepted |
| `Smtp.SessionTranscriptAccepted` | main.py:324-334 | an accepted session sends connect, the plan, the message and QUIT |
| `Smtp.SessionDeliversMessage` | main.py:334 | a successful session has sent the message |
| `Smtp.SessionTranscriptRefused` | main.py:324-340 | a refused command is the last one issued, and no message is sent before it |
| `Mailer.Subject` | main.py:316 | for a parsable start date, the prefix followed by that day in French |
| `Mailer.HeaderSubtitle` | main.py:301 | for two parsable dates, `du` and `au` before each day in French |
| `Mailer.HeadingsName` | main.py:299-316 | with the strings of `get_next_week_dates`, the subject names the window's first Wednesday and the subtitle both Wednesdays, as day, French month and year |
| `Mailer.PreparedRecords` | main.py:227-249 | one record per event, each the event's record |
| `Mailer.RecordsArePrepared` | main.py:227-249 | records built one by one equal the prepared records |
| `Mailer.SendEmail` | main.py:297-340 | no window: `False`, nothing sent; no page: `False`, nothing sent; otherwise the session with the configured sender, the recipient, the subject and the page decides the result |

## Left out

- Fetching the events (`fetch_events`, main.py:75-105) is network I/O. The
  model takes the events as a list.
- `main` (main.py:362-392) reads the environment and `.env`, loads the logo
  file and prints. The model takes the configuration, the logo and the
  events as parameters.
- `datetime.now()` is the clock. `today` is a parameter.
- `print` diagnostics are not modelled.
- Image download, decoding, resizing (the float ratio at main.py:200-201)
  and base64 encoding are library and network calls. `process_image` takes
  a `fetch` function that fails or yields the reported format and the
  base64 text. The image library reports no format for a resized image, so
  in practice event images are labelled `jpg`. That is the library's
  behaviour; the model does not fix the format.
- `html.unescape` is the standard library's entity table. It is a
  parameter, `Unescaper`.
- Jinja2 rendering and the `mjml` subprocess with its temporary files are
  external tools. They are one parameter, `Compiler`, that yields the page
  or `None` on failure.
- MIME message assembly is reduced to sender, recipient, subject and HTML
  body.
- The bytes exchanged with the SMTP server are not modelled. Only the order
  of commands on the `server` object is, and whether the server accepts
  each one.
- `RunSession`: does not list the EHLO that `smtplib` sends on its own
  inside `starttls`, `login` and `send_message`. It also does not tell a
  refused QUIT from a connection dropped during QUIT: in both cases the
  model reports failure, while `smtplib` ignores a dropped connection.
- `Smtp.Accepted`: treats a refused EHLO (port 465) as ending the
  session. `smtplib`'s `ehlo()` returns a non-250 reply without raising;
  the session then fails at the STARTTLS that follows, which the model
  does not tie to the EHLO reply.
- `Events.Fetcher`: a function of the URL alone, so two events with the
  same image URL always get the same result. `process_image` sends a new
  request each time, and a server may answer them differently.
- `Smtp.SmtpConnection`: `accepts` is a fixed function of the command, so
  the server answers the same command the same way each time. The two
  EHLOs on port 465 always get the same answer, where a real server may
  answer them differently.
- `ParseIso`: accepts only `YYYY-MM-DD`, optionally followed by one
  separator character, `HH:MM` or `HH:MM:SS`, and a `±HH:MM` offset of
  less than a day (minutes above 59 included, as Python 3.11 checks only
  the total). Every other form Python 3.11 accepts counts as unparsable,
  so `FormatDate` returns it unchanged. Among them are hour-only times,
  times without colons, fractional seconds, the basic date format without
  dashes, week and ordinal dates, hour-only offsets (`+05`), offsets
  without a colon (`+0530`), and offsets with seconds or fractions.
- `AsciiLower`: lowers ASCII letters only, where `str.lower()` is full
  Unicode. Image format names are ASCII.
- `IsoDate`: writes years below 1000 with four digits. `strftime("%Y")`
  does not pad them on every platform.
- `Events.ImageUrl`: a truthy non-dict image is taken by its `str()` form,
  given as text. A dict whose `url` is not a string is not modelled.
- Event fields hold strings or null. Other JSON types in `title`,
  `description` or `start_date` are not modelled.
- A failing template or `mjml` run is not fatal to the script: it happens
  inside `send_email`'s `try`, so `send_email` returns `False`, and so does
  `Mailer.SendEmail`.
