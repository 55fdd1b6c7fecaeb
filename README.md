# Launch schedule to Google Calendar: a verified model of the schedule reader

The script `launch_schedule_to_google_calendar.py` reads a public launch
schedule page and copies every launch to a Google Calendar. This project
models two parts of it and proves properties about them.

- **The schedule reader** is the body of `get_launch_schedule`, after the
  page has been fetched and parsed. Each `div.datename` block is given as
  the texts the BeautifulSoup traversal finds for it:
  - the text of its `span.launchdate`;
  - the text node after that span;
  - the text of the `div.mission` that follows;
  - the text of the `div.location` after that.

  The model follows the code step by step:
  - It strips the date text and drops a leading "NET" qualifier.
  - It reads the date with `%B %d, %Y`, or else with `%B %d` in the current
    year.
  - It reads the time with `%H:%M %Z`. A missing or blank time means
    "00:00 UTC"; an unreadable one means midnight, with a warning.
  - It gives up on the block when the mission or location element is
    missing.
  - Otherwise it appends one `{datetime, mission, location}` record.

  Two consequences of the code hold in the model:
  - A mission or location element whose text is blank still gives a
    record, with an empty title or location (lines 56 and 63).
  - A block whose time cannot be read and whose mission element is missing
    logs two warnings, the time warning first (lines 48-59).

  The loop (`Schedule.GetLaunchSchedule`) is an imperative method. It is
  proved equal to a functional specification (`Launches`, `Diagnostics`
  over `Outcomes`), and the order and one-record-per-block properties are
  proved about that specification.
- **`add_event`'s event body** (`Events.BuildEvent`):
  - title, location and description;
  - start at the launch time and end one hour later, both as ISO 8601 text
    with a `Z` suffix and zone "UTC";
  - two reminders, an e-mail one day ahead and a pop-up ten minutes ahead.

The `strptime` formats are modelled as the regular expressions Python's
`_strptime` module builds for them:
- matching is case-insensitive and consumes the whole string;
- a blank in the format matches one or more whitespace characters;
- `%d` and `%H`/`%M` take one or two digits, `%Y` exactly four;
- `%B` takes the English month names.

Then come the checks `datetime` makes on the result. A yearless date is
checked against the default year 1900 before `replace(year=...)`, so
"February 29" is never read. `%Z` accepts the names a host whose local zone
is UTC accepts ("UTC", "GMT", in any case), and the zone read is discarded.

Modules:
- `Wrappers`: `Option`, `Result`.
- `Text`: `str.strip()`, `\s`, digits, zero-padded numbers.
- `Calendar`: dates, `datetime.combine`, `+ timedelta(hours=1)`, `isoformat()`.
- `DateParsing`: the date clean-up and the three `strptime` formats.
- `Schedule`: one block, and the loop.
- `Events`: the event body.
- `Listings`: blocks written the way the page writes them, followed end to end.

## Model

| member | source | states |
|---|---|---|
| Text.Strip | launch_schedule_to_google_calendar.py:26 | `str.strip()`: the result is a slice of the input with no whitespace at either end, and only whitespace is cut off on either side |
| Text.TrimEnd | launch_schedule_to_google_calendar.py:28 | `re.sub(r'\s+$', '', s)`: the result is a prefix of the input that does not end with whitespace, and only whitespace is cut off |
| Text.SpaceClass | launch_schedule_to_google_calendar.py:26-28 | blank, tab, line feed and carriage return are whitespace, and no whitespace character is a digit, an ASCII letter, a comma or a colon |
| Text.StripIdempotent | launch_schedule_to_google_calendar.py:26-28 | stripping an already stripped text changes nothing |
| Text.StripAllSpace | launch_schedule_to_google_calendar.py:43-46 | a text made only of whitespace strips to the empty string, which the code replaces by the default time |
| Text.Pad2 | launch_schedule_to_google_calendar.py:107 | two-digit zero padding as `isoformat()` writes months, days, hours and minutes: two digits whose value is the number |
| Text.Pad4 | launch_schedule_to_google_calendar.py:107 | four-digit zero padding of the year in `isoformat()`: four digits whose value is the number |
| Text.DigitsValueAppend | launch_schedule_to_google_calendar.py:31 | the value of a digit string is the value of its front shifted by its back's length plus the back's value, which the year and time readers rely on |
| Text.DigitsValueShort | launch_schedule_to_google_calendar.py:31 | a field of one or two digits has the value it is written as, and a leading zero adds nothing |
| Text.LeadingZeroIgnored | launch_schedule_to_google_calendar.py:31 | leading zeros never change the value of a digit string, so padded and unpadded fields read alike |
| Text.EqualsIgnoreCaseEquivalence | launch_schedule_to_google_calendar.py:31 | case-insensitive comparison is reflexive, symmetric and transitive, and matching texts have the same length |
| DateParsing.DropNet | launch_schedule_to_google_calendar.py:27 | `re.sub(r'^NET\s+', '', s)`: when the text starts with NET and whitespace, the result is the suffix after that whitespace run and does not start with whitespace; otherwise the text is unchanged |
| DateParsing.NormalizeDate | launch_schedule_to_google_calendar.py:26-28 | the cleaned date text neither starts nor ends with whitespace |
| DateParsing.TrailingSubstitutionIsNoop | launch_schedule_to_google_calendar.py:28 | the trailing-whitespace substitution never changes the text, because `strip()` has already removed that whitespace |
| DateParsing.NormalizeClean | launch_schedule_to_google_calendar.py:26-28 | a text with clean ends and no NET qualifier is left as it is |
| DateParsing.NetIgnored | launch_schedule_to_google_calendar.py:26-28 | "NET", any whitespace after it and any whitespace around the whole text are removed, leaving the bare date text |
| DateParsing.MonthPrefixUnique | launch_schedule_to_google_calendar.py:31 | at most one month name, compared without case, can start a text, so `%B` is unambiguous |
| DateParsing.MatchMonth | launch_schedule_to_google_calendar.py:31 | `%B` finds a month exactly when some month name starts the text, and the month it finds is one whose name starts the text |
| DateParsing.MatchMonthOfSpelling | launch_schedule_to_google_calendar.py:31 | a text that starts with a month name written in any case reads as that month |
| DateParsing.MonthNameCapitalised | launch_schedule_to_google_calendar.py:31 | the month names `%B` accepts are the English names with a capital and then lower-case letters |
| DateParsing.ScanDay | launch_schedule_to_google_calendar.py:31 | `\s+%d` reads a day from 1 to 31: a whitespace run, then one or two digits whose value is the day, and the text after them is the suffix left, which does not start with a digit |
| DateParsing.ScanMonthDay | launch_schedule_to_google_calendar.py:31 | `%B\s+%d` reads a month whose name, in any case, starts the text and a day from 1 to 31, and the day is what `\s+%d` reads right after that name; the suffix left does not start with a digit |
| DateParsing.ScanYear | launch_schedule_to_google_calendar.py:31 | `,\s+%Y` succeeds only on a comma, whitespace and exactly four digits ending the text, and the year is the value of those digits |
| DateParsing.ParseFullDate | launch_schedule_to_google_calendar.py:31 | a date read with `%B %d, %Y` is valid; its month and day are what `%B\s+%d` reads at the front, and its year is what `,\s+%Y` reads from the rest, the value of the last four digits |
| DateParsing.ParseMonthDay | launch_schedule_to_google_calendar.py:34-35 | a date read with `%B %d` is valid, lies in the current year, is never February 29, and its month and day are what `%B\s+%d` reads with nothing left over |
| DateParsing.ParseDate | launch_schedule_to_google_calendar.py:30-38 | any date the two formats read is a valid date |
| DateParsing.DateFormatsDisjoint | launch_schedule_to_google_calendar.py:30-38 | no text is read by both formats, and a date is read exactly when one of the two formats reads it |
| DateParsing.FullDateRoundTrip | launch_schedule_to_google_calendar.py:31 | every valid date written as "Month day, year" is read back as that same date, whatever the current year |
| DateParsing.FullDateReads | launch_schedule_to_google_calendar.py:31 | the full format alone reads "Month day, year" back as the date it was written from |
| DateParsing.DayOfDigits | launch_schedule_to_google_calendar.py:31 | any whitespace run followed by a day of one or two digits, zero-padded or not, reads as the value of those digits, leaving the rest untouched when it does not start with a digit |
| DateParsing.MonthDayOfDigits | launch_schedule_to_google_calendar.py:31 | a month name in any case, any whitespace run and a day of one or two digits read as that month and day, leaving the rest untouched |
| DateParsing.YearOfDigits | launch_schedule_to_google_calendar.py:31 | a comma, any whitespace run and four digits read as the year those digits spell |
| DateParsing.FullDateOfDigits | launch_schedule_to_google_calendar.py:31 | every spelling of `%B %d, %Y` (month name in any case, any whitespace runs, a one- or two-digit day) reads as the date it spells when that date exists, and is rejected otherwise |
| DateParsing.YearlessOfDigits | launch_schedule_to_google_calendar.py:30-35 | every spelling of `%B %d` reads as that day in the current year when the day exists in that month of 1900, and is rejected otherwise |
| DateParsing.MonthDayRoundTrip | launch_schedule_to_google_calendar.py:34-35 | "Month day" is read as that day in the current year exactly when the day exists in that month of 1900, and otherwise not at all |
| DateParsing.ParseMinuteZone | launch_schedule_to_google_calendar.py:49 | `%M\s+%Z` to the end of the text reads a minute from 0 to 59: the value of the one or two leading digits, followed by whitespace and an accepted zone name |
| DateParsing.ParseTime | launch_schedule_to_google_calendar.py:49 | a time read with `%H:%M %Z` is a valid hour and minute: the hour is the value of the one or two leading digits, a colon follows them, and the minute is what `%M\s+%Z` reads after the colon |
| DateParsing.DefaultTimeParses | launch_schedule_to_google_calendar.py:45-52 | "00:00 UTC" reads as midnight |
| DateParsing.MinuteZoneOfDigits | launch_schedule_to_google_calendar.py:49 | a minute of one or two digits up to 59, any whitespace run and an accepted zone name read as the value of those digits |
| DateParsing.TimeOfDigits | launch_schedule_to_google_calendar.py:49 | every spelling of `%H:%M %Z` (one- or two-digit hour and minute, zero-padded or not, any whitespace run, a zone name in any case) reads as that hour and minute |
| DateParsing.IsZoneName | launch_schedule_to_google_calendar.py:49 | an accepted zone name has three characters, and neither starts with a digit or whitespace nor ends with whitespace |
| DateParsing.TimeRoundTrip | launch_schedule_to_google_calendar.py:49 | "HH:MM zone", zero-padded, reads back as that hour and minute for every accepted zone name |
| DateParsing.ZoneIgnored | launch_schedule_to_google_calendar.py:48-68 | the zone name has no effect on the time read: any two accepted names give the same result |
| DateParsing.SpacedZoneIgnored | launch_schedule_to_google_calendar.py:49 | whether whitespace and a zone name end the text does not depend on which accepted name it is |
| DateParsing.MinuteZoneIgnored | launch_schedule_to_google_calendar.py:49 | the minute read before the zone does not depend on which accepted name follows it |
| Calendar.DaysInMonth | launch_schedule_to_google_calendar.py:31-35 | months have 28 to 31 days, and 29 exactly for February of a leap year |
| Calendar.LeapYearRule | launch_schedule_to_google_calendar.py:31-35 | the Gregorian leap-year rule: divisible by 4, centuries only when divisible by 400, so 1900 is not a leap year and 2000 and 2024 are |
| Calendar.ValidDateBounds | launch_schedule_to_google_calendar.py:31-35 | a valid date has a day from 1 to 31, at most 30 in April, June, September and November, and is February 29 only in a leap year |
| Calendar.Combine | launch_schedule_to_google_calendar.py:68 | `datetime.combine` keeps the date's year, month and day and the time's hour and minute, and gives a valid value |
| Calendar.DayOrdinalMonotone | launch_schedule_to_google_calendar.py:111 | the day numbering used to state `timedelta` arithmetic follows calendar order |
| Calendar.DayOrdinalInjective | launch_schedule_to_google_calendar.py:111 | no two valid dates share a day number |
| Calendar.MinuteOrdinalInjective | launch_schedule_to_google_calendar.py:111 | no two valid date-times share a minute number |
| Calendar.NextDay | launch_schedule_to_google_calendar.py:111 | the next day is valid and one day number later, and only the last representable date has none |
| Calendar.AddHour | launch_schedule_to_google_calendar.py:111 | adding an hour gives a valid value sixty minutes later, and fails exactly in the last hour of 9999-12-31 |
| Calendar.AddHourUnique | launch_schedule_to_google_calendar.py:111 | any valid value sixty minutes later is the one `AddHour` gives |
| Calendar.IsoFormat | launch_schedule_to_google_calendar.py:107 | `isoformat()` of a value without seconds is 19 characters long |
| Calendar.ParseIsoUtc | launch_schedule_to_google_calendar.py:106-113 | any value read back from an ISO text ending in Z is a valid date-time |
| Calendar.IsoRoundTrip | launch_schedule_to_google_calendar.py:106-113 | `isoformat() + 'Z'` reads back as the value it was written from, so the text identifies the moment exactly |
| Schedule.TimeString | launch_schedule_to_google_calendar.py:40-47 | the time text handed to `strptime` is never empty: it is the stripped text after the date span when that is not blank, and "00:00 UTC" when the text is missing or blank |
| Schedule.Read | launch_schedule_to_google_calendar.py:26-52 | whatever date and time a block's texts yield are valid |
| Schedule.Resolve | launch_schedule_to_google_calendar.py:30-74 | a record, when there is one, holds a valid date and time; a block that yields no record logs at least one warning; one pass logs at most two warnings |
| Schedule.ResolveBlock | launch_schedule_to_google_calendar.py:25-74 | one pass of the loop body yields, if anything, a record with a valid date and time |
| Schedule.RecordIffDateMissionLocation | launch_schedule_to_google_calendar.py:30-74 | a block yields a record exactly when its date was read and both its mission and location elements exist; the time never decides it |
| Schedule.RecordContents | launch_schedule_to_google_calendar.py:48-74 | the record holds the date read, the time read or midnight, and the stripped mission and location texts; its only warning is for an unread time |
| Schedule.BlankTimeIsMidnight | launch_schedule_to_google_calendar.py:40-47 | a missing or blank time text reads as midnight, with no warning |
| Schedule.UnreadableTimeIsMidnight | launch_schedule_to_google_calendar.py:40-53 | a time text that is not blank but does not read is kept as its stripped form and left unread; a block whose date is read then logs that text first, and with a mission and location yields a record at midnight with that one warning |
| Schedule.ReadTimeIsUsed | launch_schedule_to_google_calendar.py:42-52 | a time text that reads after stripping is the time used |
| Schedule.UnreadableDateSkips | launch_schedule_to_google_calendar.py:36-38 | an unread date drops the block with one warning naming the cleaned date text |
| Schedule.MissingElementSkips | launch_schedule_to_google_calendar.py:54-66 | a missing mission or location drops the block with one or two warnings: the time warning when the time was unread, then the one for the missing element |
| Schedule.NetQualifierIgnored | launch_schedule_to_google_calendar.py:26-28 | a block whose date text carries "NET" and surrounding whitespace resolves exactly as the bare date text does |
| Schedule.Outcomes | launch_schedule_to_google_calendar.py:25 | there is one resolution per block |
| Schedule.Launches | launch_schedule_to_google_calendar.py:70-76 | the loop never appends more records than it sees blocks |
| Schedule.Diagnostics | launch_schedule_to_google_calendar.py:37-65 | every warning logged by any block appears in the log the loop produces |
| Schedule.OriginsExactly | launch_schedule_to_google_calendar.py:25-76 | the record-yielding positions are listed in increasing order, each exactly once, and no other position is listed |
| Schedule.LaunchesFollowOrigins | launch_schedule_to_google_calendar.py:70-76 | the k-th appended record is the record of the k-th block that yields one |
| Schedule.LaunchesAppend | launch_schedule_to_google_calendar.py:25-76 | the records for two runs of blocks are the two lists joined |
| Schedule.DiagnosticsAppend | launch_schedule_to_google_calendar.py:30-66 | the warnings for two runs of blocks are the two logs joined |
| Schedule.OutcomesAppend | launch_schedule_to_google_calendar.py:25 | blocks are resolved independently of one another |
| Schedule.ScheduleFollowsBlocks | launch_schedule_to_google_calendar.py:25-76 | at most one record per block; records keep the order of their blocks; a block contributes exactly when it yields a record, and contributes that record; every record is valid |
| Schedule.PassStep | launch_schedule_to_google_calendar.py:70-74 | one more block extends the output by exactly its record and warnings |
| Schedule.ReadDate | launch_schedule_to_google_calendar.py:30-38 | trying the full format and falling back to the yearless one gives the date `ParseDate` describes |
| Schedule.ReadTime | launch_schedule_to_google_calendar.py:40-52 | the time text and the time read are those `TimeString` and `ParseTime` describe |
| Schedule.ResolveRead | launch_schedule_to_google_calendar.py:48-74 | once a date is read, the time fallback and the mission and location checks give the record and warnings `Resolve` describes |
| Schedule.ResolveNext | launch_schedule_to_google_calendar.py:26-74 | one pass of the loop body gives the record and warnings `ResolveBlock` describes |
| Schedule.GetLaunchSchedule | launch_schedule_to_google_calendar.py:23-76 | the loop returns exactly the records and warnings of the resolutions of the blocks, in order |
| Events.IsoUtc | launch_schedule_to_google_calendar.py:106-113 | `isoformat() + 'Z'` is 20 characters ending in Z and reads back as the launch time |
| Events.BuildEvent | launch_schedule_to_google_calendar.py:101-121 | the event fails exactly in the last hour of 9999-12-31; otherwise it carries the mission and location, the description "Space launch", a start that reads back as the launch time, an end that reads back as a valid value sixty minutes later, zone "UTC" on both, no default reminders, and reminders by e-mail 1440 minutes and pop-up 10 minutes ahead |
| Events.EventEndIsOneHourLater | launch_schedule_to_google_calendar.py:110-113 | the end text reads back as the one valid value exactly one hour after the launch |
| Events.StartDistinguishesLaunches | launch_schedule_to_google_calendar.py:106-109 | two events with the same start come from launches at the same moment |
| Listings.FullDateTextClean | launch_schedule_to_google_calendar.py:26-28 | a date written "Month day, year" has clean ends and no NET qualifier |
| Listings.MonthDayTextClean | launch_schedule_to_google_calendar.py:26-28 | a date written "Month day" has clean ends and no NET qualifier |
| Listings.ListedTimeClean | launch_schedule_to_google_calendar.py:43 | a time written "HH:MM zone" has clean ends |
| Listings.ListedDateRead | launch_schedule_to_google_calendar.py:26-31 | a date written "Month day, year" survives the clean-up and reads back as itself |
| Listings.ListedTimeRead | launch_schedule_to_google_calendar.py:40-49 | a time written " HH:MM zone" after the date span reads back as itself |
| Listings.ListedLaunchIsRecorded | launch_schedule_to_google_calendar.py:25-74 | a block listing "NET Month day, year" with a time, a mission and a location yields exactly one record at that date and time, with the stripped mission and location and no warning |
| Listings.YearlessListingRead | launch_schedule_to_google_calendar.py:26-35 | a block listing "Month day" reads in the current year when that day exists in 1900, and not otherwise |
| Listings.YearlessLeapDayIsSkipped | launch_schedule_to_google_calendar.py:34-38 | a block listing "February 29" is dropped with one warning, even when the current year is a leap year |

## Left out

- Fetching the page (lines 18-20) and parsing it with BeautifulSoup (line 21) are not modelled. Each block arrives as the texts the traversal finds (`Schedule.Block`).
- The crashes that traversal can cause are not modelled. These are a block without `span.launchdate` (line 26) and a next sibling of the date span that is an element rather than text (line 43). Both raise instead of logging.
- Line 40 looks the date span up again with `find_next`. The model takes it to be the span of line 26, which is the first one after the block's start, and takes the text node after it.
- `datetime.now()` (line 35) is not modelled. The current year is a parameter, `currentYear`, from 1 to 9999.
- Logging (lines 13, 37, 51, 58, 65, 98, 124) is not modelled as I/O. The warnings are returned in order as a `Warning` sequence.
- `%Z` is limited to what a host whose local zone is UTC accepts: "UTC" and "GMT" in any case. Other local zone names that `strptime` would accept on other hosts are not modelled.
- Digits and case folding are ASCII only. `strptime`'s regular expressions also accept other Unicode decimal digits and fold other letters.
- Seconds and microseconds are not modelled. The schedule never produces them, so `isoformat()` always writes ":00".
- Schedule.ResolveNext: the body of the `for` loop is a separate method, and each `continue` becomes a `return` of what the block contributed. The loop itself is `GetLaunchSchedule`.
- `authenticate_google` (lines 78-90) is not modelled. It performs OAuth and file I/O.
- `create_calendar` (lines 92-99) is not modelled. It is a single API call.
- The `events().insert` call in `add_event` (line 123) and its log line (124) are not modelled. `Events.BuildEvent` models the body handed to it.
- `main` (lines 126 onward) is not modelled. It sequences the calls above.
