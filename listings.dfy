/**
 * Blocks written the way the schedule page writes its listings, followed
 * from the raw texts to the record and the warnings they produce.
 */
module Listings {
  import opened Wrappers
  import opened Text
  import opened Calendar
  import opened DateParsing
  import opened Schedule

  /** The time text a listing shows after its date, e.g. "14:30 UTC". */
  function ListedTime(t: TimeOfDay, zone: string): string
    requires ValidTime(t)
  {
    Pad2(t.hour) + ":" + Pad2(t.minute) + " " + zone
  }

  /** A month name followed by text ending in a digit has clean ends and no "NET" in front. */
  lemma NamedTextClean(m: int, rest: string)
    requires 1 <= m <= 12 && rest != [] && IsDigit(rest[|rest| - 1])
    ensures var s := MonthName(m) + rest;
      s != [] && !IsSpace(s[0]) && !IsSpace(s[|s| - 1]) && !StartsWithNet(s)
  {
    MonthNameCapitalised(m);
    var s := MonthName(m) + rest;
    assert s[0] == MonthName(m)[0] && s[1] == MonthName(m)[1];
    assert s[..3][1] == s[1];
    assert s[|s| - 1] == rest[|rest| - 1];
  }

  /** A listed full date neither starts nor ends with whitespace and carries no "NET". */
  lemma FullDateTextClean(d: Date)
    requires ValidDate(d)
    ensures var s := FullDateText(d);
      s != [] && !IsSpace(s[0]) && !IsSpace(s[|s| - 1]) && !StartsWithNet(s)
  {
    var year := Pad4(d.year);
    var rest := " " + Decimal(d.day) + ", " + year;
    assert FullDateText(d) == MonthName(d.month) + rest;
    assert rest[|rest| - 1] == year[3];
    NamedTextClean(d.month, rest);
  }

  /** A listed yearless date neither starts nor ends with whitespace and carries no "NET". */
  lemma MonthDayTextClean(m: int, day: int)
    requires 1 <= m <= 12 && 1 <= day <= 31
    ensures var s := MonthDayText(m, day);
      s != [] && !IsSpace(s[0]) && !IsSpace(s[|s| - 1]) && !StartsWithNet(s)
  {
    var dayText := Decimal(day);
    var rest := " " + dayText;
    assert MonthDayText(m, day) == MonthName(m) + rest;
    assert rest[|rest| - 1] == dayText[|dayText| - 1];
    NamedTextClean(m, rest);
  }

  /** A listed time neither starts nor ends with whitespace. */
  lemma ListedTimeClean(t: TimeOfDay, zone: string)
    requires ValidTime(t) && IsZoneName(zone)
    ensures var s := ListedTime(t, zone); s != [] && !IsSpace(s[0]) && !IsSpace(s[|s| - 1])
  {
    var s := ListedTime(t, zone);
    assert s[0] == Pad2(t.hour)[0];
    assert s[|s| - 1] == zone[2];
    assert Lower(zone[2]) == 'c' || Lower(zone[2]) == 't';
  }

  /** The date of a listing reads back as itself, whatever the current year. */
  lemma ListedDateRead(d: Date, currentYear: int)
    requires ValidDate(d) && MinYear <= currentYear <= MaxYear
    ensures NormalizeDate(FullDateText(d)) == FullDateText(d)
    ensures ParseDate(NormalizeDate(FullDateText(d)), currentYear) == Some(d)
  {
    FullDateTextClean(d);
    NormalizeClean(FullDateText(d));
    FullDateRoundTrip(d, currentYear);
  }

  /** The time of a listing, after the blank that separates it from the date, reads back as itself. */
  lemma ListedTimeRead(t: TimeOfDay, zone: string)
    requires ValidTime(t) && IsZoneName(zone)
    ensures ParseTime(TimeString(Some(" " + ListedTime(t, zone)))) == Some(t)
  {
    var timeText := ListedTime(t, zone);
    ListedTimeClean(t, zone);
    StripPadded(" ", timeText, "");
    assert " " + timeText + "" == " " + timeText;
    TimeRoundTrip(t.hour, t.minute, zone);
  }

  /**
   * A listing "NET <Month> <day>, <year>", with any whitespace around it,
   * with "<HH>:<MM> <zone>" after the date span, a mission and a location
   * gives exactly one record: that date at that time, with the stripped
   * mission and location, and no warning.
   */
  lemma ListedLaunchIsRecorded(
    d: Date, t: TimeOfDay, zone: string, mission: string, location: string,
    lead: string, gap: string, trail: string, currentYear: int)
    requires ValidDate(d) && ValidTime(t) && IsZoneName(zone) && MinYear <= currentYear <= MaxYear
    requires AllSpace(lead) && AllSpace(gap) && AllSpace(trail) && gap != []
    ensures ResolveBlock(
        Block(lead + "NET" + gap + FullDateText(d) + trail, Some(" " + ListedTime(t, zone)), Some(mission), Some(location)),
        currentYear)
      == Resolution(Some(LaunchRecord(Combine(d, t), Strip(mission), Strip(location))), [])
  {
    var bare := Block(FullDateText(d), Some(" " + ListedTime(t, zone)), Some(mission), Some(location));
    FullDateTextClean(d);
    NetQualifierIgnored(bare, lead, gap, trail, currentYear);
    var rd := Read(bare, currentYear);
    assert rd.date == Some(d) by {
      ListedDateRead(d, currentYear);
    }
    assert rd.time == Some(t) by {
      ListedTimeRead(t, zone);
    }
    RecordIffDateMissionLocation(rd, bare);
    RecordContents(rd, bare);
  }

  /**
   * A yearless listing "<Month> <day>" is read in the current year when the
   * day exists in that month of 1900, and otherwise dropped with one warning.
   */
  lemma YearlessListingRead(m: int, day: int, b: Block, currentYear: int)
    requires 1 <= m <= 12 && 1 <= day <= 31 && MinYear <= currentYear <= MaxYear
    requires b.dateText == MonthDayText(m, day)
    ensures Read(b, currentYear).dateStr == MonthDayText(m, day)
    ensures Read(b, currentYear).date ==
      if ValidDate(Date(DefaultYear, m, day)) then Some(Date(currentYear, m, day)) else None
  {
    MonthDayTextClean(m, day);
    NormalizeClean(MonthDayText(m, day));
    MonthDayRoundTrip(m, day, currentYear);
  }

  /**
   * A yearless "February 29" listing is never read, even when the current
   * year is a leap year: the block is dropped with one warning.
   */
  lemma YearlessLeapDayIsSkipped(b: Block, currentYear: int)
    requires MinYear <= currentYear <= MaxYear
    requires b.dateText == MonthDayText(2, 29)
    ensures ResolveBlock(b, currentYear) == Resolution(None, [DateNotRecognized(MonthDayText(2, 29))])
  {
    assert !ValidDate(Date(DefaultYear, 2, 29)) by {
      assert DaysInMonth(DefaultYear, 2) == 28;
    }
    YearlessListingRead(2, 29, b, currentYear);
    var rd := Read(b, currentYear);
    UnreadableDateSkips(rd, b);
    assert ResolveBlock(b, currentYear) == Resolve(rd, b);
  }
}


