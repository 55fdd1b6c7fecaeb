/**
 * The three `datetime.strptime` formats the schedule uses, as the regular
 * expressions Python's `_strptime` builds for them (case-insensitive, every
 * blank in the format matching one or more whitespace characters, the whole
 * string consumed), followed by the date validation `strptime` performs.
 *
 *   "%B %d, %Y"   month name, day, comma, four-digit year
 *   "%B %d"       month name and day; the year defaults to 1900
 *   "%H:%M %Z"    hour, minute and a time-zone name
 *
 * Also the clean-up applied to the raw date text before parsing
 * (launch_schedule_to_google_calendar.py, lines 26-28).
 */
module DateParsing {
  import opened Wrappers
  import opened Text
  import opened Calendar

  // ---------------------------------------------------------------------------
  // Date text clean-up.
  // ---------------------------------------------------------------------------

  /** Whether `re.sub(r'^NET\s+', '', s)` finds something to remove. */
  predicate StartsWithNet(s: string) {
    |s| >= 4 && s[..3] == "NET" && IsSpace(s[3])
  }

  /** `re.sub(r'^NET\s+', '', s)`: one leading "NET" and the whitespace after it. */
  function DropNet(s: string): (r: string)
    ensures StartsWithNet(s) ==> |r| <= |s| - 4 && r == s[|s| - |r|..] && AllSpace(s[3..|s| - |r|])
    ensures StartsWithNet(s) ==> r == [] || !IsSpace(r[0])
    ensures !StartsWithNet(s) ==> r == s
  {
    if StartsWithNet(s) then
      var n := SpanSpaces(s[3..]);
      assert s[3..][..n] == s[3..3 + n];
      s[3 + n..]
    else s
  }

  /** The date text as the code parses it: stripped, without a "NET" qualifier, without trailing whitespace. */
  function NormalizeDate(raw: string): (r: string)
    ensures r == [] || (!IsSpace(r[0]) && !IsSpace(r[|r| - 1]))
  {
    TrimEnd(DropNet(Strip(raw)))
  }

  /** The trailing-whitespace substitution (line 28) never changes anything: `strip()` already did its work. */
  lemma TrailingSubstitutionIsNoop(raw: string)
    ensures NormalizeDate(raw) == DropNet(Strip(raw))
  {
    var s := DropNet(Strip(raw));
    assert s == [] || !IsSpace(s[|s| - 1]);
  }

  lemma {:induction false} TrimEndPadded(x: string, trail: string)
    requires AllSpace(trail)
    requires x == [] || !IsSpace(x[|x| - 1])
    ensures TrimEnd(x + trail) == x
  {
    if trail != [] {
      var shorter := trail[..|trail| - 1];
      assert (x + trail)[..|x + trail| - 1] == x + shorter;
      TrimEndPadded(x, shorter);
    } else {
      assert x + trail == x;
    }
  }

  /** Whitespace around a string with clean ends is exactly what `strip()` removes. */
  lemma StripPadded(lead: string, x: string, trail: string)
    requires AllSpace(lead) && AllSpace(trail)
    requires x == [] || (!IsSpace(x[0]) && !IsSpace(x[|x| - 1]))
    ensures Strip(lead + x + trail) == x
  {
    var s := lead + x + trail;
    if x == [] {
      assert AllSpace(s);
      StripAllSpace(s);
    } else {
      assert s == lead + (x + trail);
      SpanSpacesPrefix(lead, x + trail);
      assert s[|lead|..] == x + trail;
      TrimEndPadded(x, trail);
    }
  }

  lemma DropNetOf(gap: string, s: string)
    requires AllSpace(gap) && gap != []
    requires s == [] || !IsSpace(s[0])
    ensures DropNet("NET" + gap + s) == s
  {
    var x := "NET" + gap + s;
    assert x[..3] == "NET" && x[3] == gap[0];
    assert x[3..] == gap + s;
    SpanSpacesPrefix(gap, s);
    assert x[3 + |gap|..] == s;
  }

  /** A text with clean ends and no "NET" qualifier is its own normal form. */
  lemma NormalizeClean(s: string)
    requires s != [] && !IsSpace(s[0]) && !IsSpace(s[|s| - 1]) && !StartsWithNet(s)
    ensures NormalizeDate(s) == s
  {
    StripClean(s);
  }

  /**
   * "NET" with any whitespace after it, and any whitespace around the whole
   * text, leaves the date text as it would be without them.
   */
  lemma NetIgnored(lead: string, gap: string, s: string, trail: string)
    requires AllSpace(lead) && AllSpace(gap) && AllSpace(trail) && gap != []
    requires s != [] && !IsSpace(s[0]) && !IsSpace(s[|s| - 1]) && !StartsWithNet(s)
    ensures NormalizeDate(lead + "NET" + gap + s + trail) == s
    ensures NormalizeDate(s) == s
  {
    var x := "NET" + gap + s;
    assert lead + "NET" + gap + s + trail == lead + x + trail;
    assert x[0] == 'N' && x[|x| - 1] == s[|s| - 1];
    StripPadded(lead, x, trail);
    DropNetOf(gap, s);
    NormalizeClean(s);
  }

  // ---------------------------------------------------------------------------
  // Month names (%B in the C locale).
  // ---------------------------------------------------------------------------

  function MonthName(m: int): (s: string)
    requires 1 <= m <= 12
    ensures |s| >= 3
  {
    ["January", "February", "March", "April", "May", "June", "July",
     "August", "September", "October", "November", "December"][m - 1]
  }

  /** Month names are written with a capital and then lower-case letters, as `%B` prints them. */
  lemma MonthNameCapitalised(m: int)
    requires 1 <= m <= 12
    ensures 'A' <= MonthName(m)[0] <= 'Z'
    ensures forall i :: 1 <= i < |MonthName(m)| ==> 'a' <= MonthName(m)[i] <= 'z'
  {
  }

  /** No month name begins, up to case, with the same three letters as another. */
  lemma MonthNamesDiffer(m: int, m': int)
    requires 1 <= m <= 12 && 1 <= m' <= 12 && m != m'
    ensures || Lower(MonthName(m)[0]) != Lower(MonthName(m')[0])
            || Lower(MonthName(m)[1]) != Lower(MonthName(m')[1])
            || Lower(MonthName(m)[2]) != Lower(MonthName(m')[2])
  {
  }

  /** At most one month name starts a given text. */
  lemma MonthPrefixUnique(s: string, m: int, m': int)
    requires 1 <= m <= 12 && 1 <= m' <= 12
    requires StartsWithIgnoreCase(s, MonthName(m)) && StartsWithIgnoreCase(s, MonthName(m'))
    ensures m == m'
  {
    if m != m' {
      MonthNamesDiffer(m, m');
      assert false;
    }
  }

  function MatchMonthFrom(s: string, k: int): (r: Option<int>)
    requires 1 <= k <= 13
    ensures r.Some? ==> k <= r.value <= 12 && StartsWithIgnoreCase(s, MonthName(r.value))
    ensures r.None? ==> forall m :: k <= m <= 12 ==> !StartsWithIgnoreCase(s, MonthName(m))
    decreases 13 - k
  {
    if k == 13 then None
    else if StartsWithIgnoreCase(s, MonthName(k)) then Some(k)
    else MatchMonthFrom(s, k + 1)
  }

  /** The `%B` alternative that matches at the start of `s`, if any. */
  function MatchMonth(s: string): (r: Option<int>)
    ensures r.Some? <==> exists m :: 1 <= m <= 12 && StartsWithIgnoreCase(s, MonthName(m))
    ensures r.Some? ==> 1 <= r.value <= 12 && StartsWithIgnoreCase(s, MonthName(r.value))
  {
    MatchMonthFrom(s, 1)
  }

  /** A text that starts with a month's name, written in any case, reads as that month. */
  lemma MatchMonthOfSpelling(name: string, m: int, rest: string)
    requires 1 <= m <= 12 && EqualsIgnoreCase(name, MonthName(m))
    ensures MatchMonth(name + rest) == Some(m)
  {
    var s := name + rest;
    assert s[..|MonthName(m)|] == name;
    assert StartsWithIgnoreCase(s, MonthName(m));
    MonthPrefixUnique(s, m, MatchMonth(s).value);
  }

  // ---------------------------------------------------------------------------
  // Dates.
  // ---------------------------------------------------------------------------

  /** What `\s+%d` reads at the front of a text, and the text left after it. */
  datatype DayScan = DayScan(day: int, rest: string)

  /**
   * `\s+%d`: at least one whitespace character, then a day of one or two
   * digits between 1 and 31 that is not followed by a further digit (the
   * regex backtracks from three digits to two only to fail on what is left).
   */
  function ScanDay(t: string): (r: Option<DayScan>)
    ensures r.Some? ==> 1 <= r.value.day <= 31
    ensures r.Some? ==> |r.value.rest| < |t| && t[|t| - |r.value.rest|..] == r.value.rest
    ensures r.Some? ==> r.value.rest == [] || !IsDigit(r.value.rest[0])
    ensures r.Some? ==>
      var gap, end := SpanSpaces(t), |t| - |r.value.rest|;
      && 1 <= gap && gap + 1 <= end <= gap + 2
      && AllDigits(t[gap..end]) && DigitsValue(t[gap..end]) == r.value.day
  {
    var gap := SpanSpaces(t);
    var dayText := t[gap..];
    var dayLen := SpanDigits(dayText);
    if gap == 0 || !(1 <= dayLen <= 2) then None
    else
      var day := DigitsValue(dayText[..dayLen]);
      assert dayText[..dayLen] == t[gap..gap + dayLen];
      if 1 <= day <= 31 then Some(DayScan(day, dayText[dayLen..])) else None
  }

  /** What `%B\s+%d` reads at the front of a text, and the text left after it. */
  datatype MonthDay = MonthDay(month: int, day: int, rest: string)

  /** The last characters of a suffix are the last characters of the whole text. */
  lemma SuffixOfSuffix(s: string, rest: string, k: nat)
    requires |rest| <= |s| && s[|s| - |rest|..] == rest && k <= |rest|
    ensures s[|s| - k..] == rest[|rest| - k..]
  {
    assert s[|s| - k..] == s[|s| - |rest|..][|rest| - k..];
  }

  /** The prefix shared by both date formats: a month name, then `\s+%d`. */
  function ScanMonthDay(s: string): (r: Option<MonthDay>)
    ensures r.Some? ==> 1 <= r.value.month <= 12 && 1 <= r.value.day <= 31
    ensures r.Some? ==> StartsWithIgnoreCase(s, MonthName(r.value.month))
    ensures r.Some? ==> |r.value.rest| < |s| && s[|s| - |r.value.rest|..] == r.value.rest
    ensures r.Some? ==> r.value.rest == [] || !IsDigit(r.value.rest[0])
    ensures r.Some? ==> ScanDay(s[|MonthName(r.value.month)|..]) == Some(DayScan(r.value.day, r.value.rest))
  {
    match MatchMonth(s)
    case None => None
    case Some(month) =>
      var afterName := s[|MonthName(month)|..];
      match ScanDay(afterName)
      case None => None
      case Some(scan) =>
        SuffixOfSuffix(s, afterName, |scan.rest|);
        Some(MonthDay(month, scan.day, scan.rest))
  }

  /** `,\s+%Y` to the end of the text: a comma, whitespace and exactly four digits. */
  function ScanYear(t: string): (r: Option<int>)
    ensures r.Some? ==> |t| >= 6 && t[0] == ',' && AllSpace(t[1..|t| - 4])
    ensures r.Some? ==> |t| >= 4 && AllDigits(t[|t| - 4..]) && DigitsValue(t[|t| - 4..]) == r.value
  {
    if t == [] || t[0] != ',' then None
    else
      var afterComma := t[1..];
      var gap := SpanSpaces(afterComma);
      var yearText := afterComma[gap..];
      if gap == 0 || |yearText| != 4 || !AllDigits(yearText) then None
      else
        assert t[|t| - 4..] == yearText;
        assert t[1..|t| - 4] == afterComma[..gap];
        Some(DigitsValue(yearText))
  }

  /** `datetime.strptime(s, "%B %d, %Y")`; `None` is its `ValueError`. */
  function ParseFullDate(s: string): (r: Option<Date>)
    ensures r.Some? ==> ValidDate(r.value)
    ensures r.Some? ==> StartsWithIgnoreCase(s, MonthName(r.value.month))
    ensures r.Some? ==> |s| >= 4 && AllDigits(s[|s| - 4..]) && DigitsValue(s[|s| - 4..]) == r.value.year
    ensures r.Some? ==>
      var scan := ScanMonthDay(s);
      && scan.Some? && scan.value.month == r.value.month && scan.value.day == r.value.day
      && ScanYear(scan.value.rest) == Some(r.value.year)
  {
    match ScanMonthDay(s)
    case None => None
    case Some(scan) =>
      match ScanYear(scan.rest)
      case None => None
      case Some(year) =>
        SuffixOfSuffix(s, scan.rest, 4);
        var date := Date(year, scan.month, scan.day);
        if ValidDate(date) then Some(date) else None
  }

  /** The year `strptime` fills in when the format has none. */
  const DefaultYear := 1900

  /**
   * `datetime.strptime(s, "%B %d").replace(year=currentYear)`. The day is
   * checked against the default year 1900, which is not a leap year, before
   * the current year replaces it.
   */
  function ParseMonthDay(s: string, currentYear: int): (r: Option<Date>)
    requires MinYear <= currentYear <= MaxYear
    ensures r.Some? ==> ValidDate(r.value) && r.value.year == currentYear
    ensures r.Some? ==> !(r.value.month == 2 && r.value.day == 29)
    ensures r.Some? ==> StartsWithIgnoreCase(s, MonthName(r.value.month))
    ensures r.Some? ==> ScanMonthDay(s) == Some(MonthDay(r.value.month, r.value.day, []))
  {
    match ScanMonthDay(s)
    case None => None
    case Some(scan) =>
      if scan.rest != [] then None
      else if !ValidDate(Date(DefaultYear, scan.month, scan.day)) then None
      else Some(Date(currentYear, scan.month, scan.day))
  }

  /** Lines 30-38: the full format first, and only if it fails the yearless one. */
  function ParseDate(s: string, currentYear: int): (r: Option<Date>)
    requires MinYear <= currentYear <= MaxYear
    ensures r.Some? ==> ValidDate(r.value)
  {
    match ParseFullDate(s)
    case Some(date) => Some(date)
    case None => ParseMonthDay(s, currentYear)
  }

  /** No text is read by both formats, so the fallback never hides a full-format reading. */
  lemma DateFormatsDisjoint(s: string, currentYear: int)
    requires MinYear <= currentYear <= MaxYear
    ensures ParseFullDate(s).Some? ==> ParseMonthDay(s, currentYear).None?
    ensures ParseDate(s, currentYear).Some? <==>
      ParseFullDate(s).Some? || ParseMonthDay(s, currentYear).Some?
  {
  }

  /** The text a page shows for a full date, e.g. "June 5, 2025". */
  function FullDateText(d: Date): string
    requires ValidDate(d)
  {
    MonthName(d.month) + " " + Decimal(d.day) + ", " + Pad4(d.year)
  }

  /** A full date as a page shows it is read back, by the full format, as that date. */
  lemma FullDateRoundTrip(d: Date, currentYear: int)
    requires ValidDate(d) && MinYear <= currentYear <= MaxYear
    ensures ParseDate(FullDateText(d), currentYear) == Some(d)
  {
    FullDateReads(d);
  }

  lemma FullDateReads(d: Date)
    requires ValidDate(d)
    ensures ParseFullDate(FullDateText(d)) == Some(d)
  {
    var name, day, year := MonthName(d.month), Decimal(d.day), Pad4(d.year);
    assert FullDateText(d) == name + " " + day + "," + " " + year;
    FullDateOfDigits(name, d.month, " ", day, " ", year);
  }

  /**
   * `\s+%d` reads any run of whitespace and a day of one or two digits,
   * zero-padded or not, and leaves what follows untouched.
   */
  lemma DayOfDigits(gap: string, digits: string, rest: string)
    requires gap != [] && AllSpace(gap)
    requires 1 <= |digits| <= 2 && AllDigits(digits) && 1 <= DigitsValue(digits) <= 31
    requires rest == [] || !IsDigit(rest[0])
    ensures ScanDay(gap + digits + rest) == Some(DayScan(DigitsValue(digits), rest))
  {
    var t := gap + digits + rest;
    assert t == gap + (digits + rest);
    SpanSpacesPrefix(gap, digits + rest);
    assert t[|gap|..] == digits + rest;
    SpanDigitsPrefix(digits, rest);
    assert (digits + rest)[..|digits|] == digits;
    assert (digits + rest)[|digits|..] == rest;
    DayOfParts(t, |gap|, |digits|);
  }

  /** `ScanDay` accepts a text once its whitespace run and the one or two digits after it are measured. */
  lemma DayOfParts(t: string, gap: nat, len: nat)
    requires SpanSpaces(t) == gap && 1 <= gap <= |t|
    requires SpanDigits(t[gap..]) == len && 1 <= len <= 2
    requires 1 <= DigitsValue(t[gap..][..len]) <= 31
    ensures ScanDay(t) == Some(DayScan(DigitsValue(t[gap..][..len]), t[gap..][len..]))
  {
  }

  /** `%B\s+%d` reads a month name in any case, whitespace and a day of one or two digits. */
  lemma MonthDayOfDigits(name: string, m: int, gap: string, digits: string, rest: string)
    requires 1 <= m <= 12 && EqualsIgnoreCase(name, MonthName(m))
    requires gap != [] && AllSpace(gap)
    requires 1 <= |digits| <= 2 && AllDigits(digits) && 1 <= DigitsValue(digits) <= 31
    requires rest == [] || !IsDigit(rest[0])
    ensures ScanMonthDay(name + gap + digits + rest) == Some(MonthDay(m, DigitsValue(digits), rest))
  {
    var after := gap + digits + rest;
    var s := name + gap + digits + rest;
    assert s == name + after && s[|name|..] == after;
    MatchMonthOfSpelling(name, m, after);
    DayOfDigits(gap, digits, rest);
    MonthDayOfParts(s, m, DigitsValue(digits), rest);
  }

  /** `ScanMonthDay` accepts a text once its month name and the day scan after it are each read. */
  lemma MonthDayOfParts(s: string, m: int, day: int, rest: string)
    requires MatchMonth(s) == Some(m)
    requires ScanDay(s[|MonthName(m)|..]) == Some(DayScan(day, rest))
    ensures ScanMonthDay(s) == Some(MonthDay(m, day, rest))
  {
  }

  /** `,\s+%Y` reads a comma, any run of whitespace and four digits as the year they spell. */
  lemma YearOfDigits(gap: string, digits: string)
    requires gap != [] && AllSpace(gap)
    requires |digits| == 4 && AllDigits(digits)
    ensures ScanYear("," + gap + digits) == Some(DigitsValue(digits))
  {
    var t := "," + gap + digits;
    assert t[1..] == gap + digits;
    SpanSpacesPrefix(gap, digits);
    assert (gap + digits)[|gap|..] == digits;
  }

  /**
   * `strptime(s, "%B %d, %Y")` reads every spelling of the format: a month
   * name in any case, any whitespace runs, a day of one or two digits and a
   * four-digit year, giving that date when it exists and a `ValueError`
   * otherwise.
   */
  lemma FullDateOfDigits(name: string, m: int, gap: string, day: string, gap': string, year: string)
    requires 1 <= m <= 12 && EqualsIgnoreCase(name, MonthName(m))
    requires gap != [] && AllSpace(gap) && gap' != [] && AllSpace(gap')
    requires 1 <= |day| <= 2 && AllDigits(day) && 1 <= DigitsValue(day) <= 31
    requires |year| == 4 && AllDigits(year)
    ensures ParseFullDate(name + gap + day + "," + gap' + year) ==
      var d := Date(DigitsValue(year), m, DigitsValue(day));
      if ValidDate(d) then Some(d) else None
  {
    var rest := "," + gap' + year;
    assert name + gap + day + "," + gap' + year == name + gap + day + rest;
    MonthDayOfDigits(name, m, gap, day, rest);
    YearOfDigits(gap', year);
  }

  /**
   * `strptime(s, "%B %d").replace(year=currentYear)` reads every spelling of
   * the format, and so does the fallback of lines 30-38: the day is read in
   * the current year when it exists in that month of 1900, and not at all
   * otherwise.
   */
  lemma YearlessOfDigits(name: string, m: int, gap: string, day: string, currentYear: int)
    requires 1 <= m <= 12 && EqualsIgnoreCase(name, MonthName(m)) && MinYear <= currentYear <= MaxYear
    requires gap != [] && AllSpace(gap)
    requires 1 <= |day| <= 2 && AllDigits(day) && 1 <= DigitsValue(day) <= 31
    ensures ParseDate(name + gap + day, currentYear) ==
      var v := DigitsValue(day);
      if ValidDate(Date(DefaultYear, m, v)) then Some(Date(currentYear, m, v)) else None
  {
    var s := name + gap + day;
    assert s + [] == s;
    MonthDayOfDigits(name, m, gap, day, []);
  }

  /** The text a page shows for a yearless date, e.g. "March 3". */
  function MonthDayText(m: int, day: int): string
    requires 1 <= m <= 12 && 1 <= day <= 31
  {
    MonthName(m) + " " + Decimal(day)
  }

  /**
   * A yearless date is read in the current year exactly when the day exists
   * in that month of 1900: "February 29" never is.
   */
  lemma MonthDayRoundTrip(m: int, day: int, currentYear: int)
    requires 1 <= m <= 12 && 1 <= day <= 31 && MinYear <= currentYear <= MaxYear
    ensures ParseDate(MonthDayText(m, day), currentYear) ==
      if ValidDate(Date(DefaultYear, m, day)) then Some(Date(currentYear, m, day)) else None
  {
    YearlessOfDigits(MonthName(m), m, " ", Decimal(day), currentYear);
  }

  lemma {:induction false} SpanDigitsPrefix(digits: string, t: string)
    requires AllDigits(digits)
    requires t == [] || !IsDigit(t[0])
    ensures SpanDigits(digits + t) == |digits|
  {
    if digits != [] {
      assert (digits + t)[1..] == digits[1..] + t;
      SpanDigitsPrefix(digits[1..], t);
    } else {
      assert digits + t == t;
    }
  }

  // ---------------------------------------------------------------------------
  // Times.
  // ---------------------------------------------------------------------------

  /** The `%Z` names accepted on a host whose local zone is UTC: "utc" and "gmt", in any case. */
  predicate IsZoneName(z: string)
    ensures IsZoneName(z) ==> |z| == 3 && !IsDigit(z[0]) && !IsSpace(z[0]) && !IsSpace(z[2])
  {
    EqualsIgnoreCase(z, "UTC") || EqualsIgnoreCase(z, "GMT")
  }

  /** `\s+%Z` with nothing after it: whitespace, then exactly a zone name. */
  predicate SpacedZone(t: string) {
    var gap := SpanSpaces(t);
    gap >= 1 && IsZoneName(t[gap..])
  }

  /** `%M\s+%Z` to the end of the text: the minute it reads, if it matches. */
  function ParseMinuteZone(t: string): (r: Option<int>)
    ensures r.Some? ==> 0 <= r.value <= 59
    ensures r.Some? ==>
      var n := SpanDigits(t);
      1 <= n <= 2 && DigitsValue(t[..n]) == r.value && SpacedZone(t[n..])
  {
    var minuteLen := SpanDigits(t);
    if !(1 <= minuteLen <= 2) then None
    else
      var minute := DigitsValue(t[..minuteLen]);
      if minute > 59 || !SpacedZone(t[minuteLen..]) then None else Some(minute)
  }

  /**
   * `datetime.strptime(t, "%H:%M %Z").time()`: an hour of one or two digits
   * up to 23, a colon, a minute of one or two digits up to 59, whitespace and
   * a zone name, which is read and then discarded.
   */
  function ParseTime(t: string): (r: Option<TimeOfDay>)
    ensures r.Some? ==> ValidTime(r.value) && t != []
    ensures r.Some? ==>
      var n := SpanDigits(t);
      && 1 <= n <= 2 && n < |t| && t[n] == ':' && DigitsValue(t[..n]) == r.value.hour
      && ParseMinuteZone(t[n + 1..]) == Some(r.value.minute)
  {
    var hourLen := SpanDigits(t);
    if !(1 <= hourLen <= 2) || hourLen == |t| || t[hourLen] != ':' then None
    else
      var hour := DigitsValue(t[..hourLen]);
      if hour > 23 then None
      else match ParseMinuteZone(t[hourLen + 1..])
        case None => None
        case Some(minute) => Some(TimeOfDay(hour, minute))
  }

  /** The value `strptime("00:00 UTC", "%H:%M %Z")` gives, used whenever no time can be read. */
  const Midnight := TimeOfDay(0, 0)

  const DefaultTimeText := "00:00 UTC"

  lemma DefaultTimeParses()
    ensures ParseTime(DefaultTimeText) == Some(Midnight)
  {
    TimeRoundTrip(0, 0, "UTC");
    assert Pad2(0) + ":" + Pad2(0) + " " + "UTC" == DefaultTimeText;
  }

  /** `%M\s+%Z` reads a minute of one or two digits, any run of whitespace and an accepted zone name. */
  lemma MinuteZoneOfDigits(minute: string, gap: string, zone: string)
    requires 1 <= |minute| <= 2 && AllDigits(minute) && DigitsValue(minute) <= 59
    requires gap != [] && AllSpace(gap) && IsZoneName(zone)
    ensures ParseMinuteZone(minute + gap + zone) == Some(DigitsValue(minute))
  {
    var tail := gap + zone;
    var t := minute + gap + zone;
    assert t == minute + tail;
    assert SpanDigits(t) == |minute| by {
      SpanDigitsPrefix(minute, tail);
    }
    assert t[..|minute|] == minute && t[|minute|..] == tail;
    assert SpacedZone(tail) by {
      SpanSpacesPrefix(gap, zone);
      assert tail[|gap|..] == zone;
    }
    MinuteZoneOfParts(t, |minute|);
  }

  /** `ParseMinuteZone` accepts a text once its minute digits and the spaced zone after them are each read. */
  lemma MinuteZoneOfParts(t: string, n: nat)
    requires SpanDigits(t) == n && 1 <= n <= 2 && DigitsValue(t[..n]) <= 59
    requires SpacedZone(t[n..])
    ensures ParseMinuteZone(t) == Some(DigitsValue(t[..n]))
  {
  }

  /**
   * `strptime(t, "%H:%M %Z")` reads every spelling of the format: an hour
   * and a minute of one or two digits each, zero-padded or not, any run of
   * whitespace and an accepted zone name, in any case.
   */
  lemma TimeOfDigits(hour: string, minute: string, gap: string, zone: string)
    requires 1 <= |hour| <= 2 && AllDigits(hour) && DigitsValue(hour) <= 23
    requires 1 <= |minute| <= 2 && AllDigits(minute) && DigitsValue(minute) <= 59
    requires gap != [] && AllSpace(gap) && IsZoneName(zone)
    ensures ParseTime(hour + ":" + minute + gap + zone) == Some(TimeOfDay(DigitsValue(hour), DigitsValue(minute)))
  {
    var t := hour + ":" + minute + gap + zone;
    TimeTextFields(hour, minute, gap, zone);
    MinuteZoneOfDigits(minute, gap, zone);
    TimeOfParts(t, |hour|, DigitsValue(minute));
  }

  /** `hour + ":" + minute + gap + zone` splits at its colon into `hour` and `minute + gap + zone`. */
  lemma TimeTextFields(hour: string, minute: string, gap: string, zone: string)
    requires 1 <= |hour| <= 2 && AllDigits(hour)
    ensures var t := hour + ":" + minute + gap + zone;
      && SpanDigits(t) == |hour| && |hour| < |t| && t[..|hour|] == hour && t[|hour|] == ':'
      && t[|hour| + 1..] == minute + gap + zone
  {
    var t := hour + ":" + minute + gap + zone;
    assert t == hour + (":" + (minute + gap + zone)) by {
      assert hour + ":" + minute == hour + (":" + minute);
      assert hour + (":" + minute) + gap == hour + (":" + (minute + gap));
      assert hour + (":" + (minute + gap)) + zone == hour + (":" + (minute + gap + zone));
    }
    HourFieldOf(hour, minute + gap + zone);
  }

  /** The hour field of `hour + ":" + tail` is exactly `hour`, followed by the colon and `tail`. */
  lemma HourFieldOf(hour: string, tail: string)
    requires 1 <= |hour| <= 2 && AllDigits(hour)
    ensures var t := hour + (":" + tail);
      SpanDigits(t) == |hour| && t[..|hour|] == hour && t[|hour|] == ':' && t[|hour| + 1..] == tail
  {
    var t := hour + (":" + tail);
    SpanDigitsPrefix(hour, ":" + tail);
    assert t[|hour| + 1..] == tail;
  }

  /** `ParseTime` accepts a text once its hour field and its `%M\s+%Z` tail are each read. */
  lemma TimeOfParts(t: string, n: nat, minute: int)
    requires SpanDigits(t) == n && 1 <= n <= 2 && n < |t| && t[n] == ':'
    requires DigitsValue(t[..n]) <= 23
    requires ParseMinuteZone(t[n + 1..]) == Some(minute)
    ensures ParseTime(t) == Some(TimeOfDay(DigitsValue(t[..n]), minute))
  {
  }

  /** A zero-padded "HH:MM zone" reads back as that hour and minute. */
  lemma TimeRoundTrip(hour: int, minute: int, zone: string)
    requires ValidTime(TimeOfDay(hour, minute)) && IsZoneName(zone)
    ensures ParseTime(Pad2(hour) + ":" + Pad2(minute) + " " + zone) == Some(TimeOfDay(hour, minute))
  {
    TimeOfDigits(Pad2(hour), Pad2(minute), " ", zone);
  }

  lemma SpacedZoneIgnored(prefix: string, zone: string, zone': string)
    requires IsZoneName(zone) && IsZoneName(zone')
    ensures SpacedZone(prefix + zone) == SpacedZone(prefix + zone')
  {
    SpanSpacesAppend(prefix, zone);
    SpanSpacesAppend(prefix, zone');
    var gap := SpanSpaces(prefix);
    assert (prefix + zone)[gap..] == prefix[gap..] + zone;
    assert (prefix + zone')[gap..] == prefix[gap..] + zone';
    if prefix[gap..] == [] {
      assert prefix[gap..] + zone == zone && prefix[gap..] + zone' == zone';
    }
  }

  lemma MinuteZoneIgnored(prefix: string, zone: string, zone': string)
    requires IsZoneName(zone) && IsZoneName(zone')
    ensures ParseMinuteZone(prefix + zone) == ParseMinuteZone(prefix + zone')
  {
    var a, b := prefix + zone, prefix + zone';
    SpanDigitsAppend(prefix, zone);
    SpanDigitsAppend(prefix, zone');
    var n := SpanDigits(prefix);
    assert a[..n] == prefix[..n] == b[..n];
    assert a[n..] == prefix[n..] + zone && b[n..] == prefix[n..] + zone';
    SpacedZoneIgnored(prefix[n..], zone, zone');
    MinuteZoneCongruent(a, b);
  }

  /** `ParseMinuteZone` looks only at the minute digits and at whether a spaced zone name follows. */
  lemma MinuteZoneCongruent(a: string, b: string)
    requires SpanDigits(a) == SpanDigits(b)
    requires a[..SpanDigits(a)] == b[..SpanDigits(b)]
    requires SpacedZone(a[SpanDigits(a)..]) == SpacedZone(b[SpanDigits(b)..])
    ensures ParseMinuteZone(a) == ParseMinuteZone(b)
  {
  }

  /** The zone name has no effect on the time read: any accepted name gives the same result. */
  lemma ZoneIgnored(prefix: string, zone: string, zone': string)
    requires IsZoneName(zone) && IsZoneName(zone')
    ensures ParseTime(prefix + zone) == ParseTime(prefix + zone')
  {
    var a, b := prefix + zone, prefix + zone';
    SpanDigitsAppend(prefix, zone);
    SpanDigitsAppend(prefix, zone');
    var n := SpanDigits(prefix);
    assert a[..n] == prefix[..n] == b[..n];
    if n < |prefix| {
      assert a[n] == prefix[n] == b[n];
      assert a[n + 1..] == prefix[n + 1..] + zone && b[n + 1..] == prefix[n + 1..] + zone';
      MinuteZoneIgnored(prefix[n + 1..], zone, zone');
    } else {
      assert a[n] == zone[0] && b[n] == zone'[0];
    }
    TimeCongruent(a, b);
  }

  /**
   * `ParseTime` looks only at the hour digits, at whether a colon follows
   * them, and at what `%M\s+%Z` reads after that colon.
   */
  lemma TimeCongruent(a: string, b: string)
    requires SpanDigits(a) == SpanDigits(b)
    requires var n := SpanDigits(a); a[..n] == b[..n] && (n < |a| <==> n < |b|)
    requires var n := SpanDigits(a); n < |a| ==> (a[n] == ':' <==> b[n] == ':')
    requires var n := SpanDigits(a); n < |a| && a[n] == ':' ==> ParseMinuteZone(a[n + 1..]) == ParseMinuteZone(b[n + 1..])
    ensures ParseTime(a) == ParseTime(b)
  {
  }

  lemma {:induction false} SpanDigitsAppend(a: string, b: string)
    requires b != [] && !IsDigit(b[0])
    ensures SpanDigits(a + b) == SpanDigits(a)
  {
    if a != [] {
      assert (a + b)[0] == a[0] && (a + b)[1..] == a[1..] + b;
      SpanDigitsAppend(a[1..], b);
    } else {
      assert a + b == b;
    }
  }

  lemma {:induction false} SpanSpacesAppend(a: string, b: string)
    requires b != [] && !IsSpace(b[0])
    ensures SpanSpaces(a + b) == SpanSpaces(a)
  {
    if a != [] {
      assert (a + b)[0] == a[0] && (a + b)[1..] == a[1..] + b;
      SpanSpacesAppend(a[1..], b);
    } else {
      assert a + b == b;
    }
  }
}
