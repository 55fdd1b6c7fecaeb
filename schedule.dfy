/**
 * `get_launch_schedule` (launch_schedule_to_google_calendar.py, lines 17-76)
 * after the page has been fetched and walked: each `div.datename` block is
 * given as the texts the traversal finds for it, and the loop turns each
 * block into at most one launch record, logging a warning for every block it
 * skips and every time it cannot read.
 */
module Schedule {
  import opened Wrappers
  import opened Text
  import opened Calendar
  import opened DateParsing

  /**
   * One `div.datename` block: the text of its `span.launchdate`, the text
   * node after that span (absent when there is none), and the texts of the
   * following `div.mission` and of the `div.location` after it (absent when
   * the element is not found).
   */
  datatype Block = Block(
    dateText: string,
    timeText: Option<string>,
    missionText: Option<string>,
    locationText: Option<string>)

  /** The dictionary appended to `launches`. */
  datatype LaunchRecord = LaunchRecord(when: DateTime, mission: string, location: string)

  /** The `logging.warning` calls, with the string each one reports. */
  datatype Warning =
    | DateNotRecognized(dateStr: string)
    | TimeNotRecognized(timeStr: string)
    | MissionNotFound(dateStr: string)
    | LocationNotFound(dateStr: string)

  /** What one pass of the loop body produces: at most one record, and the warnings it logged. */
  datatype Resolution = Resolution(record: Option<LaunchRecord>, warnings: seq<Warning>)

  /** Lines 40-47: the stripped text after the date span, or "00:00 UTC" when it is missing or blank. */
  function TimeString(timeText: Option<string>): (t: string)
    ensures t != []
    ensures timeText.Some? && Strip(timeText.value) != [] ==> t == Strip(timeText.value)
    ensures timeText.None? || Strip(timeText.value) == [] ==> t == DefaultTimeText
  {
    match timeText
    case None => DefaultTimeText
    case Some(text) => if Strip(text) == [] then DefaultTimeText else Strip(text)
  }

  /**
   * What the loop body reads from a block before it decides anything: the
   * cleaned date text and the date parsed from it (`None` when neither
   * format matched), and the time text and the time parsed from it.
   */
  datatype Reading = Reading(dateStr: string, date: Option<Date>, timeStr: string, time: Option<TimeOfDay>)

  predicate ValidReading(rd: Reading) {
    && (rd.date.Some? ==> ValidDate(rd.date.value))
    && (rd.time.Some? ==> ValidTime(rd.time.value))
  }

  /** Lines 26-48: clean the date text and read it, then read the time text. */
  function Read(b: Block, currentYear: int): (rd: Reading)
    requires MinYear <= currentYear <= MaxYear
    ensures ValidReading(rd)
  {
    Reading(
      NormalizeDate(b.dateText), ParseDate(NormalizeDate(b.dateText), currentYear),
      TimeString(b.timeText), ParseTime(TimeString(b.timeText)))
  }

  /**
   * Lines 30-74 once the texts are read: an unread date skips the block, an
   * unread time becomes midnight, a missing mission or location skips the
   * block, and anything else is one record.
   */
  function Resolve(rd: Reading, b: Block): (r: Resolution)
    requires ValidReading(rd)
    ensures r.record.Some? ==> ValidDateTime(r.record.value.when)
    ensures r.record.None? ==> r.warnings != []
    ensures |r.warnings| <= 2
  {
    match rd.date
    case None => Resolution(None, [DateNotRecognized(rd.dateStr)])
    case Some(date) =>
      var time := if rd.time.Some? then rd.time.value else Midnight;
      var timeWarnings := if rd.time.Some? then [] else [TimeNotRecognized(rd.timeStr)];
      if b.missionText.None? then
        Resolution(None, timeWarnings + [MissionNotFound(rd.dateStr)])
      else if b.locationText.None? then
        Resolution(None, timeWarnings + [LocationNotFound(rd.dateStr)])
      else
        var record := LaunchRecord(Combine(date, time), Strip(b.missionText.value), Strip(b.locationText.value));
        Resolution(Some(record), timeWarnings)
  }

  /** One pass of the loop body, lines 26-74. */
  function ResolveBlock(b: Block, currentYear: int): (r: Resolution)
    requires MinYear <= currentYear <= MaxYear
    ensures r.record.Some? ==> ValidDateTime(r.record.value.when)
  {
    Resolve(Read(b, currentYear), b)
  }

  // ---------------------------------------------------------------------------
  // What one block yields.
  // ---------------------------------------------------------------------------

  /**
   * A block yields a record exactly when its date was read and both its
   * mission and its location element exist; the time never decides it.
   */
  lemma RecordIffDateMissionLocation(rd: Reading, b: Block)
    requires ValidReading(rd)
    ensures Resolve(rd, b).record.Some? <==> rd.date.Some? && b.missionText.Some? && b.locationText.Some?
  {
  }

  /**
   * The record's date is the date read, its time of day the time read or
   * else midnight, and its mission and location the stripped texts, blank
   * ones included; the only warning is the one for an unread time.
   */
  lemma RecordContents(rd: Reading, b: Block)
    requires ValidReading(rd)
    requires Resolve(rd, b).record.Some?
    ensures var rec := Resolve(rd, b).record.value;
      && Some(rec.when.date) == rd.date
      && (rd.time.Some? ==> rec.when.time == rd.time.value)
      && (rd.time.None? ==> rec.when.time == TimeOfDay(0, 0))
      && rec.mission == Strip(b.missionText.value)
      && rec.location == Strip(b.locationText.value)
    ensures Resolve(rd, b).warnings == if rd.time.Some? then [] else [TimeNotRecognized(rd.timeStr)]
  {
  }

  /** A missing or blank time text reads as midnight without a warning. */
  lemma BlankTimeIsMidnight(timeText: Option<string>)
    requires timeText.None? || Strip(timeText.value) == []
    ensures ParseTime(TimeString(timeText)) == Some(Midnight)
  {
    DefaultTimeParses();
  }

  /** A time text that reads as "HH:MM TZ" after stripping gives that hour and minute. */
  lemma ReadTimeIsUsed(b: Block, currentYear: int, time: TimeOfDay)
    requires MinYear <= currentYear <= MaxYear
    requires b.timeText.Some? && ParseTime(Strip(b.timeText.value)) == Some(time)
    ensures Read(b, currentYear).time == Some(time)
  {
  }

  /**
   * A time text that is not blank but does not read as "HH:MM TZ" after
   * stripping is kept as its stripped form and left unread: a block whose
   * date is read then logs that text first, and, when its mission and
   * location exist, yields a record at midnight with that one warning.
   */
  lemma UnreadableTimeIsMidnight(b: Block, currentYear: int)
    requires MinYear <= currentYear <= MaxYear
    requires b.timeText.Some? && Strip(b.timeText.value) != []
    requires ParseTime(Strip(b.timeText.value)).None?
    ensures Read(b, currentYear).time.None? && Read(b, currentYear).timeStr == Strip(b.timeText.value)
    ensures var r := ResolveBlock(b, currentYear);
      Read(b, currentYear).date.Some? ==> r.warnings != [] && r.warnings[0] == TimeNotRecognized(Strip(b.timeText.value))
    ensures var r := ResolveBlock(b, currentYear);
      Read(b, currentYear).date.Some? && b.missionText.Some? && b.locationText.Some? ==>
        && r.record.Some? && r.record.value.when.time == Midnight
        && r.warnings == [TimeNotRecognized(Strip(b.timeText.value))]
  {
    var rd := Read(b, currentYear);
    assert ResolveBlock(b, currentYear) == Resolve(rd, b);
    if rd.date.Some? && b.missionText.Some? && b.locationText.Some? {
      RecordContents(rd, b);
    }
  }

  /** A date that cannot be read drops the block with one warning naming the cleaned date text. */
  lemma UnreadableDateSkips(rd: Reading, b: Block)
    requires ValidReading(rd) && rd.date.None?
    ensures Resolve(rd, b) == Resolution(None, [DateNotRecognized(rd.dateStr)])
  {
  }

  /**
   * A read date without a mission element, or with a mission but no
   * location element, drops the block: one warning names the date, after the
   * time warning if the time could not be read.
   */
  lemma MissingElementSkips(rd: Reading, b: Block)
    requires ValidReading(rd) && rd.date.Some?
    requires b.missionText.None? || b.locationText.None?
    ensures var r := Resolve(rd, b);
      && r.record.None?
      && r.warnings == (if rd.time.Some? then [] else [TimeNotRecognized(rd.timeStr)]) + [
        if b.missionText.None? then MissionNotFound(rd.dateStr) else LocationNotFound(rd.dateStr)]
      && 1 <= |r.warnings| <= 2
  {
  }

  /**
   * "NET" in front of the date text, with whitespace around it, changes
   * nothing: the block resolves as the bare date text does.
   */
  lemma NetQualifierIgnored(b: Block, lead: string, gap: string, trail: string, currentYear: int)
    requires MinYear <= currentYear <= MaxYear
    requires AllSpace(lead) && AllSpace(gap) && AllSpace(trail) && gap != []
    requires var s := b.dateText; s != [] && !IsSpace(s[0]) && !IsSpace(s[|s| - 1]) && !StartsWithNet(s)
    ensures Read(b.(dateText := lead + "NET" + gap + b.dateText + trail), currentYear) == Read(b, currentYear)
    ensures ResolveBlock(b.(dateText := lead + "NET" + gap + b.dateText + trail), currentYear)
      == ResolveBlock(b, currentYear)
  {
    var b' := b.(dateText := lead + "NET" + gap + b.dateText + trail);
    NetIgnored(lead, gap, b.dateText, trail);
    ReadCongruent(b', b, currentYear);
    ResolveCongruent(Read(b, currentYear), b', b);
  }

  /** `Read` looks at the date text only through its cleaned form. */
  lemma ReadCongruent(b: Block, b': Block, currentYear: int)
    requires MinYear <= currentYear <= MaxYear && b.timeText == b'.timeText
    ensures NormalizeDate(b.dateText) == NormalizeDate(b'.dateText) ==> Read(b, currentYear) == Read(b', currentYear)
  {
  }

  /** `Resolve` looks at the block only through its mission and location texts. */
  lemma ResolveCongruent(rd: Reading, b: Block, b': Block)
    requires ValidReading(rd)
    requires b.missionText == b'.missionText && b.locationText == b'.locationText
    ensures Resolve(rd, b) == Resolve(rd, b')
  {
  }

  // ---------------------------------------------------------------------------
  // The whole pass.
  // ---------------------------------------------------------------------------

  /** The resolution of every block, in document order. */
  function Outcomes(blocks: seq<Block>, currentYear: int): (rs: seq<Resolution>)
    requires MinYear <= currentYear <= MaxYear
    ensures |rs| == |blocks|
  {
    seq(|blocks|, i requires 0 <= i < |blocks| => ResolveBlock(blocks[i], currentYear))
  }

  function Emitted(r: Resolution): seq<LaunchRecord> {
    if r.record.Some? then [r.record.value] else []
  }

  /** The records the loop appends, one resolution after another. */
  function Launches(rs: seq<Resolution>): (r: seq<LaunchRecord>)
    ensures |r| <= |rs|
  {
    if rs == [] then []
    else
      var n := |rs| - 1;
      Launches(rs[..n]) + Emitted(rs[n])
  }

  /** The warnings the loop logs, one resolution after another. */
  function Diagnostics(rs: seq<Resolution>): (log: seq<Warning>)
    ensures forall i, k :: 0 <= i < |rs| && 0 <= k < |rs[i].warnings| ==> rs[i].warnings[k] in log
  {
    if rs == [] then []
    else
      var n := |rs| - 1;
      var log := Diagnostics(rs[..n]) + rs[n].warnings;
      assert forall i :: 0 <= i < n ==> rs[..n][i] == rs[i];
      log
  }

  /** The positions of the resolutions that hold a record, in order. */
  function Origins(rs: seq<Resolution>): (r: seq<int>)
    ensures forall k :: 0 <= k < |r| ==> 0 <= r[k] < |rs|
  {
    if rs == [] then []
    else
      var n := |rs| - 1;
      Origins(rs[..n]) + (if rs[n].record.Some? then [n] else [])
  }

  /** `Origins` lists each position holding a record exactly once, in increasing order, and no other. */
  lemma {:induction false} OriginsExactly(rs: seq<Resolution>)
    ensures forall j, k :: 0 <= j < k < |Origins(rs)| ==> Origins(rs)[j] < Origins(rs)[k]
    ensures forall i :: 0 <= i < |rs| ==> (i in Origins(rs) <==> rs[i].record.Some?)
  {
    if rs != [] {
      var n := |rs| - 1;
      OriginsExactly(rs[..n]);
      assert forall i :: 0 <= i < n ==> rs[..n][i] == rs[i];
    }
  }

  /**
   * The output lists, in order, the record of every resolution that holds
   * one and nothing else: its k-th record comes from the k-th such one.
   */
  lemma {:induction false} LaunchesFollowOrigins(rs: seq<Resolution>)
    ensures |Launches(rs)| == |Origins(rs)|
    ensures forall k :: 0 <= k < |Origins(rs)| ==> rs[Origins(rs)[k]].record == Some(Launches(rs)[k])
  {
    if rs != [] {
      var n := |rs| - 1;
      var front := rs[..n];
      LaunchesFollowOrigins(front);
      var earlier, emitted := Origins(front), Launches(front);
      assert Origins(rs) == earlier + (if rs[n].record.Some? then [n] else []);
      assert Launches(rs) == emitted + Emitted(rs[n]);
      forall k | 0 <= k < |Origins(rs)|
        ensures rs[Origins(rs)[k]].record == Some(Launches(rs)[k])
      {
        if k < |earlier| {
          assert front[earlier[k]] == rs[earlier[k]];
        }
      }
    }
  }

  /** Resolutions contribute independently: the records for two runs of them are the two lists joined. */
  lemma {:induction false} LaunchesAppend(first: seq<Resolution>, second: seq<Resolution>)
    ensures Launches(first + second) == Launches(first) + Launches(second)
    decreases |second|
  {
    if second == [] {
      assert first + second == first;
    } else {
      var front, r := second[..|second| - 1], second[|second| - 1];
      assert second == front + [r];
      assert first + second == (first + front) + [r];
      LaunchesSnoc(first + front, r);
      LaunchesSnoc(front, r);
      LaunchesAppend(first, front);
      var x, y, last := Launches(first), Launches(front), Emitted(r);
      assert (x + y) + last == x + (y + last);
    }
  }

  /** One more resolution at the end adds what it contributes. */
  lemma LaunchesSnoc(rs: seq<Resolution>, r: Resolution)
    ensures Launches(rs + [r]) == Launches(rs) + Emitted(r)
  {
    assert (rs + [r])[..|rs|] == rs;
  }

  /** The same for the warnings: the log of two runs is the two logs joined. */
  lemma {:induction false} DiagnosticsAppend(first: seq<Resolution>, second: seq<Resolution>)
    ensures Diagnostics(first + second) == Diagnostics(first) + Diagnostics(second)
    decreases |second|
  {
    if second == [] {
      assert first + second == first;
    } else {
      var n := |second| - 1;
      var all := first + second;
      assert all[..|all| - 1] == first + second[..n] && all[|all| - 1] == second[n];
      assert Diagnostics(all) == Diagnostics(first + second[..n]) + second[n].warnings;
      assert Diagnostics(second) == Diagnostics(second[..n]) + second[n].warnings;
      DiagnosticsAppend(first, second[..n]);
      assert (Diagnostics(first) + Diagnostics(second[..n])) + second[n].warnings
        == Diagnostics(first) + (Diagnostics(second[..n]) + second[n].warnings);
    }
  }

  /** Blocks are resolved independently of one another. */
  lemma OutcomesAppend(first: seq<Block>, second: seq<Block>, currentYear: int)
    requires MinYear <= currentYear <= MaxYear
    ensures Outcomes(first + second, currentYear) == Outcomes(first, currentYear) + Outcomes(second, currentYear)
  {
    var all, a, b := Outcomes(first + second, currentYear), Outcomes(first, currentYear), Outcomes(second, currentYear);
    forall i | 0 <= i < |all|
      ensures all[i] == (a + b)[i]
    {
      if i < |first| {
        SameBlockSameOutcome(first + second, i, first, i, currentYear);
      } else {
        SameBlockSameOutcome(first + second, i, second, i - |first|, currentYear);
      }
    }
  }

  /** A block's resolution depends on that block alone, not on where it stands. */
  lemma SameBlockSameOutcome(bs: seq<Block>, i: int, cs: seq<Block>, j: int, currentYear: int)
    requires MinYear <= currentYear <= MaxYear
    requires 0 <= i < |bs| && 0 <= j < |cs| && bs[i] == cs[j]
    ensures Outcomes(bs, currentYear)[i] == Outcomes(cs, currentYear)[j]
  {
  }

  /**
   * Every block yields at most one record, the records come out in the
   * order of the blocks that yield them, and each holds a valid date and
   * time.
   */
  lemma ScheduleFollowsBlocks(blocks: seq<Block>, currentYear: int)
    requires MinYear <= currentYear <= MaxYear
    ensures var rs := Outcomes(blocks, currentYear);
      && |Launches(rs)| == |Origins(rs)| <= |blocks|
      && (forall j, k :: 0 <= j < k < |Origins(rs)| ==> Origins(rs)[j] < Origins(rs)[k])
      && (forall i :: 0 <= i < |blocks| ==>
            (i in Origins(rs) <==> ResolveBlock(blocks[i], currentYear).record.Some?))
      && (forall k :: 0 <= k < |Origins(rs)| ==>
            ResolveBlock(blocks[Origins(rs)[k]], currentYear).record == Some(Launches(rs)[k]))
      && (forall k :: 0 <= k < |Launches(rs)| ==> ValidDateTime(Launches(rs)[k].when))
  {
    var rs := Outcomes(blocks, currentYear);
    LaunchesFollowOrigins(rs);
    OriginsExactly(rs);
    forall k | 0 <= k < |Launches(rs)|
      ensures ValidDateTime(Launches(rs)[k].when)
    {
      assert rs[Origins(rs)[k]].record == Some(Launches(rs)[k]);
    }
  }

  /** Taking one more resolution into account extends the output by what it contributes. */
  lemma PassStep(rs: seq<Resolution>, i: int)
    requires 0 <= i < |rs|
    ensures Launches(rs[..i + 1]) == Launches(rs[..i]) + Emitted(rs[i])
    ensures Diagnostics(rs[..i + 1]) == Diagnostics(rs[..i]) + rs[i].warnings
  {
    assert rs[..i + 1][..i] == rs[..i];
  }

  /** Lines 30-38: the full format first, and only when it raises the yearless one. */
  method ReadDate(dateStr: string, currentYear: int) returns (date: Option<Date>)
    requires MinYear <= currentYear <= MaxYear
    ensures date == ParseDate(dateStr, currentYear)
  {
    var full := ParseFullDate(dateStr);
    if full.Some? {
      return full;
    }
    date := ParseMonthDay(dateStr, currentYear);
  }

  /** Lines 40-47: the time text as it is handed to `strptime`, and what `strptime` makes of it. */
  method ReadTime(timeText: Option<string>) returns (timeStr: string, time: Option<TimeOfDay>)
    ensures timeStr == TimeString(timeText)
    ensures time == ParseTime(timeStr)
  {
    timeStr := "";
    if timeText.Some? {
      timeStr := Strip(timeText.value);
    }
    if timeStr == "" {
      timeStr := DefaultTimeText;
    }
    time := ParseTime(timeStr);
  }

  /**
   * Lines 48-74 once the date has been read: an unread time becomes
   * midnight with a warning, a missing mission or location logs and gives
   * up on the block, and anything else is the record.
   */
  method ResolveRead(rd: Reading, launch: Block) returns (record: Option<LaunchRecord>, logged: seq<Warning>)
    requires ValidReading(rd) && rd.date.Some?
    ensures Resolution(record, logged) == Resolve(rd, launch)
  {
    record, logged := None, [];
    var timeObj: TimeOfDay;
    if rd.time.Some? {
      timeObj := rd.time.value;
    } else {
      logged := logged + [TimeNotRecognized(rd.timeStr)];
      timeObj := Midnight;
    }

    if launch.missionText.None? {
      logged := logged + [MissionNotFound(rd.dateStr)];
      return;
    }
    var mission := Strip(launch.missionText.value);

    if launch.locationText.None? {
      logged := logged + [LocationNotFound(rd.dateStr)];
      return;
    }
    var location := Strip(launch.locationText.value);

    record := Some(LaunchRecord(Combine(rd.date.value, timeObj), mission, location));
  }

  /**
   * The body of the loop of lines 23-76 for one block, with each `continue`
   * returning what the block contributed so far.
   */
  method ResolveNext(launch: Block, currentYear: int) returns (record: Option<LaunchRecord>, logged: seq<Warning>)
    requires MinYear <= currentYear <= MaxYear
    ensures Resolution(record, logged) == ResolveBlock(launch, currentYear)
  {
    var dateStr := NormalizeDate(launch.dateText);
    var date := ReadDate(dateStr, currentYear);
    if date.None? {
      assert Read(launch, currentYear).date.None?;
      return None, [DateNotRecognized(dateStr)];
    }
    var timeStr, time := ReadTime(launch.timeText);
    var rd := Reading(dateStr, date, timeStr, time);
    assert rd == Read(launch, currentYear);
    record, logged := ResolveRead(rd, launch);
  }

  /**
   * The loop of lines 23-76: each block is resolved in turn; a failed date or
   * a missing mission or location logs and moves on to the next block, and
   * every other block appends one record.
   */
  method GetLaunchSchedule(blocks: seq<Block>, currentYear: int)
    returns (launches: seq<LaunchRecord>, warnings: seq<Warning>)
    requires MinYear <= currentYear <= MaxYear
    ensures launches == Launches(Outcomes(blocks, currentYear))
    ensures warnings == Diagnostics(Outcomes(blocks, currentYear))
  {
    ghost var rs := Outcomes(blocks, currentYear);
    launches, warnings := [], [];
    for i := 0 to |blocks|
      invariant launches == Launches(rs[..i])
      invariant warnings == Diagnostics(rs[..i])
    {
      PassStep(rs, i);
      var record, logged := ResolveNext(blocks[i], currentYear);
      warnings := warnings + logged;
      if record.Some? {
        launches := launches + [record.value];
      }
    }
    assert rs[..|blocks|] == rs;
  }
}
