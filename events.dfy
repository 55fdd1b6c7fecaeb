/**
 * `add_event` (launch_schedule_to_google_calendar.py, lines 101-121): the
 * calendar event body built for one launch record before it is handed to
 * the Calendar API. The API call itself is not part of this model.
 */
module Events {
  import opened Wrappers
  import opened Calendar
  import opened Schedule

  datatype ReminderMethod = Email | Popup

  /** One entry of `reminders.overrides`. */
  datatype Reminder = Reminder(channel: ReminderMethod, minutes: int)

  /** The `start` and `end` objects: an ISO 8601 text and a zone name. */
  datatype EventTime = EventTime(dateTime: string, timeZone: string)

  datatype Event = Event(
    summary: string,
    location: string,
    description: string,
    start: EventTime,
    end: EventTime,
    useDefaultReminders: bool,
    overrides: seq<Reminder>)

  /** The `OverflowError` that `datetime + timedelta(hours=1)` raises past the last representable day. */
  datatype EventError = EndOutOfRange

  const Description := "Space launch"

  /** The reminders every event carries: an e-mail a day ahead and a pop-up ten minutes ahead. */
  const Reminders := [Reminder(Email, 24 * 60), Reminder(Popup, 10)]

  /** `dt.isoformat() + 'Z'`: the naive value labelled as UTC. */
  function IsoUtc(dt: DateTime): (s: string)
    requires ValidDateTime(dt)
    ensures |s| == 20 && s[19] == 'Z'
    ensures ParseIsoUtc(s) == Some(dt)
  {
    IsoRoundTrip(dt);
    IsoFormat(dt) + "Z"
  }

  /**
   * The event body for one launch: its mission as the title, its location,
   * a start at the launch time and an end one hour later, both in UTC, and
   * two fixed reminders. `Failure` is the `OverflowError` raised when the
   * end would fall after 9999-12-31.
   */
  function BuildEvent(launch: LaunchRecord): (r: Result<Event, EventError>)
    requires ValidDateTime(launch.when)
    ensures r.Failure? <==> launch.when.date == LastDate && launch.when.time.hour == 23
    ensures r.Success? ==>
      var e := r.value;
      && e.summary == launch.mission
      && e.location == launch.location
      && e.description == "Space launch"
      && e.start.timeZone == "UTC" && e.end.timeZone == "UTC"
      && ParseIsoUtc(e.start.dateTime) == Some(launch.when)
      && ParseIsoUtc(e.end.dateTime).Some?
      && MinuteOrdinal(ParseIsoUtc(e.end.dateTime).value) == MinuteOrdinal(launch.when) + 60
      && !e.useDefaultReminders
      && e.overrides == [Reminder(Email, 1440), Reminder(Popup, 10)]
  {
    match AddHour(launch.when)
    case None => Failure(EndOutOfRange)
    case Some(end) =>
      Success(Event(
        launch.mission,
        launch.location,
        Description,
        EventTime(IsoUtc(launch.when), "UTC"),
        EventTime(IsoUtc(end), "UTC"),
        false,
        Reminders))
  }

  /**
   * The end an event carries is the one valid date and time exactly sixty
   * minutes after the launch: reading it back gives that value and no other.
   */
  lemma EventEndIsOneHourLater(launch: LaunchRecord, later: DateTime)
    requires ValidDateTime(launch.when) && ValidDateTime(later)
    requires MinuteOrdinal(later) == MinuteOrdinal(launch.when) + 60
    ensures BuildEvent(launch).Success?
    ensures ParseIsoUtc(BuildEvent(launch).value.end.dateTime) == Some(later)
  {
    AddHourUnique(launch.when, later);
  }

  /**
   * Two records with different launch times give events with different
   * start texts, so no two launches share a start.
   */
  lemma StartDistinguishesLaunches(a: LaunchRecord, b: LaunchRecord)
    requires ValidDateTime(a.when) && ValidDateTime(b.when)
    ensures BuildEvent(a).Success? && BuildEvent(b).Success? && BuildEvent(a).value.start == BuildEvent(b).value.start
      ==> a.when == b.when
  {
    if BuildEvent(a).Success? && BuildEvent(b).Success? {
      assert ParseIsoUtc(BuildEvent(a).value.start.dateTime) == Some(a.when);
    }
  }
}
