/** The agenda views' own logic: parsing the `"HH:MM"` URL segment, the `delete_event` view around
    the cutoff delete, the slot check that gates `create_events`, and the daily agenda's list of
    booked times (`lapj`). Rendering, redirects and the ORM are abstracted into outcomes and the
    event store. */
module AgendaViews {
  import opened Text
  import opened AgendaUtils
  import opened AgendaEvents

  // ---------------------------------------------------------------------------------------------
  // "HH:MM"

  /** `hour_, minute_ = (int(i) for i in hour.split(":"))`: exactly two pieces, each a number;
      anything else raises ValueError (None). */
  function ParseHourMinute(hour: string): (r: Option<(nat, nat)>)
    ensures r.Some? <==> |Split(hour, ":")| == 2
                         && ParseNat(Split(hour, ":")[0]).Some? && ParseNat(Split(hour, ":")[1]).Some?
  {
    var parts := Split(hour, ":");
    if |parts| != 2 then None
    else match (ParseNat(parts[0]), ParseNat(parts[1]))
      case (Some(h), Some(m)) => Some((h, m))
      case _ => None
  }

  /** Reading back a zero-padded `"HH:MM"` label gives its hour and minute. */
  lemma ParseClockLabel(hour: nat, minute: nat)
    requires hour < 100 && minute < 100
    ensures ParseHourMinute(ClockLabel(hour, minute)) == Some((hour, minute))
  {
    var s := ClockLabel(hour, minute);
    assert s == Pad2(hour) + [':'] + Pad2(minute);
    assert ':' !in Pad2(hour) && ':' !in Pad2(minute);
    SingleCharSafe(Pad2(hour), ':');
    SingleCharSafe(Pad2(minute), ':');
    assert Join([Pad2(hour), Pad2(minute)], ":") == s;
    SplitJoin([Pad2(hour), Pad2(minute)], ":");
    ParsePad2(hour);
    ParsePad2(minute);
  }

  /** The minute of the day a `"HH:MM"` label names, when it parses. */
  function MinuteOfDay(clock: string): (r: Option<nat>)
    ensures r.Some? <==> ParseHourMinute(clock).Some?
    ensures r.Some? ==> r.value == 60 * ParseHourMinute(clock).value.0 + ParseHourMinute(clock).value.1
  {
    match ParseHourMinute(clock)
    case None => None
    case Some((h, m)) => Some(60 * h + m)
  }

  lemma MinuteOfClockLabel(hour: nat, minute: nat)
    requires hour < 100 && minute < 100
    ensures MinuteOfDay(ClockLabel(hour, minute)) == Some(60 * hour + minute)
  {
    ParseClockLabel(hour, minute);
  }

  /** Read back as times, the daily grid starts at 06:00 and each entry is 15 minutes after the previous
      one, so the 68 entries run strictly upwards to 22:45. */
  lemma GridStepsByQuarter(i: nat)
    requires i < 67
    ensures MinuteOfDay(GetDailyAgendaHours()[0]) == Some(360)
    ensures MinuteOfDay(GetDailyAgendaHours()[i]).Some? && MinuteOfDay(GetDailyAgendaHours()[i + 1]).Some?
    ensures MinuteOfDay(GetDailyAgendaHours()[i + 1]).value == MinuteOfDay(GetDailyAgendaHours()[i]).value + 15
  {
    var grid := GetDailyAgendaHours();
    var h, m := 6 + i / 4, (i % 4) * 15;
    var h', m' := 6 + (i + 1) / 4, ((i + 1) % 4) * 15;
    assert grid[0] == ClockLabel(6, 0);
    assert grid[i] == ClockLabel(h, m);
    assert grid[i + 1] == ClockLabel(h', m');
    MinuteOfClockLabel(6, 0);
    MinuteOfClockLabel(h, m);
    MinuteOfClockLabel(h', m');
    QuarterStep(i);
  }

  lemma QuarterStep(i: nat)
    ensures 60 * (6 + (i + 1) / 4) + ((i + 1) % 4) * 15 == 60 * (6 + i / 4) + (i % 4) * 15 + 15
  {
    var q, r := i / 4, i % 4;
    assert i == 4 * q + r && r < 4;
    if r == 3 {
      assert i + 1 == 4 * (q + 1) + 0;
    } else {
      assert i + 1 == 4 * q + (r + 1);
    }
  }

  // ---------------------------------------------------------------------------------------------
  // delete_event

  datatype DeleteResponse =
    | DeleteFailed       // ValueError from the hour segment or from building the cutoff (HTTP 500)
    | EventNotFound      // get_object_or_404 (HTTP 404)
    | ConfirmPage        // GET: the confirmation page, nothing deleted
    | BackToDailyAgenda  // POST: the deletion ran, redirect to the day

  /** `delete_event(request, year, month, day, hour, event_id)`. The hour segment is parsed first,
      then the event is looked up; a GET only renders the confirmation page. A POST deletes, from the
      event's group, every occurrence at or after `datetime(year, month, day, hour_, minute_)`. That
      datetime is built inside the loop, and the group always holds the event itself, so an impossible
      cutoff raises before any row is deleted. */
  method DeleteEvent(store: EventStore, isPost: bool, year: int, month: int, day: int,
                     hour: string, eventId: nat) returns (response: DeleteResponse)
    requires store.Valid()
    modifies store
    ensures store.Valid() && store.nextId == old(store.nextId)
    ensures ParseHourMinute(hour).None? ==> response == DeleteFailed
    ensures ParseHourMinute(hour).Some? && FindEvent(old(store.events), eventId).None? ==>
      response == EventNotFound
    ensures ParseHourMinute(hour).Some? && FindEvent(old(store.events), eventId).Some? ==>
      var (h, m) := ParseHourMinute(hour).value;
      var cutoff := DateTime(year, month, day, h, m);
      var event := FindEvent(old(store.events), eventId).value;
      response == (if !isPost then ConfirmPage else if !ValidDateTime(cutoff) then DeleteFailed
                   else BackToDailyAgenda)
      && (response == BackToDailyAgenda ==>
            store.events == RemoveFromCutoff(old(store.events), event.groupId, cutoff))
    ensures response != BackToDailyAgenda ==> store.events == old(store.events)
  {
    var parsed := ParseHourMinute(hour);
    if parsed.None? {
      return DeleteFailed;
    }
    var (h, m) := parsed.value;
    var found := FindEvent(store.events, eventId);
    if found.None? {
      return EventNotFound;
    }
    if !isPost {
      return ConfirmPage;
    }
    var cutoff := DateTime(year, month, day, h, m);
    if !ValidDateTime(cutoff) {
      return DeleteFailed;
    }
    store.DeleteFrom(found.value.groupId, cutoff);
    response := BackToDailyAgenda;
  }

  // ---------------------------------------------------------------------------------------------
  // create_events

  /** `str(event.date)[11:16]`: the `"HH:MM"` part of a datetime's string form. */
  function SlotLabel(t: DateTime): (r: string)
    requires ValidDateTime(t)
    ensures |r| == 5
  {
    ClockLabel(t.hour, t.minute)
  }

  /** `str(event.date)[11:16] in hours`: the submitted time is on the 15-minute grid from 06:00 to 22:45. */
  function SlotAccepted(t: DateTime): (r: bool)
    requires ValidDateTime(t)
    ensures r <==> 6 <= t.hour <= 22 && t.minute % 15 == 0
  {
    InDailyAgendaHours(t.hour, t.minute);
    SlotLabel(t) in GetDailyAgendaHours()
  }

  datatype CreateResponse =
    | RedirectToToday  // the URL's day is not valid: redirect to the same view for today
    | CreateFailed     // the hour segment or the initial datetime built from it raised ValueError
    | EventForm        // the form page (GET, or a POST whose form is invalid)
    | GroupCreated     // `event.create_events(...)` was called, redirect to the day
    | SlotWarning      // the submitted time is off the grid: nothing created, `warn` is True

  /** The control flow of `create_events(request, year, month, day, hour, event_id)`.
      `existingDate` is the date of the event being edited (None for a new one; its 404 lookup is not
      modelled); `submitted` is the date the valid form put on the event. Only a submitted time on the
      daily grid reaches the creation. */
  function CreateEventsResponse(year: int, month: int, day: int, nowYear: int, hour: string,
                                existingDate: Option<DateTime>, isPost: bool, formValid: bool,
                                submitted: DateTime): (r: CreateResponse)
    requires ValidDateTime(submitted)
    ensures r == GroupCreated <==>
      IsValidYearMonthDay(year, month, day, nowYear) && ParseHourMinute(hour).Some?
      && (existingDate.None? ==>
            ValidDateTime(DateTime(year, month, day, ParseHourMinute(hour).value.0,
                                   ParseHourMinute(hour).value.1)))
      && isPost && formValid && 6 <= submitted.hour <= 22 && submitted.minute % 15 == 0
    ensures r == SlotWarning <==>
      IsValidYearMonthDay(year, month, day, nowYear) && ParseHourMinute(hour).Some?
      && (existingDate.None? ==>
            ValidDateTime(DateTime(year, month, day, ParseHourMinute(hour).value.0,
                                   ParseHourMinute(hour).value.1)))
      && isPost && formValid && !SlotAccepted(submitted)
    ensures !IsValidYearMonthDay(year, month, day, nowYear) ==> r == RedirectToToday
  {
    if !IsValidYearMonthDay(year, month, day, nowYear) then RedirectToToday
    else match ParseHourMinute(hour)
      case None => CreateFailed
      case Some((h, m)) =>
        if existingDate.None? && !ValidDateTime(DateTime(year, month, day, h, m)) then CreateFailed
        else if isPost && formValid then (if SlotAccepted(submitted) then GroupCreated else SlotWarning)
        else EventForm
  }

  // ---------------------------------------------------------------------------------------------
  // daily_agenda: lapj

  /** `Event.objects.filter(date__contains=date(year, month, day), user_id__in=associates)`, in store order. */
  function DayAppointments(events: seq<Event>, associates: seq<nat>, d: Date): (r: seq<Event>)
    ensures forall e :: e in r <==> e in events && DateOf(e.date) == d && e.userId in associates
    decreases |events|
  {
    if |events| == 0 then []
    else
      var rest := DayAppointments(events[1..], associates, d);
      if DateOf(events[0].date) == d && events[0].userId in associates then [events[0]] + rest else rest
  }

  /** `[a.date.strftime("%H:%M") for a in appointments if uid == a.user_id or uid in associates]`. */
  function BookedTimes(appointments: seq<Event>, uid: nat, associates: seq<nat>): (r: seq<string>)
    requires forall k :: 0 <= k < |appointments| ==> ValidDateTime(appointments[k].date)
    ensures |r| <= |appointments|
    ensures uid in associates ==> |r| == |appointments|
    ensures forall s :: s in r ==> exists a :: a in appointments && s == SlotLabel(a.date)
    decreases |appointments|
  {
    if |appointments| == 0 then []
    else
      var rest := BookedTimes(appointments[1..], uid, associates);
      var a := appointments[0];
      if uid == a.userId || uid in associates then [SlotLabel(a.date)] + rest else rest
  }

  /** `lapj`, the booked `"HH:MM"` times of the day's appointments in query order. */
  function Lapj(events: seq<Event>, uid: nat, associates: seq<nat>, d: Date): (r: seq<string>)
    requires forall e :: e in events ==> ValidDateTime(e.date)
    ensures forall s :: s in r ==>
      exists e :: e in events && DateOf(e.date) == d && e.userId in associates && s == SlotLabel(e.date)
  {
    BookedTimes(DayAppointments(events, associates, d), uid, associates)
  }

  /** The labels of a list of appointments. */
  function Labels(appointments: seq<Event>): (r: seq<string>)
    requires forall k :: 0 <= k < |appointments| ==> ValidDateTime(appointments[k].date)
    ensures |r| == |appointments|
    ensures forall k :: 0 <= k < |r| ==> r[k] == SlotLabel(appointments[k].date)
  {
    seq(|appointments|, k requires 0 <= k < |appointments| => SlotLabel(appointments[k].date))
  }

  /** Because the query already keeps only the associates' appointments, `lapj` is all of the day's
      associate appointments when the user is one of the associates, and empty otherwise. */
  lemma LapjIsAllOrNothing(events: seq<Event>, uid: nat, associates: seq<nat>, d: Date)
    requires forall e :: e in events ==> ValidDateTime(e.date)
    ensures Lapj(events, uid, associates, d)
      == if uid in associates then Labels(DayAppointments(events, associates, d)) else []
  {
    var appointments := DayAppointments(events, associates, d);
    BookedTimesOfAssociates(appointments, uid, associates);
  }

  lemma {:induction false} BookedTimesOfAssociates(appointments: seq<Event>, uid: nat, associates: seq<nat>)
    requires forall k :: 0 <= k < |appointments| ==> ValidDateTime(appointments[k].date)
    requires forall k :: 0 <= k < |appointments| ==> appointments[k].userId in associates
    ensures BookedTimes(appointments, uid, associates)
      == if uid in associates then Labels(appointments) else []
    decreases |appointments|
  {
    if |appointments| > 0 {
      BookedTimesOfAssociates(appointments[1..], uid, associates);
      if uid in associates {
        assert Labels(appointments) == [SlotLabel(appointments[0].date)] + Labels(appointments[1..]);
      }
    }
  }
}
