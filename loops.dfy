/** The occurrence-generation loops written out in the agenda's model tests: one visit a day for a
    number of days, several visits a day a fixed number of hours apart, and several days of several
    visits with the per-day exclusion test; plus the `byhour` / `byweekday` arguments built for the
    weekly recurrence. Each loop is a method proved against a function that says what it collects. */
module OccurrenceLoops {
  import opened Ranges
  import opened Text
  import opened AgendaUtils
  import opened AgendaForms
  import opened AgendaEvents

  /** `[start + timedelta(days=i) for i in offsets]`. */
  function ShiftDays(start: DateTime, offsets: seq<int>): (r: seq<DateTime>)
    requires ValidDateTime(start)
    requires forall k :: 0 <= k < |offsets| ==> offsets[k] >= 0
    ensures |r| == |offsets|
    ensures forall k :: 0 <= k < |r| ==> r[k] == AddDaysT(start, offsets[k])
  {
    seq(|offsets|, k requires 0 <= k < |offsets| => AddDaysT(start, offsets[k]))
  }

  /** `[start + timedelta(hours=h) for h in offsets]`. */
  function ShiftHours(start: DateTime, offsets: seq<int>): (r: seq<DateTime>)
    requires ValidDateTime(start)
    requires forall k :: 0 <= k < |offsets| ==> offsets[k] >= 0
    ensures |r| == |offsets|
    ensures forall k :: 0 <= k < |r| ==> r[k] == AddHours(start, offsets[k])
  {
    seq(|offsets|, k requires 0 <= k < |offsets| => AddHours(start, offsets[k]))
  }

  // ---------------------------------------------------------------------------------------------
  // One visit a day

  /** `total` dates, the k-th one k * delta_day days after the start. */
  function DayStep(start: DateTime, total: nat, deltaDay: nat): seq<DateTime>
    requires ValidDateTime(start)
  {
    seq(total, k requires 0 <= k < total => AddDaysT(start, k * deltaDay))
  }

  /** `for i in range(0, total * delta_day, delta_day): ... date + timedelta(days=i)` creates exactly
      the dates of `DayStep`, in that order. */
  method CollectDayStep(start: DateTime, total: nat, deltaDay: nat) returns (dates: seq<DateTime>)
    requires ValidDateTime(start) && deltaDay > 0
    ensures dates == DayStep(start, total, deltaDay)
  {
    var offsets := Range(0, total * deltaDay, deltaDay);
    dates := [];
    for j := 0 to |offsets|
      invariant dates == ShiftDays(start, offsets[..j])
    {
      dates := dates + [AddDaysT(start, offsets[j])];
    }
    assert offsets[..|offsets|] == offsets;
    RangeOfMultiple(0, total, deltaDay);
  }

  /** With one visit the loop yields exactly the start date. */
  lemma SingleVisitIsStart(start: DateTime, deltaDay: nat)
    requires ValidDateTime(start)
    ensures DayStep(start, 1, deltaDay) == [start]
  {
  }

  // ---------------------------------------------------------------------------------------------
  // Several visits in one day

  /** `total` dates, the k-th one k * delta_hour hours after the start. */
  function HourStep(start: DateTime, total: nat, deltaHour: nat): seq<DateTime>
    requires ValidDateTime(start)
  {
    seq(total, k requires 0 <= k < total => AddHours(start, k * deltaHour))
  }

  /** The hours of `range(0, total * delta_hour, delta_hour)` added to the start are the dates of
      `HourStep`. */
  lemma ShiftHoursOfRange(start: DateTime, total: nat, deltaHour: nat)
    requires ValidDateTime(start) && deltaHour > 0
    ensures ShiftHours(start, Range(0, total * deltaHour, deltaHour)) == HourStep(start, total, deltaHour)
  {
    RangeOfMultiple(0, total, deltaHour);
  }

  /** `for i in range(0, total * delta_hour, delta_hour): ... date + timedelta(hours=i)` creates exactly
      the dates of `HourStep`, in that order. */
  method CollectHourStep(start: DateTime, total: nat, deltaHour: nat) returns (dates: seq<DateTime>)
    requires ValidDateTime(start) && deltaHour > 0
    ensures dates == HourStep(start, total, deltaHour)
  {
    var offsets := Range(0, total * deltaHour, deltaHour);
    dates := [];
    for j := 0 to |offsets|
      invariant dates == ShiftHours(start, offsets[..j])
    {
      dates := dates + [AddHours(start, offsets[j])];
    }
    assert offsets[..|offsets|] == offsets;
    ShiftHoursOfRange(start, total, deltaHour);
  }

  lemma MulLess(a: nat, b: nat, c: nat)
    requires a < b && c > 0
    ensures a * c < b * c
  {
  }

  lemma MulSucc(a: nat, b: nat)
    ensures a * (1 + b) == a + a * b
  {
  }

  /** The visits of one day come out in strictly increasing order. */
  lemma HourStepAscending(start: DateTime, total: nat, deltaHour: nat)
    requires ValidDateTime(start) && deltaHour > 0
    ensures forall i, j :: 0 <= i < j < total ==> Less(HourStep(start, total, deltaHour)[i], HourStep(start, total, deltaHour)[j])
  {
    forall i, j | 0 <= i < j < total
      ensures Less(HourStep(start, total, deltaHour)[i], HourStep(start, total, deltaHour)[j])
    {
      MulLess(i, j, deltaHour);
      AddHoursMonotone(start, i * deltaHour, j * deltaHour);
    }
  }

  /** Two visits twelve hours apart from 2021-12-31 06:00 are at 06:00 and 18:00 that day. */
  lemma TwiceADayExample()
    ensures HourStep(DateTime(2021, 12, 31, 6, 0), 2, 12)
      == [DateTime(2021, 12, 31, 6, 0), DateTime(2021, 12, 31, 18, 0)]
  {
    var start := DateTime(2021, 12, 31, 6, 0);
    assert AddHours(start, 0) == DateTime(2021, 12, 31, 6, 0);
    assert AddHours(start, 12) == DateTime(2021, 12, 31, 18, 0);
  }

  // ---------------------------------------------------------------------------------------------
  // Several days of several visits

  /** `x in [0, 1, 2, 3, 4, 5, 24]`, the values the multi-day comprehension tests `index + date.hour`
      against. */
  predicate Excluded(x: int)
  {
    0 <= x <= 5 || x == 24
  }

  /** One day's `[date + timedelta(hours=hour) for hour in range(...) if index + date.hour not in [...]]`.
      The condition does not mention `hour`, so the comprehension keeps the whole day or none of it. */
  function DayBatch(anchor: DateTime, index: int, total: nat, deltaHour: nat): seq<DateTime>
    requires ValidDateTime(anchor) && deltaHour > 0
  {
    if Excluded(index + anchor.hour) then [] else HourStep(anchor, total, deltaHour)
  }

  /** What the multi-day loop collects from the iteration with day index `index` onwards, when `date`
      is that iteration's anchor and `remaining` iterations are left: this day's batch, then the rest
      from the anchor `delta_day` days later. */
  function MultiDay(date: DateTime, index: int, remaining: nat, total: nat, deltaHour: nat, deltaDay: nat)
    : seq<DateTime>
    requires ValidDateTime(date) && deltaHour > 0
    decreases remaining
  {
    if remaining == 0 then []
    else DayBatch(date, index, total, deltaHour)
         + MultiDay(AddDaysT(date, deltaDay), index + 1, remaining - 1, total, deltaHour, deltaDay)
  }

  /** One step of `MultiDay`: this day's batch, then the rest from the next anchor. */
  lemma MultiDayStep(date: DateTime, index: int, remaining: nat, total: nat, deltaHour: nat, deltaDay: nat)
    requires ValidDateTime(date) && deltaHour > 0 && remaining > 0
    ensures MultiDay(date, index, remaining, total, deltaHour, deltaDay)
      == DayBatch(date, index, total, deltaHour)
         + MultiDay(AddDaysT(date, deltaDay), index + 1, remaining - 1, total, deltaHour, deltaDay)
  {
  }

  /** The batches of the day indices `i` up to `n`, each anchored `i * delta_day` days after `start`:
      the closed form of what the multi-day loop collects. */
  function Batches(start: DateTime, i: nat, n: nat, total: nat, deltaHour: nat, deltaDay: nat)
    : seq<DateTime>
    requires ValidDateTime(start) && deltaHour > 0
    decreases n - i
  {
    if i >= n then []
    else DayBatch(AddDaysT(start, i * deltaDay), i, total, deltaHour)
         + Batches(start, i + 1, n, total, deltaHour, deltaDay)
  }

  lemma BatchesStep(start: DateTime, i: nat, n: nat, total: nat, deltaHour: nat, deltaDay: nat)
    requires ValidDateTime(start) && deltaHour > 0 && i < n
    ensures Batches(start, i, n, total, deltaHour, deltaDay)
      == DayBatch(AddDaysT(start, i * deltaDay), i, total, deltaHour)
         + Batches(start, i + 1, n, total, deltaHour, deltaDay)
  {
  }

  /** Moving the anchor of day `i` by `delta_day` days gives the anchor of day `i + 1`. */
  lemma AnchorStep(start: DateTime, i: nat, deltaDay: nat)
    requires ValidDateTime(start)
    ensures AddDaysT(AddDaysT(start, i * deltaDay), deltaDay) == AddDaysT(start, (i + 1) * deltaDay)
  {
    AddDaysTAdditive(start, i * deltaDay, deltaDay);
    assert i * deltaDay + deltaDay == (i + 1) * deltaDay;
  }

  /** From the anchor of day `i`, the multi-day recursion yields the batches of days `i` .. `n - 1`. */
  lemma {:induction false} MultiDayFromAnchor(start: DateTime, i: nat, n: nat, total: nat, deltaHour: nat, deltaDay: nat)
    requires ValidDateTime(start) && deltaHour > 0 && i <= n
    ensures MultiDay(AddDaysT(start, i * deltaDay), i, n - i, total, deltaHour, deltaDay)
      == Batches(start, i, n, total, deltaHour, deltaDay)
    decreases n - i
  {
    if i < n {
      var anchor, next := AddDaysT(start, i * deltaDay), AddDaysT(start, (i + 1) * deltaDay);
      AnchorStep(start, i, deltaDay);
      MultiDayStep(anchor, i, n - i, total, deltaHour, deltaDay);
      MultiDayFromAnchor(start, i + 1, n, total, deltaHour, deltaDay);
      BatchesStep(start, i, n, total, deltaHour, deltaDay);
    }
  }

  /** The multi-day loop collects, in order, the batch of every day `i < n` anchored at
      `start + i * delta_day` days. */
  lemma MultiDayIsBatches(start: DateTime, n: nat, total: nat, deltaHour: nat, deltaDay: nat)
    requires ValidDateTime(start) && deltaHour > 0
    ensures MultiDay(start, 0, n, total, deltaHour, deltaDay) == Batches(start, 0, n, total, deltaHour, deltaDay)
  {
    AddNothing(start, 0);
    MultiDayFromAnchor(start, 0, n, total, deltaHour, deltaDay);
  }

  /** The comprehension of one iteration of the multi-day loop. */
  method CollectDayBatch(date: DateTime, index: int, total: nat, deltaHour: nat) returns (batch: seq<DateTime>)
    requires ValidDateTime(date) && deltaHour > 0
    ensures batch == DayBatch(date, index, total, deltaHour)
  {
    var hours := Range(0, total * deltaHour, deltaHour);
    ghost var excluded := Excluded(index + date.hour);
    batch := [];
    for j := 0 to |hours|
      invariant excluded ==> batch == []
      invariant !excluded ==> batch == ShiftHours(date, hours[..j])
    {
      if !Excluded(index + date.hour) {
        assert ShiftHours(date, hours[..j + 1]) == ShiftHours(date, hours[..j]) + [AddHours(date, hours[j])];
        batch := batch + [AddHours(date, hours[j])];
      }
    }
    assert hours[..|hours|] == hours;
    ShiftHoursOfRange(date, total, deltaHour);
  }

  /** `dates = []; for index in range(0, number_of_days): dates += [...]; date += timedelta(days=delta_day)`. */
  method CollectMultiDay(start: DateTime, numberOfDays: nat, total: nat, deltaHour: nat, deltaDay: nat)
    returns (dates: seq<DateTime>)
    requires ValidDateTime(start) && deltaHour > 0
    ensures dates == MultiDay(start, 0, numberOfDays, total, deltaHour, deltaDay)
  {
    dates := [];
    var date := start;
    for index := 0 to numberOfDays
      invariant ValidDateTime(date)
      invariant dates + MultiDay(date, index, numberOfDays - index, total, deltaHour, deltaDay)
                == MultiDay(start, 0, numberOfDays, total, deltaHour, deltaDay)
    {
      var batch := CollectDayBatch(date, index, total, deltaHour);
      MultiDayStep(date, index, numberOfDays - index, total, deltaHour, deltaDay);
      dates := dates + batch;
      date := AddDaysT(date, deltaDay);
    }
  }

  /** The number of day indexes from `index` on, over `remaining` iterations, that the exclusion test
      keeps. */
  function KeptDays(startHour: int, index: int, remaining: nat): (r: nat)
    ensures r <= remaining
    decreases remaining
  {
    if remaining == 0 then 0
    else (if Excluded(index + startHour) then 0 else 1) + KeptDays(startHour, index + 1, remaining - 1)
  }

  lemma MultiDayLengthStep(date: DateTime, index: int, remaining: nat, total: nat, deltaHour: nat, deltaDay: nat)
    requires ValidDateTime(date) && deltaHour > 0 && remaining > 0
    ensures AddDaysT(date, deltaDay).hour == date.hour
    ensures |MultiDay(date, index, remaining, total, deltaHour, deltaDay)|
      == (if Excluded(index + date.hour) then 0 else total)
         + |MultiDay(AddDaysT(date, deltaDay), index + 1, remaining - 1, total, deltaHour, deltaDay)|
  {
    MultiDayStep(date, index, remaining, total, deltaHour, deltaDay);
  }

  /** The loop collects `total` dates for every day index the exclusion test keeps. */
  lemma {:induction false} MultiDayLength(date: DateTime, index: int, remaining: nat, total: nat,
                                          deltaHour: nat, deltaDay: nat)
    requires ValidDateTime(date) && deltaHour > 0
    ensures |MultiDay(date, index, remaining, total, deltaHour, deltaDay)| == total * KeptDays(date.hour, index, remaining)
    decreases remaining
  {
    if remaining > 0 {
      var next := AddDaysT(date, deltaDay);
      MultiDayLengthStep(date, index, remaining, total, deltaHour, deltaDay);
      MultiDayLength(next, index + 1, remaining - 1, total, deltaHour, deltaDay);
      LengthOfKeptDay(Excluded(index + date.hour), total,
                      |MultiDay(date, index, remaining, total, deltaHour, deltaDay)|,
                      |MultiDay(next, index + 1, remaining - 1, total, deltaHour, deltaDay)|,
                      KeptDays(date.hour, index, remaining), KeptDays(date.hour, index + 1, remaining - 1));
    }
  }

  /** The arithmetic of one step of `MultiDayLength`. */
  lemma LengthOfKeptDay(excluded: bool, total: nat, length: nat, restLength: nat, kept: nat, restKept: nat)
    requires length == (if excluded then 0 else total) + restLength
    requires restLength == total * restKept
    requires kept == (if excluded then 0 else 1) + restKept
    ensures length == total * kept
  {
    MulSucc(total, restKept);
  }

  /** From a 06:00 start the test reaches the excluded value 24 only at day index 18, so up to 18 days
      nothing is dropped ... */
  lemma {:induction false} NoDayDroppedFromSix(index: nat, remaining: nat)
    requires index + remaining <= 18
    ensures KeptDays(6, index, remaining) == remaining
    decreases remaining
  {
    if remaining > 0 {
      NoDayDroppedFromSix(index + 1, remaining - 1);
    }
  }

  /** ... and the nineteenth day is dropped whole, whatever hours its visits fall on. */
  lemma NineteenthDayDropped()
    ensures KeptDays(6, 0, 19) == 18
  {
    KeptDaysSplit(6, 0, 18, 1);
    NoDayDroppedFromSix(0, 18);
  }

  lemma {:induction false} KeptDaysSplit(startHour: int, index: int, a: nat, b: nat)
    ensures KeptDays(startHour, index, a + b) == KeptDays(startHour, index, a) + KeptDays(startHour, index + a, b)
    decreases a
  {
    if a > 0 {
      KeptDaysSplit(startHour, index + 1, a - 1, b);
    }
  }

  /** A day's batch starts at its anchor. */
  lemma HourStepFromAnchor(anchor: DateTime, total: nat, deltaHour: nat)
    requires ValidDateTime(anchor) && deltaHour > 0
    ensures forall k :: 0 <= k < total ==> LessEq(anchor, HourStep(anchor, total, deltaHour)[k])
  {
    AddNothing(anchor, 0);
    forall k | 0 < k < total ensures Less(anchor, HourStep(anchor, total, deltaHour)[k]) {
      MulLess(0, k, deltaHour);
      AddHoursMonotone(anchor, 0, k * deltaHour);
    }
  }

  /** When a day's visits fit within the gap between days, they all fall before the next anchor. */
  lemma BatchBeforeNextAnchor(anchor: DateTime, total: nat, deltaHour: nat, deltaDay: nat)
    requires ValidDateTime(anchor) && deltaHour > 0 && total * deltaHour <= 24 * deltaDay
    ensures forall k :: 0 <= k < total ==> Less(HourStep(anchor, total, deltaHour)[k], AddDaysT(anchor, deltaDay))
  {
    AddHoursAfterDays(anchor, deltaDay, 0);
    AddNothing(AddDaysT(anchor, deltaDay), 0);
    forall k | 0 <= k < total ensures Less(HourStep(anchor, total, deltaHour)[k], AddDaysT(anchor, deltaDay)) {
      MulLess(k, total, deltaHour);
      AddHoursMonotone(anchor, k * deltaHour, 24 * deltaDay);
    }
  }

  /** When `total * delta_hour <= 24 * delta_day` the collected dates are strictly ascending (and none
      is before the first anchor), which is the order the test reads them back in. */
  lemma {:induction false} MultiDayAscending(date: DateTime, index: int, remaining: nat, total: nat,
                                             deltaHour: nat, deltaDay: nat)
    requires ValidDateTime(date) && deltaHour > 0 && total * deltaHour <= 24 * deltaDay
    ensures var dates := MultiDay(date, index, remaining, total, deltaHour, deltaDay);
      (forall i, j :: 0 <= i < j < |dates| ==> Less(dates[i], dates[j]))
      && forall i :: 0 <= i < |dates| ==> LessEq(date, dates[i])
    decreases remaining
  {
    if remaining > 0 {
      var next := AddDaysT(date, deltaDay);
      MultiDayAscending(next, index + 1, remaining - 1, total, deltaHour, deltaDay);
      AddNothing(date, deltaDay);
      DayBatchWithinDay(date, index, total, deltaHour, deltaDay);
      MultiDayStep(date, index, remaining, total, deltaHour, deltaDay);
      AscendingConcat(date, next, DayBatch(date, index, total, deltaHour),
                      MultiDay(next, index + 1, remaining - 1, total, deltaHour, deltaDay));
    }
  }

  /** A day's batch is ascending, and lies between its anchor and the next one. */
  lemma DayBatchWithinDay(anchor: DateTime, index: int, total: nat, deltaHour: nat, deltaDay: nat)
    requires ValidDateTime(anchor) && deltaHour > 0 && total * deltaHour <= 24 * deltaDay
    ensures var batch := DayBatch(anchor, index, total, deltaHour);
      (forall i, j :: 0 <= i < j < |batch| ==> Less(batch[i], batch[j]))
      && forall i :: 0 <= i < |batch| ==> LessEq(anchor, batch[i]) && Less(batch[i], AddDaysT(anchor, deltaDay))
  {
    if !Excluded(index + anchor.hour) {
      HourStepAscending(anchor, total, deltaHour);
      HourStepFromAnchor(anchor, total, deltaHour);
      BatchBeforeNextAnchor(anchor, total, deltaHour, deltaDay);
    }
  }

  /** An ascending run before a pivot followed by an ascending run from the pivot on is ascending. */
  lemma AscendingConcat(first: DateTime, pivot: DateTime, batch: seq<DateTime>, rest: seq<DateTime>)
    requires LessEq(first, pivot)
    requires forall i, j :: 0 <= i < j < |batch| ==> Less(batch[i], batch[j])
    requires forall i :: 0 <= i < |batch| ==> LessEq(first, batch[i]) && Less(batch[i], pivot)
    requires forall i, j :: 0 <= i < j < |rest| ==> Less(rest[i], rest[j])
    requires forall i :: 0 <= i < |rest| ==> LessEq(pivot, rest[i])
    ensures var dates := batch + rest;
      (forall i, j :: 0 <= i < j < |dates| ==> Less(dates[i], dates[j]))
      && forall i :: 0 <= i < |dates| ==> LessEq(first, dates[i])
  {
    var dates := batch + rest;
    forall i | 0 <= i < |rest| ensures LessEq(first, rest[i]) {
      if first != pivot && pivot != rest[i] {
        LessTransitive(first, pivot, rest[i]);
      }
    }
    forall a, b | 0 <= a < |batch| <= b < |dates| ensures Less(dates[a], dates[b]) {
      assert dates[a] == batch[a] && dates[b] == rest[b - |batch|];
      if pivot != rest[b - |batch|] {
        LessTransitive(batch[a], pivot, rest[b - |batch|]);
      }
    }
    forall a, b | 0 <= a < b < |dates| ensures Less(dates[a], dates[b]) {
      if b < |batch| {
        assert dates[a] == batch[a] && dates[b] == batch[b];
      } else if a >= |batch| {
        assert dates[a] == rest[a - |batch|] && dates[b] == rest[b - |batch|];
      }
    }
    forall i | 0 <= i < |dates| ensures LessEq(first, dates[i]) {
      if i < |batch| {
        assert dates[i] == batch[i];
      } else {
        assert dates[i] == rest[i - |batch|];
      }
    }
  }

  /** Three visits six hours apart from 06:00 on any day. */
  lemma ThreeVisitsFromSix(d: DateTime)
    requires ValidDateTime(d) && d.hour == 6
    ensures HourStep(d, 3, 6) == [d, d.(hour := 12), d.(hour := 18)]
  {
    var r := HourStep(d, 3, 6);
    assert r[0] == AddHours(d, 0);
    assert r[1] == AddHours(d, 6);
    assert r[2] == AddHours(d, 12);
  }

  /** Three consecutive days of three visits six hours apart from 2021-12-31 06:00. */
  lemma ThreeDaysExample()
    ensures MultiDay(DateTime(2021, 12, 31, 6, 0), 0, 3, 3, 6, 1) == [
      DateTime(2021, 12, 31, 6, 0), DateTime(2021, 12, 31, 12, 0), DateTime(2021, 12, 31, 18, 0),
      DateTime(2022, 1, 1, 6, 0), DateTime(2022, 1, 1, 12, 0), DateTime(2022, 1, 1, 18, 0),
      DateTime(2022, 1, 2, 6, 0), DateTime(2022, 1, 2, 12, 0), DateTime(2022, 1, 2, 18, 0)]
  {
    var day0, day1, day2 := DateTime(2021, 12, 31, 6, 0), DateTime(2022, 1, 1, 6, 0), DateTime(2022, 1, 2, 6, 0);
    assert AddDays(Date(2021, 12, 31), 1) == Date(2022, 1, 1);
    assert AddDays(Date(2022, 1, 1), 1) == Date(2022, 1, 2);
    assert AddDaysT(day0, 1) == day1;
    assert AddDaysT(day1, 1) == day2;
    ThreeVisitsFromSix(day0);
    ThreeVisitsFromSix(day1);
    ThreeVisitsFromSix(day2);
    assert MultiDay(day2, 2, 1, 3, 6, 1) == HourStep(day2, 3, 6);
    assert MultiDay(day1, 1, 2, 3, 6, 1) == HourStep(day1, 3, 6) + HourStep(day2, 3, 6);
  }

  /** The test's two loops together: collect the multi-day dates, then create one row per date in the
      group. */
  method CreateMultiDayGroup(store: EventStore, start: DateTime, numberOfDays: nat, total: nat,
                             deltaHour: nat, deltaDay: nat, groupId: nat, userId: nat,
                             name: string, careAddress: string, cares: string)
    requires store.Valid() && ValidDateTime(start) && deltaHour > 0
    modifies store
    ensures store.Valid()
    ensures store.events == old(store.events) + GroupRecords(old(store.nextId),
      MultiDay(start, 0, numberOfDays, total, deltaHour, deltaDay), groupId, userId, name, careAddress, cares)
  {
    var dates := CollectMultiDay(start, numberOfDays, total, deltaHour, deltaDay);
    store.CreateGroup(dates, groupId, userId, name, careAddress, cares);
  }

  // ---------------------------------------------------------------------------------------------
  // The weekly recurrence's arguments

  /** `by_hour()`: `range(date.hour, (dh + 1 if dh > 3 else dh + 2) * total, dh)`. */
  function ByHour(startHour: int, deltaHour: nat, total: nat): (r: seq<int>)
    requires deltaHour > 0
    ensures forall k :: 0 <= k < |r| ==> r[k] == startHour + k * deltaHour
    ensures forall k :: 0 <= k < |r| ==> r[k] < (if deltaHour > 3 then deltaHour + 1 else deltaHour + 2) * total
    ensures |r| > 0 ==> r[|r| - 1] + deltaHour >= (if deltaHour > 3 then deltaHour + 1 else deltaHour + 2) * total
    ensures |r| == 0 <==> startHour >= (if deltaHour > 3 then deltaHour + 1 else deltaHour + 2) * total
  {
    var ajust := 1;
    var stop := (if deltaHour > 3 then deltaHour + ajust else deltaHour + ajust + 1) * total;
    RangeElements(startHour, stop, deltaHour);
    if startHour < stop then RangeComplete(startHour, stop, deltaHour); Range(startHour, stop, deltaHour)
    else Range(startHour, stop, deltaHour)
  }

  /** Three visits six hours apart from 06:00 give the hours 6, 12 and 18. */
  lemma ByHourExample()
    ensures ByHour(6, 6, 3) == [6, 12, 18]
  {
    assert Range(6, 21, 6) == [6, 12, 18];
  }

  /** `int()` of every piece, or None when one of them is not a number. */
  function ParseAll(pieces: seq<string>): (r: Option<seq<nat>>)
    ensures r.Some? <==> forall k :: 0 <= k < |pieces| ==> ParseNat(pieces[k]).Some?
    ensures r.Some? ==> |r.value| == |pieces|
    ensures r.Some? ==> forall k :: 0 <= k < |pieces| ==> ParseNat(pieces[k]) == Some(r.value[k])
    decreases |pieces|
  {
    if |pieces| == 0 then Some([])
    else match (ParseNat(pieces[0]), ParseAll(pieces[1..]))
      case (Some(n), Some(rest)) => Some([n] + rest)
      case _ => None
  }

  /** `by_week_day()`: `tuple([int(d) for d in day_per_week.split(", ")])`. */
  function ByWeekDay(dayPerWeek: string): (r: Option<seq<nat>>)
    ensures r.Some? <==> forall k :: 0 <= k < |Split(dayPerWeek, ", ")| ==> ParseNat(Split(dayPerWeek, ", ")[k]).Some?
    ensures r.Some? ==> |r.value| == |Split(dayPerWeek, ", ")| >= 1
    ensures dayPerWeek == "" ==> r.None?
  {
    assert dayPerWeek == "" ==> Split(dayPerWeek, ", ") == [""];
    ParseAll(Split(dayPerWeek, ", "))
  }

  lemma ParseDayCode(n: nat)
    requires n < 7
    ensures ParseNat(DaysCodes[n]) == Some(n)
  {
    assert DaysCodes[n] == [DigitChar(n)];
    assert DaysCodes[n][..0] == [];
  }

  /** A stored weekday selection parses back to the weekday numbers of the ticked boxes, in order. */
  lemma ByWeekDayOfCleaned(selected: seq<string>)
    requires |selected| > 0 && Chosen(selected, DaysCodes)
    ensures ByWeekDay(CleanDayPerWeek(selected)).Some?
    ensures |ByWeekDay(CleanDayPerWeek(selected)).value| == |selected|
    ensures forall k :: 0 <= k < |selected| ==>
      ByWeekDay(CleanDayPerWeek(selected)).value[k] < 7
      && DaysCodes[ByWeekDay(CleanDayPerWeek(selected)).value[k]] == selected[k]
  {
    assert Split(CleanDayPerWeek(selected), ", ") == selected;
    forall k | 0 <= k < |selected|
      ensures exists n :: 0 <= n < 7 && DaysCodes[n] == selected[k] && ParseNat(selected[k]) == Some(n)
    {
      var n :| 0 <= n < |DaysCodes| && DaysCodes[n] == selected[k];
      ParseDayCode(n);
    }
  }

  lemma SplitWeekDays()
    ensures Split("0, 2, 4", ", ") == ["0", "2", "4"]
  {
    var selected := ["0", "2", "4"];
    assert Join(selected, ", ") == "0, 2, 4";
    forall k | 0 <= k < 3 ensures SeparatorSafe(selected[k], ", ") {
      CommaFreeHasNoCommaSpace(selected[k]);
      CommaSpaceSafe(selected[k]);
    }
    SplitJoin(selected, ", ");
  }

  lemma ParseWeekDays()
    ensures ParseAll(["0", "2", "4"]) == Some([0, 2, 4])
  {
    assert DaysCodes[0] == "0" && DaysCodes[2] == "2" && DaysCodes[4] == "4";
    ParseDayCode(0);
    ParseDayCode(2);
    ParseDayCode(4);
    assert ParseAll(["0", "2", "4"]).value == [0, 2, 4];
  }

  /** The test's weekday string "0, 2, 4" (Monday, Wednesday, Friday) gives (0, 2, 4). */
  lemma ByWeekDayExample()
    ensures ByWeekDay("0, 2, 4") == Some([0, 2, 4])
  {
    SplitWeekDays();
    ParseWeekDays();
  }
}
