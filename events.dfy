/** The stored appointment occurrences (`Event` rows) and the two loops that change them: the
    create loop that writes one row per generated date-time of a group, and the loop of
    `delete_event` that removes a group's rows dated at or after a cutoff. */
module AgendaEvents {
  import opened Text
  import opened AgendaUtils

  /** One scheduled visit. Every row created for one recurrence request carries the same `groupId`. */
  datatype Event = Event(
    id: nat,
    groupId: nat,
    date: DateTime,
    userId: nat,
    name: string,
    careAddress: string,
    cares: string)

  /** Rows are kept in primary-key order, and primary keys are assigned increasingly. */
  predicate IdsIncreasing(events: seq<Event>)
  {
    forall i, j :: 0 <= i < j < |events| ==> events[i].id < events[j].id
  }

  /** `get_object_or_404(Event, pk=id)`: the row with that primary key, if any. */
  function FindEvent(events: seq<Event>, id: nat): (r: Option<Event>)
    ensures r.Some? ==> r.value in events && r.value.id == id
    ensures r.None? ==> forall e :: e in events ==> e.id != id
    decreases |events|
  {
    if |events| == 0 then None
    else if events[0].id == id then Some(events[0])
    else FindEvent(events[1..], id)
  }

  /** The delete of `delete_event` removes a row when it belongs to the group and is dated at or after
      the cutoff. */
  predicate DeletedBy(e: Event, groupId: nat, cutoff: DateTime)
  {
    e.groupId == groupId && LessEq(cutoff, e.date)
  }

  /** The store once every row of group `groupId` dated at or after `cutoff` is gone: a row survives
      exactly when it is in another group or strictly before the cutoff, and the order of the
      survivors is kept. */
  function RemoveFromCutoff(events: seq<Event>, groupId: nat, cutoff: DateTime): (r: seq<Event>)
    ensures forall e :: e in r <==> e in events && !DeletedBy(e, groupId, cutoff)
    ensures |r| <= |events|
    decreases |events|
  {
    if |events| == 0 then []
    else
      var init, last := events[..|events| - 1], events[|events| - 1];
      assert events == init + [last];
      var rest := RemoveFromCutoff(init, groupId, cutoff);
      if DeletedBy(last, groupId, cutoff) then rest else rest + [last]
  }

  /** Removing rows keeps the survivors in primary-key order. */
  lemma {:induction false} RemoveFromCutoffOrdered(events: seq<Event>, groupId: nat, cutoff: DateTime)
    requires IdsIncreasing(events)
    ensures IdsIncreasing(RemoveFromCutoff(events, groupId, cutoff))
    decreases |events|
  {
    if |events| > 0 {
      var init, last := events[..|events| - 1], events[|events| - 1];
      assert events == init + [last];
      RemoveFromCutoffOrdered(init, groupId, cutoff);
      var rest := RemoveFromCutoff(init, groupId, cutoff);
      if !DeletedBy(last, groupId, cutoff) {
        var r := rest + [last];
        forall i, j | 0 <= i < j < |r| ensures r[i].id < r[j].id {
          if j == |rest| {
            assert rest[i] in init;
            var k :| 0 <= k < |init| && init[k] == rest[i];
            assert events[k] == rest[i];
          } else {
            assert r[i] == rest[i] && r[j] == rest[j];
          }
        }
      }
    }
  }

  /** When the cutoff is at or before every member of the group, the whole group is removed — the
      single-occurrence case deletes the group entirely. */
  lemma CutoffAtFirstRemovesGroup(events: seq<Event>, groupId: nat, cutoff: DateTime)
    requires forall e :: e in events && e.groupId == groupId ==> LessEq(cutoff, e.date)
    ensures forall e :: e in RemoveFromCutoff(events, groupId, cutoff) ==> e.groupId != groupId
  {
  }

  /** The rows the create loop writes for one group: consecutive fresh ids, one per date, all sharing
      the group id and the descriptive fields. */
  function GroupRecords(firstId: nat, dates: seq<DateTime>, groupId: nat, userId: nat,
                        name: string, careAddress: string, cares: string): (r: seq<Event>)
    ensures |r| == |dates|
    ensures IdsIncreasing(r)
    ensures forall k :: 0 <= k < |r| ==>
      r[k].id == firstId + k && r[k].date == dates[k] && r[k].groupId == groupId && r[k].userId == userId
      && r[k].name == name && r[k].careAddress == careAddress && r[k].cares == cares
  {
    seq(|dates|, k requires 0 <= k < |dates| =>
      Event(firstId + k, groupId, dates[k], userId, name, careAddress, cares))
  }

  class EventStore {
    var events: seq<Event>
    var nextId: nat

    ghost predicate Valid()
      reads this
    {
      IdsIncreasing(events) && forall e :: e in events ==> e.id < nextId
    }

    constructor ()
      ensures Valid() && events == [] && nextId == 0
    {
      events := [];
      nextId := 0;
    }

    /** The create loop `for index in range(0, len(dates)): Event.objects.create(...)`: one new row
        per date, in order, with fresh ids. */
    method CreateGroup(dates: seq<DateTime>, groupId: nat, userId: nat,
                       name: string, careAddress: string, cares: string)
      requires Valid()
      modifies this
      ensures Valid()
      ensures events == old(events) + GroupRecords(old(nextId), dates, groupId, userId, name, careAddress, cares)
      ensures nextId == old(nextId) + |dates|
    {
      ghost var created := GroupRecords(nextId, dates, groupId, userId, name, careAddress, cares);
      ghost var before := events;
      var index := 0;
      while index < |dates|
        invariant 0 <= index <= |dates|
        invariant nextId == old(nextId) + index
        invariant events == before + created[..index]
        invariant Valid()
      {
        events := events + [Event(nextId, groupId, dates[index], userId, name, careAddress, cares)];
        assert created[..index + 1] == created[..index] + [created[index]];
        nextId := nextId + 1;
        index := index + 1;
      }
      assert created[..|dates|] == created;
    }

    /** The loop of `delete_event`: every row of the group dated at or after the cutoff is deleted,
        everything else stays as it was. */
    method DeleteFrom(groupId: nat, cutoff: DateTime)
      requires Valid()
      modifies this
      ensures Valid()
      ensures events == RemoveFromCutoff(old(events), groupId, cutoff)
      ensures nextId == old(nextId)
    {
      var kept: seq<Event> := [];
      var i := 0;
      while i < |events|
        invariant 0 <= i <= |events|
        invariant kept == RemoveFromCutoff(events[..i], groupId, cutoff)
      {
        assert events[..i + 1][..i] == events[..i];
        if !DeletedBy(events[i], groupId, cutoff) {
          kept := kept + [events[i]];
        }
        i := i + 1;
      }
      assert events[..|events|] == events;
      RemoveFromCutoffOrdered(events, groupId, cutoff);
      events := kept;
    }
  }
}
