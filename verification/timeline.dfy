/**
 * _generate_timeline_events: every obligation with a concrete deadline becomes a calendar
 * event, and the events are sorted by their ISO date string with Python's stable list.sort.
 */
module Timeline {
  import opened Text
  import opened Obligations
  import opened StableSort

  /** One calendar entry. */
  datatype TimelineEvent = TimelineEvent(
    id: string,
    title: string,
    date: string,
    eventType: string,
    priority: string,
    responsibleParty: string,
    description: string,
    consequences: string)

  /**
   * The clock and the calendar formatting: datetime.now() as an instant, counted in seconds,
   * and strftime('%Y-%m-%d') of an instant.
   */
  datatype Calendar = Calendar(now: int, isoDate: int -> string)

  const TitleLength: nat := 80
  const DescriptionLength: nat := 200
  const Unscheduled: string := "none"

  /** The obligation has a concrete deadline and so appears on the timeline. */
  predicate Scheduled(o: Obligation) {
    o.deadlineType != Unscheduled
  }

  /**
   * Python's _format_deadline_for_calendar: the date of the sort key, or thirty days from now
   * when the key is datetime.max.
   */
  function CalendarDate(o: Obligation, cal: Calendar): string {
    match o.sortKey
    case At(instant) => cal.isoDate(instant)
    case Latest => cal.isoDate(cal.now + ThirtyDays)
  }

  /** The event the loop body builds for one obligation. */
  function EventOf(o: Obligation, cal: Calendar): TimelineEvent {
    TimelineEvent(
      o.id,
      Prefix(o.action, TitleLength),
      CalendarDate(o, cal),
      o.obligationType,
      o.priority,
      o.responsibleParty,
      Prefix(o.context, DescriptionLength),
      o.consequences)
  }

  /** The events of the scheduled obligations, in the obligations' order, before sorting. */
  function ScheduledEvents(obs: seq<Obligation>, cal: Calendar): seq<TimelineEvent> {
    if obs == [] then []
    else
      ScheduledEvents(obs[..|obs| - 1], cal)
        + (if Scheduled(obs[|obs| - 1]) then [EventOf(obs[|obs| - 1], cal)] else [])
  }

  /** The sort key of events.sort(key=lambda x: x["date"]). */
  function DateOf(e: TimelineEvent): string { e.date }

  /** Python's _generate_timeline_events. */
  method GenerateTimelineEvents(obs: seq<Obligation>, cal: Calendar) returns (events: seq<TimelineEvent>)
    ensures events == SortByKey(ScheduledEvents(obs, cal), DateOf)
  {
    var collected: seq<TimelineEvent> := [];
    var i := 0;
    while i < |obs|
      invariant 0 <= i <= |obs|
      invariant collected == ScheduledEvents(obs[..i], cal)
    {
      assert obs[..i + 1][..i] == obs[..i];
      if Scheduled(obs[i]) {
        collected := collected + [EventOf(obs[i], cal)];
      }
      i := i + 1;
    }
    assert obs[..|obs|] == obs;
    var a := new TimelineEvent[|collected|](k requires 0 <= k < |collected| => collected[k]);
    assert a[..] == collected;
    SortInPlace(a, DateOf);
    events := a[..];
  }

  // ----- which obligations appear -----

  /**
   * An event is collected exactly when it is the event of an obligation whose deadline type is
   * not "none".
   */
  lemma {:induction false} ScheduledEventsMembers(obs: seq<Obligation>, cal: Calendar)
    ensures forall e :: e in ScheduledEvents(obs, cal) <==>
      exists k :: 0 <= k < |obs| && Scheduled(obs[k]) && e == EventOf(obs[k], cal)
  {
    if obs != [] {
      var init := obs[..|obs| - 1];
      ScheduledEventsMembers(init, cal);
      forall e ensures e in ScheduledEvents(obs, cal) <==>
        exists k :: 0 <= k < |obs| && Scheduled(obs[k]) && e == EventOf(obs[k], cal)
      {
        if e in ScheduledEvents(init, cal) {
          var k :| 0 <= k < |init| && Scheduled(init[k]) && e == EventOf(init[k], cal);
          assert obs[k] == init[k];
        }
        if exists k :: 0 <= k < |obs| && Scheduled(obs[k]) && e == EventOf(obs[k], cal) {
          var k :| 0 <= k < |obs| && Scheduled(obs[k]) && e == EventOf(obs[k], cal);
          if k < |init| {
            assert init[k] == obs[k];
          }
        }
      }
    }
  }

  /** The number of obligations with a concrete deadline. */
  function ScheduledCount(obs: seq<Obligation>): nat {
    if obs == [] then 0
    else ScheduledCount(obs[..|obs| - 1]) + (if Scheduled(obs[|obs| - 1]) then 1 else 0)
  }

  lemma {:induction false} ScheduledEventsCount(obs: seq<Obligation>, cal: Calendar)
    ensures |ScheduledEvents(obs, cal)| == ScheduledCount(obs) <= |obs|
  {
    if obs != [] {
      ScheduledEventsCount(obs[..|obs| - 1], cal);
    }
  }

  /**
   * The timeline holds one event per obligation with a concrete deadline and no other, in
   * ascending date order, with those sharing a date in the obligations' order; every title is
   * at most 80 characters and every description at most 200.
   */
  lemma {:induction false} TimelineSpec(obs: seq<Obligation>, cal: Calendar, date: string)
    ensures var events := SortByKey(ScheduledEvents(obs, cal), DateOf);
      && |events| == ScheduledCount(obs)
      && SortedByKey(events, DateOf)
      && multiset(events) == multiset(ScheduledEvents(obs, cal))
      && WithKey(events, DateOf, date) == WithKey(ScheduledEvents(obs, cal), DateOf, date)
      && (forall e :: e in events <==>
            exists k :: 0 <= k < |obs| && Scheduled(obs[k]) && e == EventOf(obs[k], cal))
      && (forall e :: e in events ==> |e.title| <= TitleLength && |e.description| <= DescriptionLength)
  {
    var collected := ScheduledEvents(obs, cal);
    var events := SortByKey(collected, DateOf);
    SortByKeySpec(collected, DateOf);
    SortByKeyStable(collected, DateOf, date);
    ScheduledEventsCount(obs, cal);
    ScheduledEventsMembers(obs, cal);
    forall e ensures e in events <==> e in collected {
      assert e in events <==> e in multiset(events);
    }
  }

  /** An obligation with no concrete deadline never reaches the calendar. */
  lemma {:induction false} UnscheduledLeftOut(obs: seq<Obligation>, cal: Calendar)
    requires forall k :: 0 <= k < |obs| ==> obs[k].deadlineType == Unscheduled
    ensures SortByKey(ScheduledEvents(obs, cal), DateOf) == []
  {
    ScheduledEventsCount(obs, cal);
    NoneScheduled(obs);
    SortByKeySpec(ScheduledEvents(obs, cal), DateOf);
  }

  lemma {:induction false} NoneScheduled(obs: seq<Obligation>)
    requires forall k :: 0 <= k < |obs| ==> obs[k].deadlineType == Unscheduled
    ensures ScheduledCount(obs) == 0
  {
    if obs != [] {
      NoneScheduled(obs[..|obs| - 1]);
    }
  }
}
