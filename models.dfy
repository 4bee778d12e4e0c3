/** The two persisted entities the day view reads: `Event`, an owner's
    bookable activity, and `Schedule`, one booking of it. */
module Models {

  import opened Instants

  /** A Django user, identified by its unique username. */
  type Username = string

  /** An owner's activity. `duration` and the margins are `DurationField`s,
      in microseconds; Python's `timedelta` may be negative, so they are
      `int`s here. */
  datatype Event = Event(
    owner: Username,
    title: string,
    duration: int,
    marginBefore: int,
    marginAfter: int)

  /** An `Event` created with only the fields the creation form asks for;
      both margins take their default, an empty `timedelta()`. */
  function NewEvent(owner: Username, title: string, duration: int): (e: Event)
    ensures e.owner == owner && e.title == title && e.duration == duration
    ensures e.marginBefore == 0 && e.marginAfter == 0
  {
    Event(owner, title, duration, 0, 0)
  }

  /** A booking of an event, starting at an absolute instant. */
  datatype Schedule = Schedule(event: Event, startTime: int, notes: string) {

    /** The `end_time` property: the start shifted by the event's duration. */
    function EndTime(): int {
      startTime + event.duration
    }
  }

  /** A booking never ends before it starts unless its event has a negative
      duration, and a zero duration makes it an instant. */
  lemma EndTimeOrder(s: Schedule)
    ensures s.event.duration >= 0 <==> s.EndTime() >= s.startTime
    ensures s.event.duration == 0 <==> s.EndTime() == s.startTime
    ensures s.EndTime() - s.startTime == s.event.duration
  {
  }

  /** `end_time` reads only the start and the duration: the margins, the
      title, the owner and the notes play no part in it. */
  lemma EndTimeIgnoresMarginsAndNotes(s: Schedule, t: Schedule)
    requires s.startTime == t.startTime && s.event.duration == t.event.duration
    ensures s.EndTime() == t.EndTime()
  {
  }

  /** Bookings of one event end in the order in which they start. */
  lemma EndTimeMonotone(s: Schedule, t: Schedule)
    requires s.event == t.event
    ensures s.startTime <= t.startTime <==> s.EndTime() <= t.EndTime()
  {
  }
}
