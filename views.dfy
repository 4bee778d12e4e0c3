/** The day view of an owner's calendar (`ScheduleView`): which bookings are
    fetched for a day, in what order, and how they are spread over the 48
    half-hour buckets of the page. */
module Views {

  import opened Instants
  import opened Models

  datatype Option<T> = None | Some(value: T)

  /** The requested day, as two UTC instants: the day's first microsecond
      (00:00:00.000000 in the display zone) and its last one
      (23:59:59.999999). The day is usually 24 hours long, but a change of
      clocks in the display zone makes it 23 or 25, so nothing ties the two
      bounds here. */
  datatype Day = Day(begins: int, ends: int)

  // ---------------------------------------------------------------------
  // get_queryset: the bookings of the day
  // ---------------------------------------------------------------------

  /** The filter of the query: the booking's event belongs to the owner, and
      its start lies in the closed window from the day's first instant less
      the event's duration to the day's last instant. */
  predicate SelectedForDay(s: Schedule, owner: Username, day: Day) {
    && s.event.owner == owner
    && s.startTime >= day.begins - s.event.duration
    && s.startTime <= day.ends
  }

  /** The window selects exactly the bookings whose closed interval from
      start to end meets the day: a booking that ends at the very first
      instant of the day, or starts at its very last, is still selected. */
  lemma SelectedIffTouchesDay(s: Schedule, owner: Username, day: Day)
    ensures SelectedForDay(s, owner, day) <==>
      s.event.owner == owner && s.EndTime() >= day.begins && s.startTime <= day.ends
  {
  }

  /** The bookings of `all` that pass the filter, each as often as it occurs. */
  function Selected(all: seq<Schedule>, owner: Username, day: Day): (r: seq<Schedule>)
    ensures forall x :: multiset(r)[x] == if SelectedForDay(x, owner, day) then multiset(all)[x] else 0
  {
    if all == [] then []
    else
      assert all == [all[0]] + all[1..];
      (if SelectedForDay(all[0], owner, day) then [all[0]] else []) + Selected(all[1..], owner, day)
  }

  predicate SortedByStart(q: seq<Schedule>) {
    forall i, j :: 0 <= i < j < |q| ==> q[i].startTime <= q[j].startTime
  }

  /** Places `x` into a list sorted by start, before the first booking that
      does not start earlier. */
  function InsertByStart(x: Schedule, q: seq<Schedule>): (r: seq<Schedule>)
    requires SortedByStart(q)
    ensures SortedByStart(r)
    ensures multiset(r) == multiset(q) + multiset{x}
    ensures |r| == |q| + 1 && (r[0] == x || (q != [] && r[0] == q[0]))
  {
    if q == [] || x.startTime <= q[0].startTime then [x] + q
    else
      assert q == [q[0]] + q[1..];
      var rest := InsertByStart(x, q[1..]);
      assert forall j :: 0 <= j < |rest| ==> rest[0].startTime <= rest[j].startTime;
      [q[0]] + rest
  }

  /** `order_by('start_time')`. */
  function SortByStart(q: seq<Schedule>): (r: seq<Schedule>)
    ensures SortedByStart(r)
    ensures multiset(r) == multiset(q)
  {
    if q == [] then []
    else
      assert q == [q[0]] + q[1..];
      InsertByStart(q[0], SortByStart(q[1..]))
  }

  /** The query of the day view. `users` holds the usernames that exist;
      an unknown username is answered with "not found" (`None`, the
      `Http404` of `get_object_or_404`). Otherwise the result holds every
      booking of `all` that passes the filter, as often as it occurs there,
      and no other, ordered by start. */
  function GetQueryset(all: seq<Schedule>, users: set<Username>, username: Username, day: Day)
    : (r: Option<seq<Schedule>>)
    ensures r.None? <==> username !in users
    ensures r.Some? ==> SortedByStart(r.value)
    ensures r.Some? ==> forall x ::
      multiset(r.value)[x] == if SelectedForDay(x, username, day) then multiset(all)[x] else 0
  {
    if username !in users then None
    else Some(SortByStart(Selected(all, username, day)))
  }

  /** Membership in the query's answer is the filter and nothing else. */
  lemma QuerysetIsTheWindow(all: seq<Schedule>, users: set<Username>, username: Username, day: Day, x: Schedule)
    requires username in users
    ensures GetQueryset(all, users, username, day).Some?
    ensures x in GetQueryset(all, users, username, day).value <==>
      x in all && x.event.owner == username && x.EndTime() >= day.begins && x.startTime <= day.ends
  {
    var r := GetQueryset(all, users, username, day).value;
    assert x in r <==> x in multiset(r);
    assert x in all <==> x in multiset(all);
  }

  // ---------------------------------------------------------------------
  // get_context_data: the 48 rows of the page
  // ---------------------------------------------------------------------

  /** `time_list`: the starts of the 48 half-hour rows of the page. */
  function TimeList(dayBegins: int): seq<int> {
    seq(48, i => dayBegins + i * HALF_HOUR)
  }

  /** The rows start at the day's first instant, follow each other by half
      an hour, rise strictly and stay within 24 hours of the start. */
  lemma TimeListShape(dayBegins: int)
    ensures |TimeList(dayBegins)| == 48 && TimeList(dayBegins)[0] == dayBegins
    ensures forall i :: 0 <= i < 48 ==> TimeList(dayBegins)[i] == dayBegins + i * HALF_HOUR
    ensures forall i :: 0 <= i < 47 ==> TimeList(dayBegins)[i + 1] == TimeList(dayBegins)[i] + HALF_HOUR
    ensures forall i, j :: 0 <= i < j < 48 ==> TimeList(dayBegins)[i] < TimeList(dayBegins)[j]
    ensures forall i :: 0 <= i < 48 ==> dayBegins <= TimeList(dayBegins)[i] < dayBegins + DAY
  {
  }

  // ---------------------------------------------------------------------
  // get_context_data: the buckets a booking occupies
  // ---------------------------------------------------------------------

  /** The first bucket the loop writes for a booking: the top of the
      booking's start hour, raised to the day's first instant when it lies
      before it, and only THEN moved on by half an hour when the start is at
      least half an hour past its hour. */
  function FirstBucket(s: Schedule, dayBegins: int): int {
    var clipped := Max(FloorToHour(s.startTime), dayBegins);
    if PastHour(s.startTime) >= HALF_HOUR then clipped + HALF_HOUR else clipped
  }

  /** The bound of the inner loop: the booking's end, cut at the day's end. */
  function BucketBound(s: Schedule, dayEnds: int): int {
    Min(s.EndTime(), dayEnds)
  }

  /** Whether the inner loop, run for booking `s`, writes key `k`: the keys
      are the first bucket and its half-hour successors below the bound. */
  predicate Covers(s: Schedule, day: Day, k: int) {
    var first := FirstBucket(s, day.begins);
    first <= k < BucketBound(s, day.ends) && (k - first) % HALF_HOUR == 0
  }

  /** The `m`-th key the loop reaches for booking `s`. */
  function BucketAt(s: Schedule, dayBegins: int, m: nat): int {
    FirstBucket(s, dayBegins) + m * HALF_HOUR
  }

  /** The index of the last booking of `q` that writes key `k`, if any. */
  function LastWriter(q: seq<Schedule>, day: Day, k: int): (w: Option<nat>)
    ensures w.Some? ==> w.value < |q| && Covers(q[w.value], day, k)
    ensures w.Some? ==> forall j :: w.value < j < |q| ==> !Covers(q[j], day, k)
    ensures w.None? ==> forall j :: 0 <= j < |q| ==> !Covers(q[j], day, k)
  {
    if q == [] then None
    else if Covers(q[|q| - 1], day, k) then Some(|q| - 1)
    else LastWriter(q[..|q| - 1], day, k)
  }

  /** `d` is the occupancy map of bookings `q` taken in order: a key is
      present exactly when some booking writes it, and it holds the title of
      the last booking that does. */
  ghost predicate IsOccupancy(d: map<int, string>, q: seq<Schedule>, day: Day) {
    forall k ::
      && (k in d <==> LastWriter(q, day, k).Some?)
      && (k in d ==> d[k] == q[LastWriter(q, day, k).value].event.title)
  }

  /** Two keys that the same booking's loop reaches and that lie less than
      half an hour apart are the same key. */
  lemma {:induction false} SameStep(first: int, c: int, k: int)
    requires (c - first) % HALF_HOUR == 0 && (k - first) % HALF_HOUR == 0
    requires c <= k < c + HALF_HOUR
    ensures k == c
  {
    var a, b := (c - first) / HALF_HOUR, (k - first) / HALF_HOUR;
    assert c - first == a * HALF_HOUR;
    assert k - first == b * HALF_HOUR;
  }

  /** The state of the map while the inner loop runs for booking `s`, after
      the bookings `done`, with every key of `s` below `upTo` written. */
  ghost predicate PaintedBelow(d: map<int, string>, done: seq<Schedule>, s: Schedule, day: Day, upTo: int) {
    forall k ::
      && (k in d <==> LastWriter(done, day, k).Some? || (Covers(s, day, k) && k < upTo))
      && (k in d ==>
            d[k] == if Covers(s, day, k) && k < upTo then s.event.title
                    else done[LastWriter(done, day, k).value].event.title)
  }

  /** Before its first step the inner loop has written nothing of `s`. */
  lemma PaintStart(d: map<int, string>, done: seq<Schedule>, s: Schedule, day: Day)
    requires IsOccupancy(d, done, day)
    ensures PaintedBelow(d, done, s, day, FirstBucket(s, day.begins))
  {
  }

  /** One step of the inner loop writes the current key and moves the
      written prefix on by half an hour. */
  lemma PaintStep(d: map<int, string>, done: seq<Schedule>, s: Schedule, day: Day, current: int)
    requires PaintedBelow(d, done, s, day, current)
    requires Covers(s, day, current)
    ensures PaintedBelow(d[current := s.event.title], done, s, day, current + HALF_HOUR)
  {
    forall k | Covers(s, day, k) && current <= k < current + HALF_HOUR
      ensures k == current
    {
      SameStep(FirstBucket(s, day.begins), current, k);
    }
  }

  /** Appending a booking makes it the last writer of the keys it covers
      and leaves the last writer of every other key alone. */
  lemma LastWriterSnoc(q: seq<Schedule>, s: Schedule, day: Day, k: int)
    ensures LastWriter(q + [s], day, k) == if Covers(s, day, k) then Some(|q|) else LastWriter(q, day, k)
  {
    assert (q + [s])[..|q|] == q;
  }

  /** Once the inner loop reaches the bound the map is the occupancy map of
      `done` followed by `s`. */
  lemma PaintDone(d: map<int, string>, done: seq<Schedule>, s: Schedule, day: Day, current: int)
    requires PaintedBelow(d, done, s, day, current)
    requires current >= BucketBound(s, day.ends)
    ensures IsOccupancy(d, done + [s], day)
  {
    forall k
      ensures LastWriter(done + [s], day, k) == if Covers(s, day, k) then Some(|done|) else LastWriter(done, day, k)
    {
      LastWriterSnoc(done, s, day, k);
    }
  }

  /** The body of `get_context_data` that computes `time_list` and
      `schedule_dict` from the day's bookings `scheduleList`: for each
      booking in turn, every key from its first bucket up to its bound is
      (over)written with the event's title. */
  method GetContextData(scheduleList: seq<Schedule>, day: Day)
    returns (timeList: seq<int>, scheduleDict: map<int, string>)
    ensures timeList == TimeList(day.begins)
    ensures IsOccupancy(scheduleDict, scheduleList, day)
  {
    timeList := seq(48, i => day.begins + i * HALF_HOUR);
    scheduleDict := map[];
    for i := 0 to |scheduleList|
      invariant IsOccupancy(scheduleDict, scheduleList[..i], day)
    {
      var s := scheduleList[i];
      var begin := FirstBucket(s, day.begins);
      var current := begin;
      PaintStart(scheduleDict, scheduleList[..i], s, day);
      while Min(s.EndTime(), day.ends) > current
        invariant begin <= current && (current - begin) % HALF_HOUR == 0
        invariant PaintedBelow(scheduleDict, scheduleList[..i], s, day, current)
        decreases Min(s.EndTime(), day.ends) - current
      {
        PaintStep(scheduleDict, scheduleList[..i], s, day, current);
        scheduleDict := scheduleDict[current := s.event.title];
        current := current + HALF_HOUR;
      }
      PaintDone(scheduleDict, scheduleList[..i], s, day, current);
      assert scheduleList[..i] + [s] == scheduleList[..i + 1];
    }
    assert scheduleList[..|scheduleList|] == scheduleList;
  }

  // ---------------------------------------------------------------------
  // Properties of the occupancy map
  // ---------------------------------------------------------------------

  /** The occupancy map of a list of bookings is unique, so computing it
      twice from the same bookings and day gives the same map. */
  lemma OccupancyUnique(d1: map<int, string>, d2: map<int, string>, q: seq<Schedule>, day: Day)
    requires IsOccupancy(d1, q, day) && IsOccupancy(d2, q, day)
    ensures d1 == d2
  {
    forall k
      ensures (k in d1 <==> k in d2) && (k in d1 ==> d1[k] == d2[k])
    {
      var w := LastWriter(q, day, k);
    }
    assert d1.Keys == d2.Keys;
  }

  /** Last write wins: a key written by booking `j` and by no later booking
      holds the title of booking `j`. */
  lemma LastWriteWins(d: map<int, string>, q: seq<Schedule>, day: Day, j: nat, k: int)
    requires IsOccupancy(d, q, day)
    requires j < |q| && Covers(q[j], day, k)
    requires forall j' :: j < j' < |q| ==> !Covers(q[j'], day, k)
    ensures k in d && d[k] == q[j].event.title
  {
    var w := LastWriter(q, day, k);
    assert w.Some?;
    assert w.value == j;
  }

  /** A key that no booking writes stays absent: its bucket is free. */
  lemma UncoveredStaysFree(d: map<int, string>, q: seq<Schedule>, day: Day, k: int)
    requires IsOccupancy(d, q, day)
    requires forall j :: 0 <= j < |q| ==> !Covers(q[j], day, k)
    ensures k !in d
  {
    assert LastWriter(q, day, k).None?;
  }

  /** The first bucket never lies before the day, nor before the half hour
      in which the booking starts. */
  lemma {:induction false} FirstBucketLowerBounds(s: Schedule, dayBegins: int)
    ensures FirstBucket(s, dayBegins) >= dayBegins
    ensures FirstBucket(s, dayBegins) >= FloorToHalfHour(s.startTime)
  {
    HourThenBumpIsHalfHourFloor(s.startTime);
  }

  /** Every bucket a booking writes lies within the day and meets the
      booking: it starts before the booking ends, and the booking starts
      before the bucket's half hour is over. */
  lemma {:induction false} CoveredBucketMeetsBooking(s: Schedule, day: Day, k: int)
    requires Covers(s, day, k)
    ensures day.begins <= k < day.ends
    ensures k < s.EndTime() && s.startTime < k + HALF_HOUR
  {
    FirstBucketLowerBounds(s, day.begins);
  }

  /** Every key of the occupancy map lies in the day, from its first instant
      to before its last, and its bucket meets the booking whose title it
      holds. */
  lemma {:induction false} OccupancyKeysBounded(d: map<int, string>, q: seq<Schedule>, day: Day)
    requires IsOccupancy(d, q, day)
    ensures forall k :: k in d ==> day.begins <= k < day.ends
    ensures forall k :: k in d ==>
      var w := LastWriter(q, day, k).value;
      d[k] == q[w].event.title && k < q[w].EndTime() && q[w].startTime < k + HALF_HOUR
  {
    forall k | k in d
      ensures day.begins <= k < day.ends
      ensures k < q[LastWriter(q, day, k).value].EndTime()
      ensures q[LastWriter(q, day, k).value].startTime < k + HALF_HOUR
    {
      CoveredBucketMeetsBooking(q[LastWriter(q, day, k).value], day, k);
    }
  }

  /** The keys one booking writes are exactly its first bucket and its
      half-hour successors, as long as they stay below the booking's end
      and the day's end. */
  lemma {:induction false} CoveredKeysAreSteps(s: Schedule, day: Day, k: int)
    ensures Covers(s, day, k) <==>
      exists m: nat :: k == BucketAt(s, day.begins, m) && k < BucketBound(s, day.ends)
  {
    var first := FirstBucket(s, day.begins);
    if Covers(s, day, k) {
      var m: nat := (k - first) / HALF_HOUR;
      assert k == BucketAt(s, day.begins, m);
    }
    if exists m: nat :: k == BucketAt(s, day.begins, m) && k < BucketBound(s, day.ends) {
      var m: nat :| k == BucketAt(s, day.begins, m) && k < BucketBound(s, day.ends);
      HalfHourRemainder(k - first, m, 0);
    }
  }

  /** For a single booking the map holds its title at exactly its steps
      below the bound, and at nothing else. */
  lemma {:induction false} SingleBookingOccupancy(d: map<int, string>, s: Schedule, day: Day)
    requires IsOccupancy(d, [s], day)
    ensures forall m: nat :: BucketAt(s, day.begins, m) in d <==> BucketAt(s, day.begins, m) < BucketBound(s, day.ends)
    ensures forall k :: k in d ==> d[k] == s.event.title && exists m: nat :: k == BucketAt(s, day.begins, m)
  {
    forall m: nat
      ensures BucketAt(s, day.begins, m) in d <==> BucketAt(s, day.begins, m) < BucketBound(s, day.ends)
    {
      CoveredKeysAreSteps(s, day, BucketAt(s, day.begins, m));
    }
    forall k | k in d
      ensures d[k] == s.event.title && exists m: nat :: k == BucketAt(s, day.begins, m)
    {
      CoveredKeysAreSteps(s, day, k);
    }
  }

  /** A booking that ends no later than its first bucket writes nothing. */
  lemma EndsBeforeFirstBucketWritesNothing(s: Schedule, day: Day, k: int)
    requires s.EndTime() <= FirstBucket(s, day.begins)
    ensures !Covers(s, day, k)
  {
  }

  /** A booking that ends exactly at the day's first instant passes the
      closed filter of the query and still writes no bucket. */
  lemma {:induction false} EndingAtDayStartSelectedButEmpty(s: Schedule, day: Day, k: int)
    requires s.EndTime() == day.begins && s.startTime <= day.ends
    ensures SelectedForDay(s, s.event.owner, day)
    ensures !Covers(s, day, k)
  {
    FirstBucketLowerBounds(s, day.begins);
  }

  /** The half-hour step is taken after the clip to the day. On a day that
      starts on a UTC hour boundary, a booking that starts at 23:45 the day
      before gets its first key at 00:30: the 00:00 bucket stays free
      although the booking runs into it, and 00:30 is written when the
      booking runs past it. */
  lemma {:induction false} StepAfterClipSkipsMidnight(s: Schedule, day: Day)
    requires day.begins % HOUR == 0
    requires s.startTime == day.begins - 15 * MINUTE && s.EndTime() > day.begins
    ensures FirstBucket(s, day.begins) == day.begins + HALF_HOUR
    ensures !Covers(s, day, day.begins)
    ensures s.startTime < day.begins < s.EndTime()
    ensures s.EndTime() > day.begins + HALF_HOUR && day.ends > day.begins + HALF_HOUR ==>
      Covers(s, day, day.begins + HALF_HOUR)
  {
    HourRemainder(s.startTime, day.begins / HOUR - 1, 45 * MINUTE);
  }

  /** On a day that starts half an hour past a UTC hour (a display zone such
      as UTC+5:30), the same start at 23:45 the day before lies only 15
      minutes past its UTC hour, so no step is taken and the first key is
      the day's first instant. */
  lemma {:induction false} HalfHourDayEarlyStartKeepsFirstRow(s: Schedule, day: Day)
    requires day.begins % HOUR == HALF_HOUR && day.begins < day.ends
    requires s.startTime == day.begins - 15 * MINUTE && s.EndTime() > day.begins
    ensures FirstBucket(s, day.begins) == day.begins
    ensures Covers(s, day, day.begins)
  {
    HourRemainder(s.startTime, day.begins / HOUR, 15 * MINUTE);
  }

  /** On such a day it is a booking starting 15 minutes INTO the day (00:15,
      which is 45 minutes past its UTC hour) whose first key is 00:30, so this
      booking does not write the first row although it starts inside it. */
  lemma {:induction false} HalfHourDayStepSkipsFirstRow(s: Schedule, day: Day)
    requires day.begins % HOUR == HALF_HOUR
    requires s.startTime == day.begins + 15 * MINUTE
    ensures FirstBucket(s, day.begins) == day.begins + HALF_HOUR
    ensures !Covers(s, day, day.begins)
    ensures day.begins < s.startTime < day.begins + HALF_HOUR
  {
    HourRemainder(s.startTime, day.begins / HOUR, 45 * MINUTE);
  }

  /** The first bucket of a booking is a half-hour boundary when the day
      starts on one. */
  lemma {:induction false} FirstBucketAligned(s: Schedule, dayBegins: int)
    requires dayBegins % HALF_HOUR == 0
    ensures FirstBucket(s, dayBegins) % HALF_HOUR == 0
  {
    var h := FloorToHour(s.startTime);
    HalfHourRemainder(h, 2 * (h / HOUR), 0);
    var first := FirstBucket(s, dayBegins);
    var clipped := Max(h, dayBegins);
    HalfHourRemainder(clipped + HALF_HOUR, clipped / HALF_HOUR + 1, 0);
  }

  /** On a day that starts on a half-hour boundary and lasts at most 24
      hours, every key of the occupancy map is one of the rows of
      `time_list`. */
  lemma {:induction false} KeysAreTimeListRows(d: map<int, string>, q: seq<Schedule>, day: Day)
    requires IsOccupancy(d, q, day)
    requires day.begins % HALF_HOUR == 0 && day.ends <= day.begins + DAY
    ensures forall k :: k in d ==> k in TimeList(day.begins)
  {
    forall k | k in d
      ensures k in TimeList(day.begins)
    {
      var s := q[LastWriter(q, day, k).value];
      var first := FirstBucket(s, day.begins);
      CoveredBucketMeetsBooking(s, day, k);
      FirstBucketAligned(s, day.begins);
      var a, b := first / HALF_HOUR, (k - first) / HALF_HOUR;
      assert first == a * HALF_HOUR && k - first == b * HALF_HOUR;
      var i := a + b - day.begins / HALF_HOUR;
      assert k == day.begins + i * HALF_HOUR;
      assert 0 <= i < 48;
      assert TimeList(day.begins)[i] == k;
    }
  }

  /** On a 25-hour day (clocks going back in the display zone) a booking in
      the last hour writes a key that no row of `time_list` shows. */
  lemma {:induction false} LongDayKeyBeyondTimeList(d: map<int, string>, s: Schedule, day: Day)
    requires day.begins % HOUR == 0 && day.ends == day.begins + DAY + HOUR - 1
    requires s.startTime == day.begins + DAY && s.event.duration == HALF_HOUR
    requires IsOccupancy(d, [s], day)
    ensures day.begins + DAY in d
    ensures day.begins + DAY !in TimeList(day.begins)
  {
    HourRemainder(s.startTime, day.begins / HOUR + 24, 0);
    assert Covers(s, day, day.begins + DAY);
    assert LastWriter([s], day, day.begins + DAY).Some?;
    TimeListShape(day.begins);
  }
}
