# Day view of a booking calendar, in Dafny

This project models the day view of a small Django booking site. Owners
define *events*: an activity with a title and a duration. Bookings of an
event are stored as *schedules*, each with a start instant. The day page
does two things:

* it fetches the owner's bookings for the day (`ScheduleView.get_queryset`);
* it spreads them over 48 half-hour rows (`ScheduleView.get_context_data`).
  This builds `time_list`, the 48 row starts, and `schedule_dict`, a
  dictionary from bucket instants to the titles of the events that occupy
  them.

Times are integers: microseconds on the UTC timeline (module `Instants`).
Both Python's `datetime` and `timedelta` have microsecond resolution, so
every comparison and addition is exact. The requested day comes in as a
`Day(begins, ends)` pair of UTC instants, the day's first and last
microsecond. The query and the bucket loop use the same instants: the query
localises the naive bounds with `make_aware`, and the loop also converts
them to UTC, which does not change the instant. In `get_queryset`, the
local names are swapped: `end_time` holds the day's first instant and
`start_time` its last.

Modules:

* `Instants` (instants.dfy): the constants, flooring to the hour, and the
  part of an instant past its hour.
* `Models` (models.dfy): `Event`, `Schedule`, and the `end_time` property,
  written `Schedule.EndTime`. It is `start_time + event.duration`
  (main/models.py:24-27).
* `Views` (views.dfy):
  * the selection window, the ordering and the query;
  * `time_list`;
  * a declarative account of which keys each booking writes: `FirstBucket`,
    `Covers` and `LastWriter`;
  * the predicate `IsOccupancy`, which says what the finished dictionary is;
  * the imperative `GetContextData`. Its nested loops are written as in the
    source and proved to produce exactly that dictionary;
  * lemmas about the dictionary: bounds, exact keys, last write wins,
    uniqueness, and alignment with `time_list`.

The bucket start follows the code. The code floors the start to its UTC
hour, clips that to the day's first instant, and only then adds 30 minutes
when the start is at least 30 minutes past its UTC hour. Aligning to the
half hour before clipping would give a different first key; the code does
not do that. What the order changes depends on where the day starts:

* On a day that starts on a UTC hour boundary, a booking that starts at
  23:45 the day before and runs into the day gets its first key at 00:30.
  This booking does not write the 00:00 row, and it writes 00:30 when it
  runs past it (`StepAfterClipSkipsMidnight`). Another booking may still
  write 00:00.
* On a day that starts half an hour past a UTC hour (a display zone such as
  UTC+5:30), that same booking gets its first key at 00:00
  (`HalfHourDayEarlyStartKeepsFirstRow`). Instead, a booking that starts at
  00:15 gets its first key at 00:30, and that booking does not write the
  first row (`HalfHourDayStepSkipsFirstRow`).

The site has no code for a conflict detector, invitation expiry or use
counts, margin padding, slugs, or month navigation, so none of them is
modelled.

## Model

| member | source | states |
|---|---|---|
| `Instants.FloorToHour` | main/views.py:88-97 | the aware `datetime(year, month, day, hour)` of an instant is the unique hour boundary at or before it, less than an hour earlier |
| `Instants.PastHour` | main/views.py:100-104 | the `timedelta` of minutes, seconds and microseconds lies in `[0, 1h)` and added to the top of the hour gives back the instant |
| `Instants.HourThenBumpIsHalfHourFloor` | main/views.py:88-106 | without the clip to the day, the hour floor plus the 30-minute step is the floor to the half hour |
| `Models.NewEvent` | main/models.py:6-11 | an event created from owner, title and duration has both margins equal to the default zero `timedelta` |
| `Models.EndTimeOrder` | main/models.py:24-27 | `end_time - start_time` is the duration; the end is not before the start iff the duration is non-negative, and equals the start iff the duration is zero |
| `Models.EndTimeIgnoresMarginsAndNotes` | main/models.py:6-27 | two bookings with the same start and the same duration end at the same instant, whatever their margins, titles, owners and notes |
| `Models.EndTimeMonotone` | main/models.py:24-27 | bookings of one event end in the order in which they start |
| `Views.SelectedIffTouchesDay` | main/views.py:64-70 | the filter `start >= day_start - duration && start <= day_end` holds iff the owner matches and the closed interval from start to end meets the day (`end >= day_start && start <= day_end`) |
| `Views.Selected` | main/views.py:67-70 | the filtered bookings keep every booking that passes the filter with its multiplicity, and no other |
| `Views.InsertByStart` | main/views.py:71 | inserting into a start-ordered list gives a start-ordered list with the same multiset plus the new booking |
| `Views.SortByStart` | main/views.py:71 | `order_by('start_time')` returns a permutation of its input in non-decreasing start order |
| `Views.GetQueryset` | main/views.py:63-72 | unknown username gives not found; otherwise the result is ordered by start and contains each booking of the store exactly as often as it occurs there if it passes the owner and window filter, and otherwise not at all |
| `Views.QuerysetIsTheWindow` | main/views.py:64-71 | a booking is in the day's query iff it is stored, belongs to the owner, ends no earlier than the day's first instant and starts no later than its last |
| `Models.Schedule.EndTime` | main/models.py:24-27 | the `end_time` property: the booking's start plus its event's duration |
| `Views.SelectedForDay` | main/views.py:67-70 | the query's filter: the event's owner is the user, and the start lies in the closed window from `day_begins - duration` to `day_ends` |
| `Views.TimeList` | main/views.py:82-84 | the comprehension `[day_begins + i * 30 min for i in range(48)]` |
| `Views.FirstBucket` | main/views.py:88-106 | `begin`: the start floored to its UTC hour, clipped to `day_begins`, then moved on by 30 minutes when the start is at least 30 minutes past its UTC hour |
| `Views.BucketBound` | main/views.py:108 | the inner loop's bound `min(event.end_time, day_ends)` |
| `Views.Covers` | main/views.py:107-110 | the keys the inner loop writes for one booking: `begin` and its 30-minute successors below the bound |
| `Views.IsOccupancy` | main/views.py:86-110 | the finished `schedule_dict`: a key is present iff some booking writes it, holding the title of the last booking that does |
| `Views.TimeListShape` | main/views.py:82-84 | `time_list` has 48 entries; entry `i` is `day_begins + i * 30 min`; the entries rise strictly by 30 minutes and stay within 24 hours of `day_begins` |
| `Views.LastWriter` | main/views.py:86-110 | the index found is that of a booking whose loop writes the key, with no later booking writing it; when none is found, no booking writes the key |
| `Views.PaintStep` | main/views.py:108-110 | one pass of the inner `while` writes the current key with the title and extends the written part of the booking by exactly that key |
| `Views.LastWriterSnoc` | main/views.py:87-110 | processing one more booking makes it the last writer of exactly the keys its loop writes and changes the last writer of no other key |
| `Views.GetContextData` | main/views.py:79-110 | `time_list` is the 48-row list, and after the nested loops `schedule_dict` holds a key iff some booking's loop writes it, with the title of the last booking in list order that does |
| `Views.OccupancyUnique` | main/views.py:86-110 | the dictionary is determined by the bookings and the day, so building it twice from the same input gives the same dictionary |
| `Views.LastWriteWins` | main/views.py:87-110 | a key written by booking `j` and by no later booking holds booking `j`'s title |
| `Views.UncoveredStaysFree` | main/views.py:86-110 | a key that no booking's loop writes is absent from the dictionary |
| `Views.FirstBucketLowerBounds` | main/views.py:88-106 | the first key of a booking is never before the day's first instant, nor before the half hour in which the booking starts |
| `Views.CoveredBucketMeetsBooking` | main/views.py:88-110 | every key a booking writes lies in `[day_begins, day_ends)`, is before the booking's end, and the booking starts before the key's half hour is over |
| `Views.OccupancyKeysBounded` | main/views.py:86-110 | every key of the dictionary is `>= day_begins` and `< day_ends`, and is before the `end_time` of the booking whose title it holds, which starts before the key's half hour is over |
| `Views.CoveredKeysAreSteps` | main/views.py:105-110 | the keys one booking writes are exactly `begin + m * 30 min` for `m >= 0` below `min(end_time, day_ends)` |
| `Views.SingleBookingOccupancy` | main/views.py:88-110 | for a single booking, the dictionary holds its title exactly at its steps below the bound and nowhere else |
| `Views.EndsBeforeFirstBucketWritesNothing` | main/views.py:107-108 | a booking whose end is no later than its first key writes no key |
| `Views.EndingAtDayStartSelectedButEmpty` | main/views.py:69-108 | a booking ending exactly at the day's first instant passes the closed filter and writes no key |
| `Views.StepAfterClipSkipsMidnight` | main/views.py:88-110 | on a day starting on a UTC hour boundary, a booking that starts 15 minutes before the day and runs into it gets its first key at `day_begins + 30 min`, so the `day_begins` key is not written; the `day_begins + 30 min` key is written when the booking runs past it |
| `Views.HalfHourDayEarlyStartKeepsFirstRow` | main/views.py:88-110 | on a day starting half an hour past a UTC hour, a booking that starts 15 minutes before the day and runs into it gets its first key at `day_begins`, which is written |
| `Views.HalfHourDayStepSkipsFirstRow` | main/views.py:88-110 | on a day starting half an hour past a UTC hour, a booking that starts 15 minutes into the day gets its first key at `day_begins + 30 min`, so the `day_begins` key is not written |
| `Views.FirstBucketAligned` | main/views.py:88-106 | when the day starts on a half-hour boundary, so does every booking's first key |
| `Views.KeysAreTimeListRows` | main/views.py:84-110 | on a day that starts on a half-hour boundary and lasts at most 24 hours, every key of the dictionary is an entry of `time_list` |
| `Views.LongDayKeyBeyondTimeList` | main/views.py:79-110 | on a 25-hour day, a booking in the last hour writes a key that is not an entry of `time_list` |

## Left out

- `make_utc`, `timezone.make_aware` and `pytz`: they need the time-zone database and daylight-saving rules. The day's bounds are parameters, already in UTC. The error path goes with them: with pytz, `make_aware` in `get_queryset` (main/views.py:65-66) raises `NonExistentTimeError` or `AmbiguousTimeError` when the local midnight or 23:59:59.999999 does not exist in the display zone or is ambiguous there. That case is not modelled; the model always has a `Day` window.
- Building the `date` from the URL's year, month and day, including the `ValueError` for a date that does not exist: the day arrives as its two bounds.
- The plain context entries `date`, `username` and `time_delta`: they copy inputs or a constant (`HALF_HOUR`) and carry no logic.
- `CalendarView`: a single call to the standard `calendar` module, with no logic of its own. `CalendarRedirectView`: it reads the wall clock.
- `Home`, `SignUp`, `EventView`, `ScheduleCreate` and `EventCreate`: templates, forms and ORM calls. `ScheduleCreate` performs no overlap check, so the model has none.
- `Invitation` (main/models.py:14-16): it holds only an event and a random UUID, with no behaviour. Expiry and use counts have no code.
- The templates, URL routing, the widget filter and the migrations: they have no scheduling behaviour.
- `SortByStart`: among bookings with the same start it fixes one order, a stable one. The database promises no particular order for them. The `ensures` (ordered and a permutation) holds for any order the database picks.
- `GetContextData`: reads `schedule_list` as a parameter. `ListView` fills it from `get_queryset` before the method runs; `get_object_or_404`'s 404 is modelled in `GetQueryset`.
- `datetime` overflow outside years 1 to 9999: instants and durations are unbounded integers.
- The insertion order of `schedule_dict`: a Python dict remembers the order in which its keys were first written, and the model's `map` does not. Because the 30-minute step comes after the clip, that order is not key order. For example, take two bookings in start order: one at 23:45 the day before, then one at 00:10. The first writes 00:30 and 01:00, and the second then writes 00:00. The templates are not part of this model, so whether the page depends on the order is not known.
- The order of bookings with equal starts: `schedule_dict` depends on the order of the booking list, because the last write wins. The database does not fix that order for bookings with equal starts. The model fixes one (`SortByStart` is stable), while the site may leave either title on a key that such bookings share.
