# Busy-event filter and calendar ordering of the meeting scheduler

This project models the two pieces of pure logic in the meeting scheduler's
Flask application (`meetings/flask_main.py`), which finds common free time in
Google calendars:

- **`check`**, the busy-event classifier. It takes a calendar's events and a
  window given by a start and an end instant. Events that carry a
  `transparency` key are skipped. All-day events get the clock text
  `00:00:00` appended to their start date and `23:59:00` to their end date;
  the model reads these as 00:00:00 on the start date and 23:59:00 on the end
  date (see `BusyFilter.End` under "Left out"). An event is kept when one
  of three rules (`range1`, `range2`, `range3`) holds. Dates and times of day
  are compared separately, never as whole instants. An empty event list
  gives the sentinel `"no events"` instead of a list
  (`busy_filter.dfy`, data types in `events.dfy`).
- **`list_calendars` / `cal_sort_key`**, the calendar list. It builds one
  record per calendar. The `selected` and `primary` flags default to false
  when absent. The records are sorted by the key `(primary, selected,
  summary)`, where a set flag maps to `" "` and an unset one to `"X"`. So the
  primary calendar comes first, then selected calendars, then the rest, each
  group in summary order (`calendars.dfy`; Python's string order is in
  `lexicographic.dfy`).
- **The clock splice** `iso[:11] + clock + iso[19:]`. It turns the session's
  date and clock strings into the window's ISO timestamps (`iso_splice.dfy`).

Timestamps arrive already decoded. A date is a day number (`Events.Date`) and
a time of day is a whole number of seconds in `[0, 86400)`
(`Events.TimeOfDay`). An event is the tagged variant `AllDay | Timed`,
resolved once from the presence of a `date` or `dateTime` field. `check`'s
result is `NoEvents | Busy(records)`, so the sentinel and an empty busy list
are distinct values. A busy record holds the event's summary, its normalised
start and end as (date, time-of-day) pairs, and `selected = true`.

Behaviour of `check` worth knowing:

- The busy list keeps the input order of the events; `check` does not
  sort it. It is chronological only when the calendar service returns events
  by start time, which the caller requests.
- An all-day event's end date is used as listed. The calendar service gives
  an all-day event an exclusive end date (the day after). So a one-day
  all-day event never fits a window that starts and ends on the same date,
  and such a window is not reported busy
  (`BusyFilter.MultiDateEventMissesOneDayWindow`).
- The docstring of `check` says multi-day events are not added. That holds
  only for a window that starts and ends on the same date
  (`BusyFilter.MultiDateEventMissesOneDayWindow`, for timed and all-day
  events alike). `list_events` also calls `check` with the whole requested
  range, whose dates differ. There a multi-day event is kept whenever its
  dates fit the range and its times of day satisfy a rule, since times of
  day are compared without their dates. An event from 10:00 on one day to
  11:00 the next, or an overnight event from 22:00 to 02:00, is busy in a
  window from 09:00 on the first day to 17:00 on the second
  (`BusyFilter.MultiDateEventBusyInMultiDateWindow`).
- Nothing puts the window's two clocks in order (`list_events` splices the
  session's start and end clocks in as given). In a window whose end time of
  day is before its start time, such as 22:00 on one day to 06:00 the next,
  an event inside the window can satisfy none of the rules: an event from
  23:00 to 23:30 on the first day is not busy
  (`BusyFilter.OvernightWindowMissesInnerEvent`). An all-day event is still
  busy in such a window when the window starts strictly between 00:00:00
  and 23:59:00 (`BusyFilter.AllDayBusyAnyWindow`).
- The `transparency` test checks only whether the key is present. An event
  whose transparency is explicitly `"opaque"` is skipped too. In the model,
  `transparent` stands for "the key is present".
- A zero-length timed event whose time of day lies inside the window
  satisfies `range1` and is reported busy. The half-open overlap
  characterisation (`BusyFilter.BusyIsHalfOpenOverlap`) therefore assumes the
  event's begin time of day precedes its end time of day. That assumption
  also leaves out overnight and other multi-day events whose end time of day
  is not after their begin time of day; for those the rules are not an
  interval overlap at all (see the previous item).

## Model

| member | source | states |
|---|---|---|
| `BusyFilter.Check` | meetings/flask_main.py:459-499 | the result is the `NoEvents` sentinel exactly when the input list is empty; otherwise it is a busy list no longer than the input, every record marked selected and being the record of some busy input event |
| `BusyFilter.IsBusy` | meetings/flask_main.py:463-491 | the three rules with their tautological `or` clauses are equivalent to: not transparent, both dates in the window's date span, and the times of day either inside the window, straddling its start time, or straddling its end time |
| `BusyFilter.ToRecordNormalises` | meetings/flask_main.py:465-495 | a record keeps the event's summary and `selected = true`; an all-day event runs from 00:00:00 on its start date to 23:59:00 on its end date, a timed event keeps its own dates and times |
| `BusyFilter.BusyList` | meetings/flask_main.py:463-496 | the loop's output is no longer than the input, every record is marked selected, and each record is the normalised record of some busy input event |
| `BusyFilter.SelectedIndices` | meetings/flask_main.py:463-491 | reference selection: strictly increasing positions of the input, each pointing at a busy event, with every busy position present |
| `BusyFilter.BusyListIsSubsequence` | meetings/flask_main.py:463-496 | the busy list is exactly the records of the events at the selected positions: an order-preserving subsequence, each busy event once and nothing else |
| `BusyFilter.BusyListAppend` | meetings/flask_main.py:463-496 | filtering a concatenation of event lists gives the concatenation of the filtered parts |
| `BusyFilter.NoBusyEventNoRecord` | meetings/flask_main.py:463-496 | when no event is busy the loop produces the empty list |
| `BusyFilter.AllTransparentIsEmptyBusy` | meetings/flask_main.py:460-464 | a non-empty list of transparent events gives `Busy([])`, which differs from the result for an empty list |
| `BusyFilter.TransparentIgnored` | meetings/flask_main.py:464 | inserting an event with a `transparency` key anywhere in the input leaves the busy list unchanged, whatever its times |
| `BusyFilter.BusyRecordsWithinDates` | meetings/flask_main.py:487-489 | every reported record begins on or after the window's start date and ends on or before its end date |
| `BusyFilter.BusyIsHalfOpenOverlap` | meetings/flask_main.py:487-491 | for a window with start time before end time and an event with begin time before end time, the event is busy iff it is opaque, its dates are in span and its time-of-day interval overlaps the window's as half-open intervals |
| `BusyFilter.EndingAtWindowStartNotBusy` | meetings/flask_main.py:487-489 | an event beginning before the window's start time and ending exactly at it is not busy |
| `BusyFilter.BeginningAtWindowEndNotBusy` | meetings/flask_main.py:487-489 | an event beginning exactly at the window's end time and ending after it is not busy |
| `BusyFilter.AllDayBusyIff` | meetings/flask_main.py:465-489 | for any window, an all-day event (00:00:00 to 23:59:00) is busy iff it is opaque, its dates are in span, and the window runs from 00:00:00 to at least 23:59:00, or its start time or its end time lies strictly between 00:00:00 and 23:59:00 |
| `BusyFilter.AllDayBusyAnyWindow` | meetings/flask_main.py:465-488 | an opaque all-day event with dates in span is busy whenever the window starts strictly between 00:00:00 and 23:59:00, whatever its end time |
| `BusyFilter.AllDayBusyOrderedWindow` | meetings/flask_main.py:465-489 | for a window whose start time precedes its end time, an all-day event is busy iff it is opaque, its dates are in span and the window starts before 23:59:00 |
| `BusyFilter.OvernightWindowMissesInnerEvent` | meetings/flask_main.py:487-489 | in a window from 22:00 on day 1 to 06:00 on day 2, an event from 23:00 to 23:30 on day 1 is not busy |
| `BusyFilter.MultiDateEventMissesOneDayWindow` | meetings/flask_main.py:446-448 | any event, timed or all-day, whose end date is after its begin date is never busy in a window that starts and ends on the same date, as the docstring promises for multi-day events |
| `BusyFilter.MultiDateEventBusyInMultiDateWindow` | meetings/flask_main.py:487-491 | in a window from 09:00 on day 1 to 17:00 on day 2, a 10:00-to-11:00-next-day event and a 22:00-to-02:00 overnight event are both busy, contrary to the docstring's promise for multi-day events |
| `Calendars.FlagOrFalse` | meetings/flask_main.py:358-360 | an optional flag reads true exactly when it is present and true |
| `Calendars.BuildRecord` | meetings/flask_main.py:350-369 | kind, id and summary are copied; `selected` and `primary` are true exactly when present and true, so an absent flag reads false |
| `Calendars.BuildRecords` | meetings/flask_main.py:349-369 | one record per entry, in the same positions |
| `Calendars.Insert` | meetings/flask_main.py:370 | inserting into a sorted list keeps it sorted and adds exactly the one calendar |
| `Calendars.Sort` | meetings/flask_main.py:370 | the output is sorted by `cal_sort_key` and is a permutation of the input |
| `Calendars.ListCalendars` | meetings/flask_main.py:339-370 | the list is sorted by key, is a permutation of the built records, and each of its calendars is the record of some entry |
| `Calendars.SortedGroupsInOrder` | meetings/flask_main.py:505-519 | in a list sorted by the key, primary calendars precede non-primary ones, among equal primary status selected ones precede unselected ones, and the remaining ties are in summary order |
| `Calendars.PrecedesByFlags` | meetings/flask_main.py:505-519 | comparing two calendars by `cal_sort_key` puts a primary one before a non-primary one, then a selected one before an unselected one, and otherwise compares summaries |
| `Calendars.GroupsInOrderSorted` | meetings/flask_main.py:505-519 | conversely, a list with primary calendars first, then selected ones, and equal-flag calendars in summary order is sorted by the key |
| `Calendars.ListCalendarsOrder` | meetings/flask_main.py:505-519 | the calendar list has the primary-first, then selected-first, then summary ordering |
| `Calendars.WithKeyAppend` | meetings/flask_main.py:370 | the calendars with one key in a concatenation are those of each part, concatenated |
| `Calendars.WithKeyMembers` | meetings/flask_main.py:370 | the calendars picked out for a key are members of the list and have that key |
| `Calendars.InsertWithKey` | meetings/flask_main.py:370 | insertion puts the new calendar ahead of the calendars already in its key group and changes no other group |
| `Calendars.SortStable` | meetings/flask_main.py:370 | the sort is stable: calendars sharing a key keep their input order |
| `Calendars.SortedWithSameGroupsEqual` | meetings/flask_main.py:370 | two sorted lists with the same calendars in every key group, in the same order, are equal |
| `Calendars.StableSortIsUnique` | meetings/flask_main.py:370 | any sorted, stable arrangement of the built records, such as a stable library sort returns, equals the modelled calendar list |
| `Calendars.KeyLeTotal` | meetings/flask_main.py:519 | any two sort keys are comparable under tuple order |
| `Calendars.KeyLeTransitive` | meetings/flask_main.py:519 | tuple order on sort keys is transitive |
| `Calendars.KeyLeAntisymmetric` | meetings/flask_main.py:519 | two keys each no greater than the other are equal |
| `Lexicographic.LessOrEqualIffPrefixOrSmallerAt` | meetings/flask_main.py:519 | the recursive string order holds iff the first string is a prefix of the second or has the smaller character at the first difference |
| `Lexicographic.LessOrEqualTransitive` | meetings/flask_main.py:519 | string order is transitive |
| `Lexicographic.LessOrEqualTotal` | meetings/flask_main.py:519 | any two strings are comparable |
| `Lexicographic.LessOrEqualAntisymmetric` | meetings/flask_main.py:519 | two strings each no greater than the other are equal |
| `IsoSplice.Splice` | meetings/flask_main.py:403-405 | for text of at least 19 characters the length is 11 plus the clock's length plus the text's length minus 19, the first 11 characters and the text from position 19 are kept and the clock sits at position 11; shorter text keeps its prefix and ends with the clock |
| `IsoSplice.SpliceOwnClock` | meetings/flask_main.py:403-405 | splicing a timestamp's own clock back in returns the timestamp |
| `IsoSplice.SpliceTwiceKeepsLast` | meetings/flask_main.py:403-405 | splicing over an eight-character clock twice equals splicing once with the second clock |
| `IsoSplice.SpliceThenReadClock` | meetings/flask_main.py:403-405 | after splicing an eight-character clock, characters 11 to 18 are that clock |

## Left out

- Timestamp parsing and time zones (`arrow.get(...).date()` and `.time()`, `interpret_time`, `interpret_date`, `next_day`, the date and time formatters): they wrap a third-party library whose behaviour is not modelled. Events and windows arrive as decoded dates and times of day. The window's UTC offset (`start[19:]`, `end[19:]`) that is spliced into all-day events' strings is left out with the parsing.
- `BusyFilter.End` (and `BusyFilter.Begin`, with `BusyFilter.AllDayBusyIff` and `BusyFilter.ToRecordNormalises` built on them): an all-day event's strings are its `YYYY-MM-DD` date followed directly by `00:00:00` or `23:59:00`, with no `T` separator. The model assumes the parser reads these strings as 00:00:00 on the start date and 23:59:00 on the end date. If it read only the date, both ends would be 00:00:00, and an all-day event would not be busy in a 09:00-17:00 window.
- Busy records report the normalised start and end as decoded (date, time of day) pairs. In `check` they are the strings themselves: the spliced strings for an all-day event and the calendar's `dateTime` strings for a timed event.
- Sub-second times of day: calendar timestamps carry whole seconds, so a time of day is a whole number of seconds.
- Malformed event records and calendar entries: a missing `summary`, `start` or `end` of an event, or a missing `kind`, `id` or `summary` of a calendar entry, raises a `KeyError` in `flask_main.py`. The model's events and calendar entries are well-formed by construction.
- The calendar service calls (`calendarList().list()`, `events().list()`), OAuth credentials and the service object: network and foreign-library calls. The calendar entries and events are parameters.
- `list_events`: it reads the session, calls the service, and calls `free_times` and `availability`. Those two come from the `freeTimes` module, which is not part of this model.
- Flask routes, session, flash messages and template rendering (`index`, `choose`, `choose2`, `setrange`, `checking`, `init_session_values`): request plumbing.
- `Calendars.BuildRecord`: the description lookup with its `"(no description)"` default is not modelled, because its value is never stored in the record.
