/**
  Decoded calendar events and the busy-filter's result type.

  Timestamps reach the filter already split into a calendar date (a day
  number) and a time of day (seconds since midnight); parsing ISO-8601 text
  and time-zone conversion happen before this point and are not modelled.
 */
module Events {

  /** A calendar date, as a day number: later dates are larger. */
  type Date = int

  const SecondsPerDay: int := 86400

  /** A time of day with one-second resolution, 00:00:00 to 23:59:59. */
  type TimeOfDay = t: int | 0 <= t < SecondsPerDay

  /** 00:00:00, the time an all-day event is taken to begin. */
  const AllDayBeginTime: TimeOfDay := 0

  /** 23:59:00, the time an all-day event is taken to end. */
  const AllDayEndTime: TimeOfDay := 23 * 3600 + 59 * 60

  /** A date together with a time of day; the two are compared separately. */
  datatype Stamp = Stamp(date: Date, time: TimeOfDay)

  /**
    One calendar entry. `AllDay` carries date-only bounds (the `date` field of
    the calendar's start/end objects), `Timed` carries full instants (the
    `dateTime` field). `transparent` holds when the entry has a
    `transparency` key at all, whatever its value.
   */
  datatype Event =
    | AllDay(beginDate: Date, endDate: Date, summary: string, transparent: bool)
    | Timed(beginDate: Date, beginTime: TimeOfDay, endDate: Date, endTime: TimeOfDay,
            summary: string, transparent: bool)

  /** The window an event list is checked against: its start and end instants. */
  datatype Window = Window(start: Stamp, end: Stamp)

  /** What the filter reports for one busy event. */
  datatype BusyRecord = BusyRecord(summary: string, start: Stamp, end: Stamp, selected: bool)

  /**
    The filter's result: the `"no events"` sentinel for an empty input, or the
    (possibly empty) list of busy records.
   */
  datatype CheckResult = NoEvents | Busy(records: seq<BusyRecord>)
}
