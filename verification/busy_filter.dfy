/**
  The busy-event classifier: which calendar events count as busy inside a
  window whose start and end are given as dates and times of day. Dates and
  times of day are compared separately, never as whole instants.
 */
module BusyFilter {
  import opened Events

  /** Where an event starts once all-day events are pinned to 00:00:00. */
  function Begin(e: Event): Stamp {
    match e
    case AllDay(bd, _, _, _) => Stamp(bd, AllDayBeginTime)
    case Timed(bd, bt, _, _, _, _) => Stamp(bd, bt)
  }

  /** Where an event ends once all-day events are pinned to 23:59:00. */
  function End(e: Event): Stamp {
    match e
    case AllDay(_, ed, _, _) => Stamp(ed, AllDayEndTime)
    case Timed(_, _, ed, et, _, _) => Stamp(ed, et)
  }

  /** Both dates of the event lie within the window's dates. */
  predicate InDateSpan(b: Stamp, e: Stamp, w: Window) {
    b.date >= w.start.date && e.date <= w.end.date
  }

  /** First rule: the event's times of day lie inside the window's. */
  predicate Range1(b: Stamp, e: Stamp, w: Window) {
    && b.date >= w.start.date && e.date <= w.end.date
    && b.time >= w.start.time && e.time <= w.end.time
  }

  /**
    Second rule: the event begins before the window's start time and ends
    after it. The middle disjunction is kept as `check` writes it,
    although it always holds.
   */
  predicate Range2(b: Stamp, e: Stamp, w: Window) {
    && b.date >= w.start.date && e.date <= w.end.date
    && b.time < w.start.time
    && (e.time >= w.end.time || e.time <= w.end.time)
    && e.time > w.start.time
  }

  /** Third rule: the event begins before the window's end time and ends after it. */
  predicate Range3(b: Stamp, e: Stamp, w: Window) {
    && b.date >= w.start.date && e.date <= w.end.date
    && b.time < w.end.time
    && (e.time >= w.end.time || e.time <= w.end.time)
    && e.time > w.end.time
  }

  /**
    An event is busy when it is not transparent and one of the three rules
    holds. Because the `or` clauses of rules two and three are tautologies,
    this is the same as: the dates are in span, and either the times of day
    are inside the window, or the event straddles the window's start time,
    or it straddles the window's end time.
   */
  predicate IsBusy(e: Event, w: Window)
    ensures IsBusy(e, w) <==>
      && !e.transparent
      && InDateSpan(Begin(e), End(e), w)
      && (|| (Begin(e).time >= w.start.time && End(e).time <= w.end.time)
          || (Begin(e).time < w.start.time && End(e).time > w.start.time)
          || (Begin(e).time < w.end.time && End(e).time > w.end.time))
  {
    !e.transparent && (Range1(Begin(e), End(e), w) || Range2(Begin(e), End(e), w) || Range3(Begin(e), End(e), w))
  }

  /** The record reported for a busy event. */
  function ToRecord(e: Event): BusyRecord {
    BusyRecord(e.summary, Begin(e), End(e), true)
  }

  /** The record `rec` is the record of some busy event of `events`. */
  ghost predicate FromBusyEvent(rec: BusyRecord, events: seq<Event>, w: Window) {
    exists i :: 0 <= i < |events| && IsBusy(events[i], w) && rec == ToRecord(events[i])
  }

  /**
    A record keeps the event's summary and is marked selected; an all-day
    event is reported from 00:00:00 on its start date to 23:59:00 on its end
    date, a timed event with its own dates and times.
   */
  lemma ToRecordNormalises(e: Event)
    ensures ToRecord(e).summary == e.summary && ToRecord(e).selected
    ensures e.AllDay? ==>
      && ToRecord(e).start == Stamp(e.beginDate, AllDayBeginTime)
      && ToRecord(e).end == Stamp(e.endDate, AllDayEndTime)
    ensures e.Timed? ==>
      && ToRecord(e).start == Stamp(e.beginDate, e.beginTime)
      && ToRecord(e).end == Stamp(e.endDate, e.endTime)
  {
  }

  /**
    The loop over the events: the busy ones, in input order, as records.
    Every record is marked selected and comes from a busy event.
   */
  function BusyList(events: seq<Event>, w: Window): (r: seq<BusyRecord>)
    ensures |r| <= |events|
    ensures forall k :: 0 <= k < |r| ==> r[k].selected
    ensures forall k :: 0 <= k < |r| ==> FromBusyEvent(r[k], events, w)
    decreases |events|
  {
    if |events| == 0 then []
    else
      var rest := BusyList(events[1..], w);
      var head := if IsBusy(events[0], w) then [ToRecord(events[0])] else [];
      assert forall k :: 0 <= k < |rest| ==> FromBusyEvent(rest[k], events, w) by {
        forall k | 0 <= k < |rest|
          ensures FromBusyEvent(rest[k], events, w)
        {
          assert FromBusyEvent(rest[k], events[1..], w);
          var j :| 0 <= j < |events[1..]| && IsBusy(events[1..][j], w) && rest[k] == ToRecord(events[1..][j]);
          assert events[1..][j] == events[j + 1];
        }
      }
      assert forall k :: 0 <= k < |head| ==> FromBusyEvent(head[k], events, w);
      head + rest
  }

  /**
    The classifier: an empty event list gives the `NoEvents` sentinel, any
    other list gives its busy records, which may be empty.
   */
  function Check(events: seq<Event>, w: Window): (r: CheckResult)
    ensures r.NoEvents? <==> |events| == 0
    ensures r.Busy? ==> |r.records| <= |events|
    ensures r.Busy? ==> forall k :: 0 <= k < |r.records| ==> r.records[k].selected
    ensures r.Busy? ==> forall k :: 0 <= k < |r.records| ==> FromBusyEvent(r.records[k], events, w)
  {
    if |events| == 0 then NoEvents else Busy(BusyList(events, w))
  }

  /**
    Reference definition of the selection: the positions of the busy events,
    in increasing order, each once, and every busy position present.
   */
  function SelectedIndices(events: seq<Event>, w: Window): (idx: seq<nat>)
    ensures forall k :: 0 <= k < |idx| ==> idx[k] < |events| && IsBusy(events[idx[k]], w)
    ensures forall k, l :: 0 <= k < l < |idx| ==> idx[k] < idx[l]
    ensures forall i :: 0 <= i < |events| && IsBusy(events[i], w) ==> i in idx
    decreases |events|
  {
    if |events| == 0 then []
    else
      var n := |events| - 1;
      var rest := SelectedIndices(events[..n], w);
      assert forall k :: 0 <= k < |rest| ==> events[..n][rest[k]] == events[rest[k]];
      if IsBusy(events[n], w) then rest + [n] else rest
  }

  /** Filtering a concatenation filters each part. */
  lemma {:induction false} BusyListAppend(a: seq<Event>, b: seq<Event>, w: Window)
    ensures BusyList(a + b, w) == BusyList(a, w) + BusyList(b, w)
    decreases |a|
  {
    if |a| == 0 {
      assert a + b == b;
    } else {
      assert (a + b)[1..] == a[1..] + b;
      assert (a + b)[0] == a[0];
      BusyListAppend(a[1..], b, w);
    }
  }

  /**
    The busy list is exactly the records of the events at the selected
    positions: an order-preserving subsequence of the input in which every
    busy event appears once and nothing else appears.
   */
  lemma {:induction false} BusyListIsSubsequence(events: seq<Event>, w: Window)
    ensures |BusyList(events, w)| == |SelectedIndices(events, w)|
    ensures forall k :: 0 <= k < |BusyList(events, w)| ==>
              BusyList(events, w)[k] == ToRecord(events[SelectedIndices(events, w)[k]])
    decreases |events|
  {
    if |events| > 0 {
      var n := |events| - 1;
      var prefix := events[..n];
      var last := events[n];
      assert events == prefix + [last];
      BusyListAppend(prefix, [last], w);
      BusyListIsSubsequence(prefix, w);
      assert [last][1..] == [];
      var restR, restI := BusyList(prefix, w), SelectedIndices(prefix, w);
      var r, idx := BusyList(events, w), SelectedIndices(events, w);
      if IsBusy(last, w) {
        assert r == restR + [ToRecord(last)];
        assert idx == restI + [n];
      } else {
        assert r == restR;
        assert idx == restI;
      }
      forall k | 0 <= k < |r|
        ensures r[k] == ToRecord(events[idx[k]])
      {
        if k < |restR| {
          assert r[k] == restR[k] && idx[k] == restI[k];
          assert prefix[restI[k]] == events[restI[k]];
        }
      }
    }
  }

  /** With no busy event among the input, the busy list is empty. */
  lemma {:induction false} NoBusyEventNoRecord(events: seq<Event>, w: Window)
    requires forall i :: 0 <= i < |events| ==> !IsBusy(events[i], w)
    ensures BusyList(events, w) == []
    decreases |events|
  {
    if |events| > 0 {
      assert forall i :: 0 <= i < |events[1..]| ==> events[1..][i] == events[i + 1];
      NoBusyEventNoRecord(events[1..], w);
    }
  }

  /** An empty input and an input of transparent events give different results. */
  lemma AllTransparentIsEmptyBusy(events: seq<Event>, w: Window)
    requires |events| > 0
    requires forall i :: 0 <= i < |events| ==> events[i].transparent
    ensures Check(events, w) == Busy([])
    ensures Check(events, w) != Check([], w)
  {
    NoBusyEventNoRecord(events, w);
  }

  /** A transparent event never changes the busy list, wherever it stands. */
  lemma TransparentIgnored(a: seq<Event>, e: Event, b: seq<Event>, w: Window)
    requires e.transparent
    ensures BusyList(a + [e] + b, w) == BusyList(a + b, w)
  {
    BusyListAppend(a + [e], b, w);
    BusyListAppend(a, [e], w);
    BusyListAppend(a, b, w);
    assert [e][1..] == [];
  }

  /** Every reported record lies within the window's dates. */
  lemma BusyRecordsWithinDates(events: seq<Event>, w: Window)
    ensures forall k :: 0 <= k < |BusyList(events, w)| ==>
              && BusyList(events, w)[k].start.date >= w.start.date
              && BusyList(events, w)[k].end.date <= w.end.date
  {
  }

  /**
    For a window whose start time precedes its end time and an event that is
    not empty, the three rules together select exactly the events whose
    half-open time-of-day interval overlaps the window's.
   */
  lemma BusyIsHalfOpenOverlap(e: Event, w: Window)
    requires w.start.time < w.end.time
    requires Begin(e).time < End(e).time
    ensures IsBusy(e, w) <==>
      && !e.transparent
      && InDateSpan(Begin(e), End(e), w)
      && Begin(e).time < w.end.time && w.start.time < End(e).time
  {
  }

  /** An event ending exactly when the window starts is not busy. */
  lemma EndingAtWindowStartNotBusy(e: Event, w: Window)
    requires w.start.time < w.end.time
    requires Begin(e).time < w.start.time && End(e).time == w.start.time
    ensures !IsBusy(e, w)
  {
  }

  /** An event starting exactly when the window ends is not busy. */
  lemma BeginningAtWindowEndNotBusy(e: Event, w: Window)
    requires w.start.time < w.end.time
    requires Begin(e).time == w.end.time && End(e).time > w.end.time
    ensures !IsBusy(e, w)
  {
  }

  /**
    An all-day event covers 00:00:00 to 23:59:00. It is busy exactly when it
    is opaque, its dates are in span, and either the window runs from
    00:00:00 to at least 23:59:00 (first rule), or its start time lies
    strictly between the two (second rule), or its end time does (third rule).
    Nothing is assumed about the order of the window's two times of day.
   */
  lemma AllDayBusyIff(bd: Date, ed: Date, s: string, t: bool, w: Window)
    ensures IsBusy(AllDay(bd, ed, s, t), w) <==>
      && !t && bd >= w.start.date && ed <= w.end.date
      && (|| (w.start.time == AllDayBeginTime && w.end.time >= AllDayEndTime)
          || AllDayBeginTime < w.start.time < AllDayEndTime
          || AllDayBeginTime < w.end.time < AllDayEndTime)
  {
  }

  /**
    An opaque all-day event whose dates are in span is busy whenever the
    window starts strictly between 00:00:00 and 23:59:00, whatever its end
    time of day.
   */
  lemma AllDayBusyAnyWindow(bd: Date, ed: Date, s: string, w: Window)
    requires AllDayBeginTime < w.start.time < AllDayEndTime
    requires bd >= w.start.date && ed <= w.end.date
    ensures IsBusy(AllDay(bd, ed, s, false), w)
  {
  }

  /**
    For a window whose start time precedes its end time the all-day rule
    reduces to: opaque, dates in span, and the window starts before 23:59:00.
   */
  lemma AllDayBusyOrderedWindow(bd: Date, ed: Date, s: string, t: bool, w: Window)
    requires w.start.time < w.end.time
    ensures IsBusy(AllDay(bd, ed, s, t), w) <==>
      !t && bd >= w.start.date && ed <= w.end.date && w.start.time < AllDayEndTime
  {
    AllDayBusyIff(bd, ed, s, t, w);
  }

  /**
    A window whose end time of day is before its start time, such as 22:00 on
    one day to 06:00 the next, misses events inside it: an event from 23:00 to
    23:30 on the first day satisfies none of the rules.
   */
  lemma OvernightWindowMissesInnerEvent()
    ensures !IsBusy(Timed(1, 23 * 3600, 1, 23 * 3600 + 1800, "late", false),
                    Window(Stamp(1, 22 * 3600), Stamp(2, 6 * 3600)))
  {
  }

  /**
    An event whose end date lies after its begin date (a multi-day event, an
    overnight event, or an all-day event under the calendar convention of an
    exclusive end date) never fits a window that starts and ends on the same
    date.
   */
  lemma MultiDateEventMissesOneDayWindow(e: Event, w: Window)
    requires Begin(e).date < End(e).date
    requires w.start.date == w.end.date
    ensures !IsBusy(e, w)
  {
  }

  /**
    In a window spanning more than one date, multi-day events are kept: the
    times of day are compared without their dates, so an event from 10:00 on
    day 1 to 11:00 on day 2, and an overnight event from 22:00 on day 1 to
    02:00 on day 2, both satisfy the first rule of a window from 09:00 on
    day 1 to 17:00 on day 2.
   */
  lemma MultiDateEventBusyInMultiDateWindow()
    ensures var w := Window(Stamp(1, 9 * 3600), Stamp(2, 17 * 3600));
      && IsBusy(Timed(1, 10 * 3600, 2, 11 * 3600, "meeting", false), w)
      && IsBusy(Timed(1, 22 * 3600, 2, 2 * 3600, "overnight", false), w)
  {
  }
}
