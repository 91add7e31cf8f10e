/**
  The pure state logic of the calendar page: reading month and year from the
  URL, moving between months, grouping the fetched events by day, and the
  local edits made after an event is updated or deleted. The page's React
  state becomes explicit values; "today" is a parameter.
*/
module App {
  import opened Options
  import opened Calendar

  // ---------------------------------------------------------------------
  // URL parameters

  const MinYear := 1900
  const MaxYear := 9999

  /** The year from the URL, or `currentYear` when it is missing, not a
      number (`None`) or outside 1900..9999. */
  function ValidateYear(year: Option<int>, currentYear: int): (r: int)
    ensures year.Some? && MinYear <= year.value <= MaxYear ==> r == year.value
    ensures !(year.Some? && MinYear <= year.value <= MaxYear) ==> r == currentYear
  {
    if year.None? || year.value < MinYear || year.value > MaxYear then currentYear else year.value
  }

  /** The 1-based month from the URL turned 0-based, or `currentMonth` when it
      is missing, not a number (`None`) or outside 1..12. */
  function ValidateMonth(month: Option<int>, currentMonth: int): (r: int)
    ensures month.Some? && 1 <= month.value <= 12 ==> r == month.value - 1
    ensures !(month.Some? && 1 <= month.value <= 12) ==> r == currentMonth
  {
    var zeroBased := if month.Some? then Some(month.value - 1) else None;
    if zeroBased.None? || zeroBased.value < 0 || zeroBased.value > 11 then currentMonth
    else zeroBased.value
  }

  /** The page writes `month + 1` into the URL; reading it back gives the
      same month whatever "today" is, and the month read is always a valid
      0-based month when today's is. */
  lemma UrlMonthRoundTrip(c: CalendarMonth, today: CalendarMonth, m: Option<int>)
    requires ValidMonth(c) && ValidMonth(today)
    ensures ValidateMonth(Some(c.month + 1), today.month) == c.month
    ensures 0 <= ValidateMonth(m, today.month) <= 11
  {
  }

  /** The page writes `year` into the URL as it is; it reads back as itself
      exactly when it lies in 1900..9999 or happens to be the current year. */
  lemma UrlYearRoundTrip(year: int, currentYear: int)
    ensures ValidateYear(Some(year), currentYear) == year <==>
            (MinYear <= year <= MaxYear || year == currentYear)
  {
  }

  /** The buttons step past both ends of 1900..9999, and the year they reach
      reads back from the URL as the current year instead. */
  lemma ButtonsLeaveUrlYearRange(currentYear: int)
    ensures PrevMonth(CalendarMonth(0, MinYear)) == CalendarMonth(11, MinYear - 1)
    ensures NextMonth(CalendarMonth(11, MaxYear)) == CalendarMonth(0, MaxYear + 1)
    ensures ValidateYear(Some(MinYear - 1), currentYear) == currentYear
    ensures ValidateYear(Some(MaxYear + 1), currentYear) == currentYear
  {
  }

  /** Reading is idempotent: validating an already validated year or month
      changes nothing. */
  lemma ValidateIdempotent(y: Option<int>, m: Option<int>, today: CalendarMonth)
    ensures ValidateYear(Some(ValidateYear(y, today.year)), today.year) == ValidateYear(y, today.year)
    ensures ValidateMonth(Some(ValidateMonth(m, today.month) + 1), today.month) == ValidateMonth(m, today.month)
  {
  }

  // ---------------------------------------------------------------------
  // Month navigation (the `<` and `>` buttons)

  /** The month after `c`: January of the next year after December. */
  function NextMonth(c: CalendarMonth): (n: CalendarMonth)
    requires ValidMonth(c)
    ensures ValidMonth(n)
    ensures n.year * 12 + n.month == c.year * 12 + c.month + 1
  {
    if c.month == 11 then CalendarMonth(0, c.year + 1) else CalendarMonth(c.month + 1, c.year)
  }

  /** `prevMonth` undoes `nextMonth` and the other way round. */
  lemma NavigationRoundTrip(c: CalendarMonth)
    requires ValidMonth(c)
    ensures PrevMonth(NextMonth(c)) == c
    ensures NextMonth(PrevMonth(c)) == c
  {
  }

  // ---------------------------------------------------------------------
  // Events

  /** An event as the month endpoint returns it; dates stay unparsed text. */
  datatype EventResponse = EventResponse(id: int, body: string, day: int, date: string, createdAt: string)

  /** An event as the page holds it. */
  datatype CalendarEvent = CalendarEvent(
    id: int, body: string, day: int, date: string, createdAt: string, recurring: bool)

  /** Events per day of the month. */
  type EventsByDay = map<int, seq<CalendarEvent>>

  /** `mapEventResponse`: a one-off event. */
  function FromResponse(r: EventResponse): (e: CalendarEvent)
    ensures !e.recurring
    ensures e.id == r.id && e.body == r.body && e.day == r.day && e.date == r.date && e.createdAt == r.createdAt
  {
    CalendarEvent(r.id, r.body, r.day, r.date, r.createdAt, false)
  }

  /** `{...mapEventResponse(r), recurring: true}` */
  function FromRecurringResponse(r: EventResponse): (e: CalendarEvent)
    ensures e.recurring && e == FromResponse(r).(recurring := true)
  {
    FromResponse(r).(recurring := true)
  }

  /** `events.get(day) || []` */
  function ForDay(m: EventsByDay, day: int): seq<CalendarEvent> {
    if day in m then m[day] else []
  }

  /** Appends `e` to the list of its day. */
  function AddToDay(m: EventsByDay, e: CalendarEvent): (r: EventsByDay)
    ensures r.Keys == m.Keys + {e.day}
    ensures ForDay(r, e.day) == ForDay(m, e.day) + [e]
    ensures forall d :: d != e.day ==> ForDay(r, d) == ForDay(m, d)
  {
    m[e.day := ForDay(m, e.day) + [e]]
  }

  /** Appends every event of `es` to its day, in order (the `forEach` loops). */
  function AddAll(m: EventsByDay, es: seq<CalendarEvent>): EventsByDay
    decreases |es|
  {
    if |es| == 0 then m else AddAll(AddToDay(m, es[0]), es[1..])
  }

  /** The events of `es` that fall on `day`, in order. */
  function OnDay(es: seq<CalendarEvent>, day: int): seq<CalendarEvent> {
    if |es| == 0 then []
    else (if es[0].day == day then [es[0]] else []) + OnDay(es[1..], day)
  }

  /** The days that occur in `es`. */
  function Days(es: seq<CalendarEvent>): set<int> {
    set i | 0 <= i < |es| :: es[i].day
  }

  lemma DaysCons(es: seq<CalendarEvent>)
    requires |es| > 0
    ensures Days(es) == {es[0].day} + Days(es[1..])
  {
    forall d | d in Days(es) ensures d in {es[0].day} + Days(es[1..]) {
      var i :| 0 <= i < |es| && es[i].day == d;
      if i > 0 {
        assert es[1..][i - 1].day == d;
      }
    }
    forall d | d in Days(es[1..]) ensures d in Days(es) {
      var i :| 0 <= i < |es[1..]| && es[1..][i].day == d;
      assert es[i + 1].day == d;
    }
  }

  /** Grouping adds a key for exactly the days that occur. */
  lemma {:induction false} AddAllKeys(m: EventsByDay, es: seq<CalendarEvent>)
    ensures AddAll(m, es).Keys == m.Keys + Days(es)
    decreases |es|
  {
    if |es| == 0 {
      assert Days(es) == {};
    } else {
      AddAllKeys(AddToDay(m, es[0]), es[1..]);
      DaysCons(es);
    }
  }

  /** Grouping appends to each day exactly that day's events, in order. */
  lemma {:induction false} AddAllDay(m: EventsByDay, es: seq<CalendarEvent>, d: int)
    ensures ForDay(AddAll(m, es), d) == ForDay(m, d) + OnDay(es, d)
    decreases |es|
  {
    if |es| > 0 {
      var e := es[0];
      var m' := AddToDay(m, e);
      AddAllDay(m', es[1..], d);
      assert AddAll(m, es) == AddAll(m', es[1..]);
      if e.day == d {
        assert ForDay(m', d) == ForDay(m, d) + [e];
        assert OnDay(es, d) == [e] + OnDay(es[1..], d);
      } else {
        assert ForDay(m', d) == ForDay(m, d);
        assert OnDay(es, d) == OnDay(es[1..], d);
      }
    }
  }

  /** The page's view of a month's events. */
  datatype PageEvents = PageEvents(byDay: EventsByDay, recurring: seq<CalendarEvent>)

  function MapResponses(rs: seq<EventResponse>, recurring: bool): (es: seq<CalendarEvent>)
    ensures |es| == |rs|
    ensures forall i :: 0 <= i < |rs| ==>
              es[i] == if recurring then FromRecurringResponse(rs[i]) else FromResponse(rs[i])
  {
    seq(|rs|, i requires 0 <= i < |rs| => if recurring then FromRecurringResponse(rs[i]) else FromResponse(rs[i]))
  }

  /** The grouping step of `getEvents`: one-off events first, then recurring
      ones, each appended to the list of its day; recurring events are also
      listed on their own. */
  function GroupEvents(events: seq<EventResponse>, recurringEvents: seq<EventResponse>): (p: PageEvents)
    ensures p.recurring == MapResponses(recurringEvents, true)
  {
    var oneOff := MapResponses(events, false);
    var recurring := MapResponses(recurringEvents, true);
    PageEvents(AddAll(AddAll(map[], oneOff), recurring), recurring)
  }

  /** The map has a key for exactly the days on which some event falls. */
  lemma {:induction false} GroupEventsKeys(events: seq<EventResponse>, recurringEvents: seq<EventResponse>)
    ensures GroupEvents(events, recurringEvents).byDay.Keys ==
            Days(MapResponses(events, false)) + Days(MapResponses(recurringEvents, true))
  {
    var oneOff, recurring := MapResponses(events, false), MapResponses(recurringEvents, true);
    var empty: EventsByDay := map[];
    assert GroupEvents(events, recurringEvents).byDay == AddAll(AddAll(empty, oneOff), recurring);
    AddAllKeys(empty, oneOff);
    AddAllKeys(AddAll(empty, oneOff), recurring);
  }

  /** Each day's list holds that day's one-off events in response order,
      followed by that day's recurring events in response order. */
  lemma {:induction false} GroupEventsDay(events: seq<EventResponse>, recurringEvents: seq<EventResponse>, d: int)
    ensures ForDay(GroupEvents(events, recurringEvents).byDay, d) ==
            OnDay(MapResponses(events, false), d) + OnDay(MapResponses(recurringEvents, true), d)
  {
    var oneOff, recurring := MapResponses(events, false), MapResponses(recurringEvents, true);
    var empty: EventsByDay := map[];
    var m1 := AddAll(empty, oneOff);
    assert GroupEvents(events, recurringEvents).byDay == AddAll(m1, recurring);
    AddAllDay(empty, oneOff, d);
    assert ForDay(empty, d) == [];
    assert ForDay(m1, d) == OnDay(oneOff, d);
    AddAllDay(m1, recurring, d);
  }

  lemma {:induction false} OnDayHas(es: seq<CalendarEvent>, i: int)
    requires 0 <= i < |es|
    ensures es[i] in OnDay(es, es[i].day)
  {
    if i > 0 {
      OnDayHas(es[1..], i - 1);
      assert es[1..][i - 1] == es[i];
    }
  }

  /** Every one-off event is listed under its day, not marked recurring;
      every recurring event is listed under its day and in the recurring
      list, marked recurring. */
  lemma {:induction false} GroupEventsPlacesEveryEvent(events: seq<EventResponse>, recurringEvents: seq<EventResponse>)
    ensures var p := GroupEvents(events, recurringEvents);
            && (forall i :: 0 <= i < |events| ==>
                  events[i].day in p.byDay && FromResponse(events[i]) in p.byDay[events[i].day])
            && (forall i :: 0 <= i < |recurringEvents| ==>
                  && recurringEvents[i].day in p.byDay
                  && FromRecurringResponse(recurringEvents[i]) in p.byDay[recurringEvents[i].day]
                  && FromRecurringResponse(recurringEvents[i]) in p.recurring)
  {
    var p := GroupEvents(events, recurringEvents);
    var oneOff, recurring := MapResponses(events, false), MapResponses(recurringEvents, true);
    GroupEventsKeys(events, recurringEvents);
    forall i | 0 <= i < |events|
      ensures events[i].day in p.byDay && FromResponse(events[i]) in p.byDay[events[i].day]
    {
      OnDayHas(oneOff, i);
      assert events[i].day in Days(oneOff);
      GroupEventsDay(events, recurringEvents, events[i].day);
    }
    forall i | 0 <= i < |recurringEvents|
      ensures && recurringEvents[i].day in p.byDay
              && FromRecurringResponse(recurringEvents[i]) in p.byDay[recurringEvents[i].day]
              && FromRecurringResponse(recurringEvents[i]) in p.recurring
    {
      OnDayHas(recurring, i);
      assert recurringEvents[i].day in Days(recurring);
      GroupEventsDay(events, recurringEvents, recurringEvents[i].day);
      assert p.recurring[i] == FromRecurringResponse(recurringEvents[i]);
    }
  }

  /** The number of entries over all days. */
  ghost function EntryCount(m: EventsByDay): nat
    decreases |m.Keys|
  {
    if m.Keys == {} then 0
    else
      NonEmptyHasDay(m);
      var d :| d in m.Keys;
      |m[d]| + EntryCount(m - {d})
  }

  lemma NonEmptyHasDay(m: EventsByDay)
    requires m.Keys != {}
    ensures exists d :: d in m.Keys
  {
    var s := m.Keys;
    assert (forall d :: d !in s) ==> s == {};
  }

  /** Any key can be taken out first. */
  lemma {:induction false} EntryCountRemove(m: EventsByDay, k: int)
    requires k in m
    ensures EntryCount(m) == |m[k]| + EntryCount(m - {k})
    decreases |m.Keys|
  {
    var d :| d in m && EntryCount(m) == |m[d]| + EntryCount(m - {d});
    if d != k {
      assert (m - {d}).Keys == m.Keys - {d};
      assert (m - {k}).Keys == m.Keys - {k};
      EntryCountRemove(m - {d}, k);
      EntryCountRemove(m - {k}, d);
      assert m - {d} - {k} == m - {k} - {d};
    }
  }

  lemma {:induction false} EntryCountAdd(m: EventsByDay, e: CalendarEvent)
    ensures EntryCount(AddToDay(m, e)) == EntryCount(m) + 1
  {
    var r := AddToDay(m, e);
    EntryCountRemove(r, e.day);
    assert r - {e.day} == m - {e.day};
    if e.day in m {
      EntryCountRemove(m, e.day);
    } else {
      assert m - {e.day} == m;
    }
  }

  lemma {:induction false} EntryCountAddAll(m: EventsByDay, es: seq<CalendarEvent>)
    ensures EntryCount(AddAll(m, es)) == EntryCount(m) + |es|
    decreases |es|
  {
    if |es| > 0 {
      EntryCountAdd(m, es[0]);
      EntryCountAddAll(AddToDay(m, es[0]), es[1..]);
    }
  }

  /** Grouping neither loses nor duplicates events: the lists hold as many
      entries as the response has events, one-off and recurring together. */
  lemma {:induction false} GroupEventsCount(events: seq<EventResponse>, recurringEvents: seq<EventResponse>)
    ensures EntryCount(GroupEvents(events, recurringEvents).byDay) == |events| + |recurringEvents|
    ensures |GroupEvents(events, recurringEvents).recurring| == |recurringEvents|
  {
    var empty: EventsByDay := map[];
    var oneOff := MapResponses(events, false);
    EntryCountAddAll(empty, oneOff);
    EntryCountAddAll(AddAll(empty, oneOff), MapResponses(recurringEvents, true));
  }

  // ---------------------------------------------------------------------
  // Local edits after an update or a delete

  /** The events of `es` whose id is not `id`, in order (`filter`). Together
      with the entries that have the id, the kept entries are exactly the
      original ones, copies included. */
  function WithoutId(es: seq<CalendarEvent>, id: int): (r: seq<CalendarEvent>)
    ensures |r| <= |es|
    ensures forall e :: e in r <==> e in es && e.id != id
    ensures multiset(r) + multiset(OnlyId(es, id)) == multiset(es)
  {
    if |es| == 0 then []
    else
      assert es == [es[0]] + es[1..];
      (if es[0].id != id then [es[0]] else []) + WithoutId(es[1..], id)
  }

  /** One filtering step: the head is kept exactly when its id differs. */
  lemma WithoutIdCons(x: CalendarEvent, rest: seq<CalendarEvent>, id: int)
    ensures WithoutId([x] + rest, id) == (if x.id != id then [x] else []) + WithoutId(rest, id)
  {
    assert ([x] + rest)[0] == x;
    assert ([x] + rest)[1..] == rest;
  }

  /** Filtering distributes over concatenation, so the kept entries stay in
      their original order. */
  lemma {:induction false} WithoutIdAppend(a: seq<CalendarEvent>, b: seq<CalendarEvent>, id: int)
    ensures WithoutId(a + b, id) == WithoutId(a, id) + WithoutId(b, id)
  {
    if |a| == 0 {
      assert a + b == b;
    } else {
      var x, rest := a[0], a[1..];
      var head := if x.id != id then [x] else [];
      assert WithoutId(a + b, id) == head + WithoutId(rest + b, id) by {
        assert a == [x] + rest;
        AppendAssoc([x], rest, b);
        WithoutIdCons(x, rest + b, id);
      }
      assert WithoutId(a, id) == head + WithoutId(rest, id) by {
        assert a == [x] + rest;
        WithoutIdCons(x, rest, id);
      }
      WithoutIdAppend(rest, b, id);
      AppendAssoc(head, WithoutId(rest, id), WithoutId(b, id));
    }
  }

  lemma AppendAssoc<T>(a: seq<T>, b: seq<T>, c: seq<T>)
    ensures a + (b + c) == (a + b) + c
  {
  }

  /** A list with no entry of that id is kept whole. */
  lemma {:induction false} WithoutIdKeepsOthers(es: seq<CalendarEvent>, id: int)
    requires forall i :: 0 <= i < |es| ==> es[i].id != id
    ensures WithoutId(es, id) == es
  {
    if |es| > 0 {
      WithoutIdKeepsOthers(es[1..], id);
      assert es == [es[0]] + es[1..];
    }
  }

  /** Index of the first event with id `id` (`Array.prototype.find`). */
  function FindId(es: seq<CalendarEvent>, id: int): (r: Option<nat>)
    ensures r.Some? ==> r.value < |es| && es[r.value].id == id
                        && forall j :: 0 <= j < r.value ==> es[j].id != id
    ensures r.None? ==> forall j :: 0 <= j < |es| ==> es[j].id != id
  {
    if |es| == 0 then None
    else if es[0].id == id then Some(0)
    else match FindId(es[1..], id)
      case None => None
      case Some(i) => Some(i + 1)
  }

  /** `onEventUpdated`: the first entry of the event's day with the event's id
      takes the new body. The day's key is (re)written even when it held no
      list, leaving an empty list there. */
  function OnEventUpdated(m: EventsByDay, event: CalendarEvent): (r: EventsByDay)
    ensures r.Keys == m.Keys + {event.day}
    ensures forall d :: d != event.day && d in m ==> r[d] == m[d]
    ensures |r[event.day]| == |ForDay(m, event.day)|
    ensures var old_ := ForDay(m, event.day);
            forall i :: 0 <= i < |old_| ==>
              r[event.day][i] == if Some(i) == FindId(old_, event.id) then old_[i].(body := event.body) else old_[i]
  {
    var eventsForDay := ForDay(m, event.day);
    var updated :=
      match FindId(eventsForDay, event.id)
      case None => eventsForDay
      case Some(i) => eventsForDay[i := eventsForDay[i].(body := event.body)];
    m[event.day := updated]
  }

  /** After an update, the day's list differs from before only in the body of
      one entry, which is the first with the event's id; a day without such an
      entry is unchanged. */
  lemma OnEventUpdatedChangesOneBody(m: EventsByDay, event: CalendarEvent)
    ensures var before, after := ForDay(m, event.day), ForDay(OnEventUpdated(m, event), event.day);
            && |after| == |before|
            && (forall i :: 0 <= i < |before| ==> after[i].(body := before[i].body) == before[i])
            && (forall i :: 0 <= i < |before| && after[i] != before[i] ==>
                  before[i].id == event.id && after[i].body == event.body &&
                  forall j :: 0 <= j < |before| && j != i ==> after[j] == before[j])
            && ((forall i :: 0 <= i < |before| ==> before[i].id != event.id) ==> after == before)
  {
  }

  /** `onEventDeleted`: the event's entries leave its day's list, the day is
      dropped when nothing is left, and a recurring event also leaves the
      recurring list. */
  function OnEventDeleted(p: PageEvents, event: CalendarEvent): (r: PageEvents)
    ensures forall d :: d != event.day ==> (d in r.byDay <==> d in p.byDay)
    ensures forall d :: d != event.day && d in p.byDay ==> r.byDay[d] == p.byDay[d]
    ensures event.day in r.byDay <==> exists e :: e in ForDay(p.byDay, event.day) && e.id != event.id
    ensures ForDay(r.byDay, event.day) == WithoutId(ForDay(p.byDay, event.day), event.id)
    ensures event.recurring ==> r.recurring == WithoutId(p.recurring, event.id)
    ensures !event.recurring ==> r.recurring == p.recurring
  {
    var updatedEvents := WithoutId(ForDay(p.byDay, event.day), event.id);
    assert |updatedEvents| > 0 ==> updatedEvents[0] in updatedEvents;
    var byDay := if |updatedEvents| == 0 then p.byDay - {event.day} else p.byDay[event.day := updatedEvents];
    var recurring := if event.recurring then WithoutId(p.recurring, event.id) else p.recurring;
    PageEvents(byDay, recurring)
  }

  /** Filtering by id splits a list in two: what is kept and the entries with
      that id, which are all that is dropped. */
  lemma {:induction false} WithoutIdDropsOnlyThatId(es: seq<CalendarEvent>, id: int)
    ensures |WithoutId(es, id)| + |OnlyId(es, id)| == |es|
    ensures forall i :: 0 <= i < |OnlyId(es, id)| ==> OnlyId(es, id)[i].id == id
  {
    if |es| > 0 {
      WithoutIdDropsOnlyThatId(es[1..], id);
    }
  }

  /** The events of `es` whose id is `id`, in order. */
  function OnlyId(es: seq<CalendarEvent>, id: int): seq<CalendarEvent> {
    if |es| == 0 then []
    else (if es[0].id == id then [es[0]] else []) + OnlyId(es[1..], id)
  }
}
