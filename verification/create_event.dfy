/**
  The accept/reject decision of the event-creation endpoint: which requests
  are refused with status 400, and, for accepted ones, the one-off date or the
  recurrence rule that is stored. Database writes are reduced to the rows
  they would leave behind.
*/
module CreateEvent {
  import opened Options

  /** A JSON value supplied for a repeat-pattern key: a number, or any other
      JSON value (string, boolean, object, array) kept as its text. */
  datatype Value = Num(n: int) | Other(json: string)

  /** The request's `pattern` object; `None` is an absent or `null` key. */
  datatype Pattern = Pattern(
    year: Option<Value>,
    month: Option<Value>,
    day: Option<Value>,
    week: Option<Value>,
    weekday: Option<Value>)

  datatype PatternKey = Year | Month | Day | Week | Weekday

  /** The request body. `body` is `None` when it is missing, `null` or not a
      string; `pattern` is `None` when it is missing or `null`. */
  datatype Request = Request(
    body: Option<string>,
    date: Option<string>,
    startDate: Option<string>,
    endDate: Option<string>,
    pattern: Option<Pattern>)

  /** The handler's answer: a 400 error, or the event with its stored meta row. */
  datatype Outcome =
    | Rejected(status: int, message: string)
    | Single(body: string, date: string)
    | Recurring(body: string, start: string, end: Option<string>, pattern: Pattern)
  {
    predicate Accepted() {
      Single? || Recurring?
    }
  }

  const BadRequest := 400

  const BodyRequired := "Event body is required and must be a string"
  const EndDateNeedsPattern := "endDate can only be used with recurring events"
  const StartDateRequired := "Start date is required for recurring events"
  const PatternKeyRequired := "At least one repeat pattern key (year, month, day, week, or weekday) is required"
  const OnlyOneKeyPrefix := "Only one repeat pattern key is allowed. Received: "
  const MonthOutOfRange := "Month must be between 0 and 11"
  const WeekdayOutOfRange := "Weekday must be between 0 and 6"
  const DayOutOfRange := "Day must be between 1 and 31"
  const DateRequired := "Date is required for single-time events"

  /** JavaScript truthiness of an optional string: absent, `null` and `""` are false. */
  predicate Truthy(s: Option<string>) {
    s.Some? && s.value != ""
  }

  function Get(p: Pattern, k: PatternKey): Option<Value> {
    match k
    case Year => p.year
    case Month => p.month
    case Day => p.day
    case Week => p.week
    case Weekday => p.weekday
  }

  function KeyName(k: PatternKey): string {
    match k
    case Year => "year"
    case Month => "month"
    case Day => "day"
    case Week => "week"
    case Weekday => "weekday"
  }

  /** The keys in the order the handler scans them. */
  const AllKeys: seq<PatternKey> := [Year, Month, Day, Week, Weekday]

  /** The keys of `ks` whose value is not null or absent (a value of 0 counts as set). */
  function SetKeys(p: Pattern, ks: seq<PatternKey>): (r: seq<PatternKey>)
    ensures |r| <= |ks|
    ensures forall i :: 0 <= i < |r| ==> Get(p, r[i]).Some?
  {
    if |ks| == 0 then []
    else (if Get(p, ks[0]).Some? then [ks[0]] else []) + SetKeys(p, ks[1..])
  }

  function PresentKeys(p: Pattern): seq<PatternKey> {
    SetKeys(p, AllKeys)
  }

  /** `names.join(', ')` */
  function JoinNames(ks: seq<PatternKey>): string {
    if |ks| == 0 then ""
    else if |ks| == 1 then KeyName(ks[0])
    else KeyName(ks[0]) + ", " + JoinNames(ks[1..])
  }

  /** The range checks: they apply only to numeric values of month, weekday
      and day; year and week are never range-checked. */
  function RangeError(k: PatternKey, v: Value): Option<string> {
    match v
    case Other(_) => None
    case Num(n) =>
      if k == Month && (n < 0 || n > 11) then Some(MonthOutOfRange)
      else if k == Weekday && (n < 0 || n > 6) then Some(WeekdayOutOfRange)
      else if k == Day && (n < 1 || n > 31) then Some(DayOutOfRange)
      else None
  }

  /** The stored repeat pattern: the chosen key holds `v`, every other key is null. */
  function OnlyKey(k: PatternKey, v: Value): Pattern {
    Pattern(
      if k == Year then Some(v) else None,
      if k == Month then Some(v) else None,
      if k == Day then Some(v) else None,
      if k == Week then Some(v) else None,
      if k == Weekday then Some(v) else None)
  }

  /** The recurring branch (`createRecurringEventMeta`). */
  function CreateRecurring(body: string, req: Request, p: Pattern): (o: Outcome)
    ensures o.Rejected? ==> o.status == BadRequest
    ensures !Truthy(req.startDate) ==> o == Rejected(BadRequest, StartDateRequired)
    ensures o.Recurring? ==> o.body == body && Truthy(req.startDate) && o.start == req.startDate.value
  {
    if !Truthy(req.startDate) then Rejected(BadRequest, StartDateRequired)
    else
      var keys := PresentKeys(p);
      if |keys| == 0 then Rejected(BadRequest, PatternKeyRequired)
      else if |keys| > 1 then Rejected(BadRequest, OnlyOneKeyPrefix + JoinNames(keys))
      else
        var key := keys[0];
        var value := Get(p, key).value;
        match RangeError(key, value)
        case Some(msg) => Rejected(BadRequest, msg)
        case None =>
          var end := if Truthy(req.endDate) then req.endDate else None;
          Recurring(body, req.startDate.value, end, OnlyKey(key, value))
  }

  /** The one-off branch (`createSingleEventMeta`). */
  function CreateSingle(body: string, req: Request): (o: Outcome)
    ensures o.Single? <==> Truthy(req.date)
    ensures o.Single? ==> o == Single(body, req.date.value)
    ensures !o.Single? ==> o == Rejected(BadRequest, DateRequired)
  {
    if !Truthy(req.date) then Rejected(BadRequest, DateRequired) else Single(body, req.date.value)
  }

  /** The handler's decision. The body check comes first, then the endDate
      check; a present pattern object selects the recurring branch. */
  function Decide(req: Request): (o: Outcome)
    ensures o.Rejected? ==> o.status == BadRequest
    ensures req.body.None? ==> o == Rejected(BadRequest, BodyRequired)
    ensures req.body.Some? && Truthy(req.endDate) && req.pattern.None? ==> o == Rejected(BadRequest, EndDateNeedsPattern)
    ensures o.Single? ==> req.pattern.None? && o.body == req.body.value
    ensures o.Recurring? ==> req.pattern.Some? && o.body == req.body.value
  {
    if req.body.None? then Rejected(BadRequest, BodyRequired)
    else if Truthy(req.endDate) && req.pattern.None? then Rejected(BadRequest, EndDateNeedsPattern)
    else if req.pattern.Some? then CreateRecurring(req.body.value, req, req.pattern.value)
    else CreateSingle(req.body.value, req)
  }

  // ---------------------------------------------------------------------
  // Reference definitions: what an acceptable request is, stated without
  // the handler's scan order.

  /** Exactly one of the five keys is set. */
  ghost predicate ExactlyOneKey(p: Pattern) {
    exists k: PatternKey :: Get(p, k).Some? && forall j: PatternKey :: Get(p, j).Some? ==> j == k
  }

  ghost predicate NoKey(p: Pattern) {
    forall k: PatternKey :: Get(p, k).None?
  }

  /** A value is acceptable for a key when it is not a number or is a number
      in that key's range. */
  ghost predicate InRange(k: PatternKey, v: Value) {
    v.Num? ==>
      && (k == Month ==> 0 <= v.n <= 11)
      && (k == Weekday ==> 0 <= v.n <= 6)
      && (k == Day ==> 1 <= v.n <= 31)
  }

  ghost predicate ValidRecurring(req: Request) {
    && req.body.Some?
    && req.pattern.Some?
    && Truthy(req.startDate)
    && ExactlyOneKey(req.pattern.value)
    && forall k: PatternKey :: Get(req.pattern.value, k).Some? ==> InRange(k, Get(req.pattern.value, k).value)
  }

  ghost predicate ValidSingle(req: Request) {
    req.body.Some? && req.pattern.None? && !Truthy(req.endDate) && Truthy(req.date)
  }

  /** `[k]` when `k` is set, `[]` otherwise. */
  function IfSet(p: Pattern, k: PatternKey): seq<PatternKey> {
    if Get(p, k).Some? then [k] else []
  }

  /** The scan over the five keys, written out. */
  lemma PresentKeysUnfold(p: Pattern)
    ensures PresentKeys(p) ==
      IfSet(p, Year) + (IfSet(p, Month) + (IfSet(p, Day) + (IfSet(p, Week) + IfSet(p, Weekday))))
  {
    var e: seq<PatternKey> := [];
    assert [Weekday] == [Weekday] + e;
    SetKeysCons(p, Weekday, e);
    assert SetKeys(p, [Weekday]) == IfSet(p, Weekday);
    assert [Week, Weekday] == [Week] + [Weekday];
    SetKeysCons(p, Week, [Weekday]);
    assert [Day, Week, Weekday] == [Day] + [Week, Weekday];
    SetKeysCons(p, Day, [Week, Weekday]);
    assert [Month, Day, Week, Weekday] == [Month] + [Day, Week, Weekday];
    SetKeysCons(p, Month, [Day, Week, Weekday]);
    assert AllKeys == [Year] + [Month, Day, Week, Weekday];
    SetKeysCons(p, Year, [Month, Day, Week, Weekday]);
  }

  lemma SetKeysCons(p: Pattern, k: PatternKey, ks: seq<PatternKey>)
    ensures SetKeys(p, [k] + ks) == IfSet(p, k) + SetKeys(p, ks)
  {
    assert ([k] + ks)[0] == k;
    assert ([k] + ks)[1..] == ks;
  }

  function Ind(b: bool): nat {
    if b then 1 else 0
  }

  /** The scan finds as many keys as there are non-null fields. */
  lemma PresentKeysLength(p: Pattern)
    ensures |PresentKeys(p)| ==
      Ind(p.year.Some?) + Ind(p.month.Some?) + Ind(p.day.Some?) + Ind(p.week.Some?) + Ind(p.weekday.Some?)
  {
    PresentKeysUnfold(p);
  }

  lemma NoKeyIff(p: Pattern)
    ensures NoKey(p) <==> p.year.None? && p.month.None? && p.day.None? && p.week.None? && p.weekday.None?
  {
    if p.year.None? && p.month.None? && p.day.None? && p.week.None? && p.weekday.None? {
      forall k: PatternKey ensures Get(p, k).None? {
        match k
        case Year =>
        case Month =>
        case Day =>
        case Week =>
        case Weekday =>
      }
    }
    if NoKey(p) {
      assert Get(p, Year).None? && Get(p, Month).None? && Get(p, Day).None?;
      assert Get(p, Week).None? && Get(p, Weekday).None?;
    }
  }

  lemma {:induction false} ExactlyOneKeyIff(p: Pattern)
    ensures ExactlyOneKey(p) <==>
      Ind(p.year.Some?) + Ind(p.month.Some?) + Ind(p.day.Some?) + Ind(p.week.Some?) + Ind(p.weekday.Some?) == 1
  {
    var n := Ind(p.year.Some?) + Ind(p.month.Some?) + Ind(p.day.Some?) + Ind(p.week.Some?) + Ind(p.weekday.Some?);
    if ExactlyOneKey(p) {
      var k: PatternKey :| Get(p, k).Some? && forall j: PatternKey :: Get(p, j).Some? ==> j == k;
      assert Get(p, Year).Some? ==> k == Year;
      assert Get(p, Month).Some? ==> k == Month;
      assert Get(p, Day).Some? ==> k == Day;
      assert Get(p, Week).Some? ==> k == Week;
      assert Get(p, Weekday).Some? ==> k == Weekday;
      match k
      case Year =>
      case Month =>
      case Day =>
      case Week =>
      case Weekday =>
    }
    if n == 1 {
      var k :=
        if p.year.Some? then Year else if p.month.Some? then Month else if p.day.Some? then Day
        else if p.week.Some? then Week else Weekday;
      forall j: PatternKey | Get(p, j).Some? ensures j == k {
        match j
        case Year =>
        case Month =>
        case Day =>
        case Week =>
        case Weekday =>
      }
      assert Get(p, k).Some?;
    }
  }

  lemma {:induction false} PresentKeysCount(p: Pattern)
    ensures |PresentKeys(p)| == 0 <==> NoKey(p)
    ensures |PresentKeys(p)| == 1 <==> ExactlyOneKey(p)
    ensures |PresentKeys(p)| == 1 ==> Get(p, PresentKeys(p)[0]).Some?
  {
    PresentKeysLength(p);
    NoKeyIff(p);
    ExactlyOneKeyIff(p);
  }

  /** The handler stores a recurring event exactly for the requests that
      carry a body, a pattern object, a start date and exactly one in-range key. */
  lemma {:induction false} RecurringAcceptedIff(req: Request)
    ensures Decide(req).Recurring? <==> ValidRecurring(req)
  {
    if req.pattern.Some? {
      PresentKeysCount(req.pattern.value);
    }
  }

  /** The handler stores a one-off event exactly for the requests that carry
      a body and a date, no pattern and no endDate. */
  lemma SingleAcceptedIff(req: Request)
    ensures Decide(req).Single? <==> ValidSingle(req)
    ensures Decide(req).Single? ==> Decide(req).date == req.date.value
  {
  }

  /** An accepted recurring event stores exactly one non-null key: the one
      the request set, holding the supplied value, so the stored pattern is
      the requested one. */
  lemma {:induction false} StoredPatternIsRequested(req: Request)
    requires Decide(req).Recurring?
    ensures ExactlyOneKey(Decide(req).pattern)
    ensures Decide(req).pattern == req.pattern.value
    ensures Decide(req).end == if Truthy(req.endDate) then req.endDate else None
  {
    var p := req.pattern.value;
    PresentKeysCount(p);
    var k := PresentKeys(p)[0];
    assert forall j: PatternKey :: Get(p, j).Some? ==> j == k by {
      forall j: PatternKey | Get(p, j).Some? ensures j == k {
        assert j in PresentKeys(p);
      }
    }
    var q := Decide(req).pattern;
    assert q == OnlyKey(k, Get(p, k).value);
    assert Get(q, k).Some?;
    assert forall j: PatternKey :: Get(q, j).Some? ==> j == k;
    assert Get(p, Year).Some? ==> Year == k;
    assert Get(p, Month).Some? ==> Month == k;
    assert Get(p, Day).Some? ==> Day == k;
    assert Get(p, Week).Some? ==> Week == k;
    assert Get(p, Weekday).Some? ==> Weekday == k;
  }

  /** The order of the refusals: a request failing several checks gets the
      message of the first one the handler meets. */
  lemma RejectionOrder(req: Request)
    requires req.body.Some? && req.pattern.Some?
    ensures !Truthy(req.startDate) ==> Decide(req) == Rejected(BadRequest, StartDateRequired)
    ensures Truthy(req.startDate) && NoKey(req.pattern.value) ==> Decide(req) == Rejected(BadRequest, PatternKeyRequired)
    ensures Truthy(req.startDate) && |PresentKeys(req.pattern.value)| > 1 ==>
              Decide(req) == Rejected(BadRequest, OnlyOneKeyPrefix + JoinNames(PresentKeys(req.pattern.value)))
  {
    PresentKeysCount(req.pattern.value);
  }

  /** A month key alone is a valid monthly rule for every month in range,
      0 (January) included: a key set to 0 is set. */
  lemma MonthKeyAccepted(body: string, startDate: string, month: int)
    requires startDate != []
    requires 0 <= month <= 11
    ensures var p := Pattern(None, Some(Num(month)), None, None, None);
            Decide(Request(Some(body), None, Some(startDate), None, Some(p))) ==
              Recurring(body, startDate, None, p)
  {
    PresentKeysUnfold(Pattern(None, Some(Num(month)), None, None, None));
  }

  /** Month and weekday together are two keys, refused with both names
      whatever their values, 0 included. */
  lemma MonthAndWeekdayRefused(body: string, startDate: string, month: int, weekday: int)
    requires startDate != []
    ensures var p := Pattern(None, Some(Num(month)), None, None, Some(Num(weekday)));
            Decide(Request(Some(body), None, Some(startDate), None, Some(p))) ==
              Rejected(BadRequest, "Only one repeat pattern key is allowed. Received: month, weekday")
  {
    var p := Pattern(None, Some(Num(month)), None, None, Some(Num(weekday)));
    var req := Request(Some(body), None, Some(startDate), None, Some(p));
    PresentKeysUnfold(p);
    assert PresentKeys(p) == [Month, Weekday];
    RejectionOrder(req);
    assert [Month, Weekday][1..] == [Weekday];
    assert JoinNames([Month, Weekday]) == "month" + ", " + "weekday";
  }

  // ---------------------------------------------------------------------
  // Rows left in the database. The handler inserts the `events` row inside
  // a transaction before choosing a branch; the later refusals are returned,
  // not thrown, so the transaction commits.

  datatype Rows = Rows(eventRows: nat, metaRows: nat)

  /** What the handler leaves behind as written. */
  function RowsWrittenAsWritten(req: Request): (r: Rows)
    ensures req.body.None? ==> r == Rows(0, 0)
    ensures Truthy(req.endDate) && req.pattern.None? ==> r == Rows(0, 0)
    ensures req.body.Some? && !(Truthy(req.endDate) && req.pattern.None?) ==> r.eventRows == 1
    ensures r.metaRows == if Decide(req).Accepted() then 1 else 0
  {
    if req.body.None? || (Truthy(req.endDate) && req.pattern.None?) then Rows(0, 0)
    else if Decide(req).Accepted() then Rows(1, 1)
    else Rows(1, 0)
  }

  /** A pattern object with no keys is refused (for want of a key, or of a
      start date when that is empty too), yet leaves an `events` row with no
      meta row, whatever the body and start date. */
  lemma OrphanEventRow(body: string, startDate: string)
    ensures var req := Request(Some(body), None, Some(startDate), None, Some(Pattern(None, None, None, None, None)));
            && Decide(req) == Rejected(BadRequest, if startDate == [] then StartDateRequired else PatternKeyRequired)
            && RowsWrittenAsWritten(req) == Rows(1, 0)
  {
    PresentKeysUnfold(Pattern(None, None, None, None, None));
  }

  /** The intended, atomic behaviour: the event row and its meta row are
      written together, and only for an accepted request. */
  function RowsWritten(req: Request): (r: Rows)
    ensures r.eventRows == r.metaRows <= 1
    ensures r.eventRows == 1 <==> Decide(req).Accepted()
    ensures r == if ValidSingle(req) || ValidRecurring(req) then Rows(1, 1) else Rows(0, 0)
  {
    RecurringAcceptedIff(req);
    SingleAcceptedIff(req);
    if Decide(req).Accepted() then Rows(1, 1) else Rows(0, 0)
  }
}
