/** The dynamic part of the advanced-search query: the text pattern bound to
    $1..$3, the availability conditions appended to the WHERE clause with
    their `$n` placeholders numbered after the parameters already bound,
    and what those conditions mean once PostgreSQL binds the parameters
    and evaluates NOW(). A reference reading of the same request,
    parsed directly and without placeholders, is proved equivalent. */
module AvailabilityFilter {
  import opened Wrappers
  import opened Text
  import opened Clock
  import opened Calendar
  import opened Schema

  // ------------------------------------------------------------ text search

  /** The value bound to the text placeholders: '%' when `q` is absent or
      empty, otherwise '%q%' (with `q` lower-cased when `lowerCase`). */
  function SearchPattern(q: Option<string>, lowerCase: bool): (p: string)
    ensures !Present(q) <==> p == "%"
    ensures Present(q) ==>
      && |p| >= 2 && p[0] == '%' && p[|p| - 1] == '%'
      && Lower(p[1..|p| - 1]) == Lower(q.value)
  {
    if Present(q) then
      var body := if lowerCase then Lower(q.value) else q.value;
      var p := "%" + body + "%";
      assert p[1..|p| - 1] == body;
      LowerIdempotent(q.value);
      p
    else "%"
  }

  /** `text ILIKE pattern` for the patterns the handlers bind: '%' matches
      anything, '%s%' matches when `s` occurs in `text` ignoring case, and
      any other pattern must equal `text` ignoring case. Wildcards inside
      `s` are read literally. */
  function ILike(text: string, pattern: string): (r: bool)
    ensures pattern == "%" ==> r
    ensures pattern != "%" && |pattern| >= 2 && pattern[0] == '%' && pattern[|pattern| - 1] == '%' ==>
      (r <==> Contains(Lower(text), Lower(pattern[1..|pattern| - 1])))
    ensures pattern != "%" && (|pattern| < 2 || pattern[0] != '%' || pattern[|pattern| - 1] != '%') ==>
      (r <==> Lower(text) == Lower(pattern))
  {
    IndexOfFindsSubstring(Lower(text), Lower(if |pattern| >= 2 then pattern[1..|pattern| - 1] else ""));
    if pattern == "%" then true
    else if |pattern| >= 2 && pattern[0] == '%' && pattern[|pattern| - 1] == '%' then
      IndexOf(Lower(text), Lower(pattern[1..|pattern| - 1])).Some?
    else Lower(text) == Lower(pattern)
  }

  /** What a text filter means: with no (or an empty) `q` every row matches;
      otherwise a column matches exactly when `q` occurs in it, ignoring
      case, whether or not the handler lower-cased `q` first. */
  lemma SearchPatternMeaning(q: Option<string>, lowerCase: bool, text: string)
    ensures ILike(text, SearchPattern(q, lowerCase)) <==> !Present(q) || Contains(Lower(text), Lower(q.value))
  {
    var p := SearchPattern(q, lowerCase);
    if Present(q) {
      var body := if lowerCase then Lower(q.value) else q.value;
      assert p[1..|p| - 1] == body;
      LowerIdempotent(q.value);
      IndexOfFindsSubstring(Lower(text), Lower(q.value));
    }
  }

  /** A column already passed through LOWER() is matched as if it were not. */
  lemma ILikeOfLower(text: string, pattern: string)
    ensures ILike(Lower(text), pattern) == ILike(text, pattern)
  {
    LowerIdempotent(text);
  }

  // ------------------------------------------------------ placeholder plan

  /** One availability condition of the WHERE clause. The first two read a
      bound parameter `$index`; the last two shift NOW() by a minute count
      that was spliced into the SQL text (None when parseInt gave NaN). */
  datatype Condition =
    | DayMatchesDateParam(index: nat)           // da.day_of_week = EXTRACT(ISODOW FROM $index::date)
    | ParamTimeWithinSlot(index: nat)           // $index::time BETWEEN da.start_time AND da.end_time
    | DayMatchesTarget(offset: Option<int>)     // da.day_of_week = EXTRACT(ISODOW FROM NOW() + offset)
    | TargetTimeWithinSlot(offset: Option<int>) // CAST(NOW() + offset AS TIME) BETWEEN ...

  /** The bound parameter list and the availability conditions. */
  datatype Plan = Plan(params: seq<string>, conditions: seq<Condition>)

  predicate ReadsParam(c: Condition) {
    c.DayMatchesDateParam? || c.ParamTimeWithinSlot?
  }

  /** A condition's placeholder, if it has one, names an existing parameter. */
  predicate PlaceholderBound(c: Condition, paramCount: nat) {
    ReadsParam(c) ==> 1 <= c.index <= paramCount
  }

  /** Appends the date condition and, only when a date is present, the
      time condition, each numbered one past the parameters so far. */
  function AddDateConditions(plan: Plan, date: Option<string>, time: Option<string>): Plan {
    if Present(date) then
      var dated := Plan(plan.params + [date.value], plan.conditions + [DayMatchesDateParam(|plan.params| + 1)]);
      if Present(time) then
        Plan(dated.params + [time.value], dated.conditions + [ParamTimeWithinSlot(|dated.params| + 1)])
      else dated
    else plan
  }

  /** The query-parameter builder of the advanced search. */
  function BuildPlan(searchQuery: string, date: Option<string>, time: Option<string>, withinMinutes: Option<string>): (plan: Plan)
    // the three text patterns always come first
    ensures |plan.params| >= 3 && plan.params[..3] == [searchQuery, searchQuery, searchQuery]
    // the date adds one parameter, the time one more but only with a date;
    // withinMinutes adds none
    ensures |plan.params| == 3 + (if Present(date) then (if Present(time) then 2 else 1) else 0)
    ensures |plan.conditions| ==
      (if Present(date) then (if Present(time) then 2 else 1) else 0) + (if Present(withinMinutes) then 2 else 0)
    // every placeholder names an existing parameter, and the right one
    ensures forall c :: c in plan.conditions ==> PlaceholderBound(c, |plan.params|)
    ensures forall c :: c in plan.conditions && c.DayMatchesDateParam? ==>
      Present(date) && c.index == 4 && plan.params[3] == date.value
    ensures forall c :: c in plan.conditions && c.ParamTimeWithinSlot? ==>
      Present(date) && Present(time) && c.index == 5 && plan.params[4] == time.value
    ensures Present(date) ==> DayMatchesDateParam(4) in plan.conditions
    ensures Present(date) && Present(time) ==> ParamTimeWithinSlot(5) in plan.conditions
    // withinMinutes contributes exactly the two NOW()-relative conditions
    ensures forall c :: c in plan.conditions && !ReadsParam(c) ==>
      Present(withinMinutes) && c.offset == ParseInt(withinMinutes.value)
    ensures Present(withinMinutes) ==>
      && DayMatchesTarget(ParseInt(withinMinutes.value)) in plan.conditions
      && TargetTimeWithinSlot(ParseInt(withinMinutes.value)) in plan.conditions
  {
    var dated := AddDateConditions(Plan([searchQuery, searchQuery, searchQuery], []), date, time);
    if Present(withinMinutes) then
      var offset := ParseInt(withinMinutes.value);
      Plan(dated.params, dated.conditions + [DayMatchesTarget(offset), TargetTimeWithinSlot(offset)])
    else dated
  }

  // ------------------------------------------------------------ SQL text

  function IntervalText(offset: Option<int>): string {
    "NOW() + INTERVAL '" + (match offset case Some(n) => IntToString(n) case None => "NaN") + " minutes'"
  }

  function RenderCondition(c: Condition): string {
    match c
    case DayMatchesDateParam(k) => "da.day_of_week = EXTRACT(ISODOW FROM $" + NatToString(k) + "::date)"
    case ParamTimeWithinSlot(k) => "$" + NatToString(k) + "::time BETWEEN da.start_time AND da.end_time"
    case DayMatchesTarget(n) => "da.day_of_week = EXTRACT(ISODOW FROM " + IntervalText(n) + ")"
    case TargetTimeWithinSlot(n) => "CAST(" + IntervalText(n) + " AS TIME) BETWEEN da.start_time AND da.end_time"
  }

  function JoinWith(parts: seq<string>, separator: string): string {
    if |parts| == 0 then ""
    else if |parts| == 1 then parts[0]
    else parts[0] + separator + JoinWith(parts[1..], separator)
  }

  /** The fragment spliced after the text filter: empty exactly when there
      are no conditions, otherwise "AND " followed by the conditions joined
      by " AND ". */
  function WhereFragment(conditions: seq<Condition>): (sql: string)
    ensures sql == "" <==> |conditions| == 0
    ensures |conditions| > 0 ==> |sql| >= 4 && sql[..4] == "AND "
  {
    if |conditions| == 0 then ""
    else "AND " + JoinWith(seq(|conditions|, i requires 0 <= i < |conditions| => RenderCondition(conditions[i])), " AND ")
  }

  // ------------------------------------------------------------ evaluation

  /** A condition after binding: the slot's weekday must equal `day`, or
      `second` must lie in [start_time, end_time] (SQL BETWEEN, both ends). */
  datatype SlotTest = DayIs(day: int) | TimeWithin(second: SecondOfDay)

  predicate Passes(slot: AvailabilityRow, t: SlotTest) {
    match t
    case DayIs(d) => slot.dayOfWeek == d
    case TimeWithin(s) => slot.startTime <= s <= slot.endTime
  }

  predicate PassesAll(slot: AvailabilityRow, tests: seq<SlotTest>) {
    forall t :: t in tests ==> Passes(slot, t)
  }

  /** Binds one condition: casts its parameter, or evaluates NOW() + N
      minutes. A cast that fails, or a NaN interval, fails the whole query. */
  function Resolve(c: Condition, params: seq<string>, now: Instant): Result<SlotTest, HttpError>
    requires PlaceholderBound(c, |params|)
  {
    match c
    case DayMatchesDateParam(k) =>
      (match ParseIsoDate(params[k - 1])
       case Some(d) => Success(DayIs(IsoDayOf(d)))
       case None => Failure(InternalServerError))
    case ParamTimeWithinSlot(k) =>
      (match ParseClock(params[k - 1])
       case Some(t) => Success(TimeWithin(t))
       case None => Failure(InternalServerError))
    case DayMatchesTarget(n) =>
      (match n
       case Some(m) => Success(DayIs(IsoWeekday(AddSeconds(now, m * SecondsPerMinute).day)))
       case None => Failure(InternalServerError))
    case TargetTimeWithinSlot(n) =>
      (match n
       case Some(m) => Success(TimeWithin(AddSeconds(now, m * SecondsPerMinute).second))
       case None => Failure(InternalServerError))
  }

  function ResolveAll(cs: seq<Condition>, params: seq<string>, now: Instant): (r: Result<seq<SlotTest>, HttpError>)
    requires forall c :: c in cs ==> PlaceholderBound(c, |params|)
    ensures r.Success? <==> forall i :: 0 <= i < |cs| ==> Resolve(cs[i], params, now).Success?
    ensures r.Success? ==> (|r.value| == |cs| &&
      forall i :: 0 <= i < |cs| ==> Resolve(cs[i], params, now) == Success(r.value[i]))
    ensures r.Failure? ==> r.error == InternalServerError
  {
    if |cs| == 0 then Success([])
    else
      match Resolve(cs[0], params, now)
      case Failure(e) => Failure(InternalServerError)
      case Success(t) =>
        match ResolveAll(cs[1..], params, now)
        case Failure(e) => Failure(InternalServerError)
        case Success(ts) => Success([t] + ts)
  }

  // ------------------------------------------------------------- reference

  /** The availability a request asks for, read directly from its
      parameters: a date, a clock time on that date, and an instant N
      minutes from now. */
  datatype AvailabilityRequest = AvailabilityRequest(
    onDate: Option<Date>,
    atTime: Option<SecondOfDay>,
    target: Option<Instant>)

  /** Reads the availability parameters; `time` is only looked at when a
      date is given, and anything unreadable fails the request with a 500. */
  function ParseAvailability(date: Option<string>, time: Option<string>, withinMinutes: Option<string>, now: Instant)
    : (r: Result<AvailabilityRequest, HttpError>)
    ensures r.Failure? ==> r.error == InternalServerError
    ensures r.Success? ==> (r.value.onDate.Some? <==> Present(date))
    ensures r.Success? ==> (r.value.atTime.Some? <==> Present(date) && Present(time))
    ensures r.Success? ==> (r.value.target.Some? <==> Present(withinMinutes))
  {
    var onDate: Option<Date> := if Present(date) then ParseIsoDate(date.value) else None;
    var atTime: Option<SecondOfDay> := if Present(date) && Present(time) then ParseClock(time.value) else None;
    var offset: Option<int> := if Present(withinMinutes) then ParseInt(withinMinutes.value) else None;
    if (Present(date) && onDate.None?) || (Present(date) && Present(time) && atTime.None?)
       || (Present(withinMinutes) && offset.None?)
    then Failure(InternalServerError)
    else
      Success(AvailabilityRequest(
        onDate,
        atTime,
        if Present(withinMinutes) then Some(AddSeconds(now, offset.value * SecondsPerMinute)) else None))
  }

  /** A slot serves the request: it falls on the requested date's ISO
      weekday, the requested time lies within it (ends included), and the
      instant N minutes from now falls on its weekday and within it. */
  predicate Covers(slot: AvailabilityRow, ar: AvailabilityRequest) {
    && (ar.onDate.Some? ==> ValidDate(ar.onDate.value) && slot.dayOfWeek == IsoDayOf(ar.onDate.value))
    && (ar.atTime.Some? ==> slot.startTime <= ar.atTime.value <= slot.endTime)
    && (ar.target.Some? ==>
          && slot.dayOfWeek == IsoWeekday(ar.target.value.day)
          && slot.startTime <= ar.target.value.second <= slot.endTime)
  }

  /** A bound condition that holds for the slot. */
  predicate Holds(slot: AvailabilityRow, r: Result<SlotTest, HttpError>) {
    r.Success? && Passes(slot, r.value)
  }

  /** Binding all conditions succeeds when each does, and the slot then
      passes them all when each of them holds. */
  lemma ResolveAllMeaning(cs: seq<Condition>, params: seq<string>, now: Instant, slot: AvailabilityRow)
    requires forall c :: c in cs ==> PlaceholderBound(c, |params|)
    ensures ResolveAll(cs, params, now).Success? <==> forall c :: c in cs ==> Resolve(c, params, now).Success?
    ensures ResolveAll(cs, params, now).Success? ==>
      (PassesAll(slot, ResolveAll(cs, params, now).value) <==> forall c :: c in cs ==> Holds(slot, Resolve(c, params, now)))
  {
    var r := ResolveAll(cs, params, now);
    if r.Success? {
      var tests := r.value;
      if PassesAll(slot, tests) {
        forall c | c in cs
          ensures Holds(slot, Resolve(c, params, now))
        {
          var i :| 0 <= i < |cs| && cs[i] == c;
          assert tests[i] in tests;
        }
      }
      if forall c :: c in cs ==> Holds(slot, Resolve(c, params, now)) {
        forall t | t in tests
          ensures Passes(slot, t)
        {
          var i :| 0 <= i < |tests| && tests[i] == t;
          assert cs[i] in cs;
        }
      }
    } else {
      var i :| 0 <= i < |cs| && Resolve(cs[i], params, now).Failure?;
      assert cs[i] in cs;
    }
  }

  /** The conditions of a plan, in order: the date's, the time's, then the
      two NOW()-relative ones. */
  lemma PlanConditions(searchQuery: string, date: Option<string>, time: Option<string>, withinMinutes: Option<string>)
    ensures var plan := BuildPlan(searchQuery, date, time, withinMinutes);
      var offset := if Present(withinMinutes) then ParseInt(withinMinutes.value) else None;
      && plan.conditions ==
           (if Present(date) then [DayMatchesDateParam(4)] else [])
           + (if Present(date) && Present(time) then [ParamTimeWithinSlot(5)] else [])
           + (if Present(withinMinutes) then [DayMatchesTarget(offset), TargetTimeWithinSlot(offset)] else [])
      && (Present(date) ==> plan.params[3] == date.value)
      && (Present(date) && Present(time) ==> plan.params[4] == time.value)
  {
  }

  /** The conditions of a plan split by the request parameter they come from. */
  function DateConditions(date: Option<string>): seq<Condition> {
    if Present(date) then [DayMatchesDateParam(4)] else []
  }

  function TimeConditions(date: Option<string>, time: Option<string>): seq<Condition> {
    if Present(date) && Present(time) then [ParamTimeWithinSlot(5)] else []
  }

  function TargetConditions(withinMinutes: Option<string>): seq<Condition> {
    if Present(withinMinutes) then
      var offset := ParseInt(withinMinutes.value);
      [DayMatchesTarget(offset), TargetTimeWithinSlot(offset)]
    else []
  }

  lemma PlanParts(searchQuery: string, date: Option<string>, time: Option<string>, withinMinutes: Option<string>)
    ensures var plan := BuildPlan(searchQuery, date, time, withinMinutes);
      && plan.conditions == DateConditions(date) + TimeConditions(date, time) + TargetConditions(withinMinutes)
      && (Present(date) ==> |plan.params| >= 4 && plan.params[3] == date.value)
      && (Present(date) && Present(time) ==> |plan.params| >= 5 && plan.params[4] == time.value)
  {
  }

  /** What ParseAvailability reads from each parameter. */
  lemma ParseAvailabilityParts(date: Option<string>, time: Option<string>, withinMinutes: Option<string>, now: Instant)
    ensures var ar := ParseAvailability(date, time, withinMinutes, now);
      && (ar.Success? <==>
            && (Present(date) ==> ParseIsoDate(date.value).Some?)
            && (Present(date) && Present(time) ==> ParseClock(time.value).Some?)
            && (Present(withinMinutes) ==> ParseInt(withinMinutes.value).Some?))
      && (ar.Success? ==>
            && ar.value.onDate == (if Present(date) then ParseIsoDate(date.value) else None)
            && ar.value.atTime == (if Present(date) && Present(time) then ParseClock(time.value) else None)
            && ar.value.target ==
                 (if Present(withinMinutes)
                  then Some(AddSeconds(now, ParseInt(withinMinutes.value).value * SecondsPerMinute)) else None))
  {
  }

  lemma DatePart(params: seq<string>, date: Option<string>, now: Instant, slot: AvailabilityRow)
    requires Present(date) ==> |params| >= 4 && params[3] == date.value
    ensures forall c :: c in DateConditions(date) ==> PlaceholderBound(c, |params|)
    ensures (forall c :: c in DateConditions(date) ==> Resolve(c, params, now).Success?) <==>
      (Present(date) ==> ParseIsoDate(date.value).Some?)
    ensures (forall c :: c in DateConditions(date) ==> Holds(slot, Resolve(c, params, now))) <==>
      (Present(date) ==> ParseIsoDate(date.value).Some? && slot.dayOfWeek == IsoDayOf(ParseIsoDate(date.value).value))
  {
    if Present(date) {
      var c := DayMatchesDateParam(4);
      assert DateConditions(date) == [c];
      assert params[c.index - 1] == date.value;
      var r := Resolve(c, params, now);
      assert r.Success? <==> ParseIsoDate(date.value).Some?;
      assert r.Success? ==> r.value == DayIs(IsoDayOf(ParseIsoDate(date.value).value));
      assert forall x :: x in DateConditions(date) <==> x == c;
    }
  }

  lemma TimePart(params: seq<string>, date: Option<string>, time: Option<string>, now: Instant, slot: AvailabilityRow)
    requires Present(date) && Present(time) ==> |params| >= 5 && params[4] == time.value
    ensures forall c :: c in TimeConditions(date, time) ==> PlaceholderBound(c, |params|)
    ensures (forall c :: c in TimeConditions(date, time) ==> Resolve(c, params, now).Success?) <==>
      (Present(date) && Present(time) ==> ParseClock(time.value).Some?)
    ensures (forall c :: c in TimeConditions(date, time) ==> Holds(slot, Resolve(c, params, now))) <==>
      (Present(date) && Present(time) ==>
         ParseClock(time.value).Some? && slot.startTime <= ParseClock(time.value).value <= slot.endTime)
  {
    if Present(date) && Present(time) {
      var c := ParamTimeWithinSlot(5);
      assert TimeConditions(date, time) == [c];
      assert params[c.index - 1] == time.value;
      var r := Resolve(c, params, now);
      assert r.Success? <==> ParseClock(time.value).Some?;
      assert r.Success? ==> r.value == TimeWithin(ParseClock(time.value).value);
      assert forall x :: x in TimeConditions(date, time) <==> x == c;
    }
  }

  lemma TargetPart(params: seq<string>, withinMinutes: Option<string>, now: Instant, slot: AvailabilityRow)
    ensures forall c :: c in TargetConditions(withinMinutes) ==> PlaceholderBound(c, |params|)
    ensures (forall c :: c in TargetConditions(withinMinutes) ==> Resolve(c, params, now).Success?) <==>
      (Present(withinMinutes) ==> ParseInt(withinMinutes.value).Some?)
    ensures (forall c :: c in TargetConditions(withinMinutes) ==> Holds(slot, Resolve(c, params, now))) <==>
      (Present(withinMinutes) ==>
         && ParseInt(withinMinutes.value).Some?
         && var target := AddSeconds(now, ParseInt(withinMinutes.value).value * SecondsPerMinute);
            slot.dayOfWeek == IsoWeekday(target.day) && slot.startTime <= target.second <= slot.endTime)
  {
    if Present(withinMinutes) {
      var offset := ParseInt(withinMinutes.value);
      assert TargetConditions(withinMinutes) == [DayMatchesTarget(offset), TargetTimeWithinSlot(offset)];
      assert forall x :: x in TargetConditions(withinMinutes) <==> x == DayMatchesTarget(offset) || x == TargetTimeWithinSlot(offset);
      if offset.Some? {
        var target := AddSeconds(now, offset.value * SecondsPerMinute);
        assert Resolve(DayMatchesTarget(offset), params, now) == Success(DayIs(IsoWeekday(target.day)));
        assert Resolve(TargetTimeWithinSlot(offset), params, now) == Success(TimeWithin(target.second));
      } else {
        assert Resolve(DayMatchesTarget(offset), params, now).Failure?;
      }
    }
  }

  /** A property holds of all of `a + b + c` when it holds of each part. */
  lemma AllOfParts(a: seq<Condition>, b: seq<Condition>, c: seq<Condition>, p: Condition -> bool)
    ensures (forall x :: x in a + b + c ==> p(x)) <==>
      (forall x :: x in a ==> p(x)) && (forall x :: x in b ==> p(x)) && (forall x :: x in c ==> p(x))
  {
  }

  /** Binding the plan fails exactly when reading the request directly fails. */
  lemma PlanFailsLikeReference(searchQuery: string, date: Option<string>, time: Option<string>,
                               withinMinutes: Option<string>, now: Instant)
    ensures var plan := BuildPlan(searchQuery, date, time, withinMinutes);
      ResolveAll(plan.conditions, plan.params, now).Success? <==> ParseAvailability(date, time, withinMinutes, now).Success?
  {
    var plan := BuildPlan(searchQuery, date, time, withinMinutes);
    var params := plan.params;
    var slot := AvailabilityRow(0, 0, 0, 0, 0);
    PlanParts(searchQuery, date, time, withinMinutes);
    ParseAvailabilityParts(date, time, withinMinutes, now);
    DatePart(params, date, now, slot);
    TimePart(params, date, time, now, slot);
    TargetPart(params, withinMinutes, now, slot);
    AllOfParts(DateConditions(date), TimeConditions(date, time), TargetConditions(withinMinutes),
      c => PlaceholderBound(c, |params|) && Resolve(c, params, now).Success?);
    ResolveAllMeaning(plan.conditions, params, now, slot);
  }

  /** Once bound, the plan admits exactly the slots the direct reading covers. */
  lemma PlanFiltersLikeReference(searchQuery: string, date: Option<string>, time: Option<string>,
                                 withinMinutes: Option<string>, now: Instant, slot: AvailabilityRow)
    requires ParseAvailability(date, time, withinMinutes, now).Success?
    ensures var plan := BuildPlan(searchQuery, date, time, withinMinutes);
      var tests := ResolveAll(plan.conditions, plan.params, now);
      tests.Success? && (PassesAll(slot, tests.value) <==> Covers(slot, ParseAvailability(date, time, withinMinutes, now).value))
  {
    var plan := BuildPlan(searchQuery, date, time, withinMinutes);
    var params := plan.params;
    PlanFailsLikeReference(searchQuery, date, time, withinMinutes, now);
    PlanParts(searchQuery, date, time, withinMinutes);
    ParseAvailabilityParts(date, time, withinMinutes, now);
    DatePart(params, date, now, slot);
    TimePart(params, date, time, now, slot);
    TargetPart(params, withinMinutes, now, slot);
    AllOfParts(DateConditions(date), TimeConditions(date, time), TargetConditions(withinMinutes),
      c => PlaceholderBound(c, |params|) && Holds(slot, Resolve(c, params, now)));
    ResolveAllMeaning(plan.conditions, params, now, slot);
  }

  /** The placeholder plan, once bound, fails exactly when the direct
      reading fails, and otherwise admits exactly the slots it covers. */
  lemma PlanAgreesWithReference(searchQuery: string, date: Option<string>, time: Option<string>,
                                withinMinutes: Option<string>, now: Instant)
    ensures var plan := BuildPlan(searchQuery, date, time, withinMinutes);
      var tests := ResolveAll(plan.conditions, plan.params, now);
      var ar := ParseAvailability(date, time, withinMinutes, now);
      && (tests.Success? <==> ar.Success?)
      && (tests.Success? ==> forall slot :: PassesAll(slot, tests.value) <==> Covers(slot, ar.value))
  {
    PlanFailsLikeReference(searchQuery, date, time, withinMinutes, now);
    forall slot | ParseAvailability(date, time, withinMinutes, now).Success?
      ensures var plan := BuildPlan(searchQuery, date, time, withinMinutes);
        var tests := ResolveAll(plan.conditions, plan.params, now);
        PassesAll(slot, tests.value) <==> Covers(slot, ParseAvailability(date, time, withinMinutes, now).value)
    {
      PlanFiltersLikeReference(searchQuery, date, time, withinMinutes, now, slot);
    }
  }

  /** Server-side windows are closed: a slot is still found when the
      requested time equals its end time. */
  lemma EndTimeIsIncluded(searchQuery: string, date: string, time: string, slot: AvailabilityRow, now: Instant)
    requires ParseIsoDate(date).Some? && slot.dayOfWeek == IsoDayOf(ParseIsoDate(date).value)
    requires ParseClock(time) == Some(slot.endTime) && slot.startTime <= slot.endTime
    ensures var plan := BuildPlan(searchQuery, Some(date), Some(time), None);
      var tests := ResolveAll(plan.conditions, plan.params, now);
      tests.Success? && PassesAll(slot, tests.value)
  {
    PlanAgreesWithReference(searchQuery, Some(date), Some(time), None, now);
  }
}
