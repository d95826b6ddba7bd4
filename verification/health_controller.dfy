/** The three HTTP handlers of the health controller: the legacy hospital
    search by straight-line distance, the advanced search that groups
    available doctors by hospital and orders hospitals by road travel time,
    and the list of doctors on duty at one hospital on one date.

    A handler is a function of its query parameters and a read-only
    snapshot of the tables. What PostGIS and pgRouting compute is passed in
    as an oracle: `distance` gives the straight-line metres from the user
    to a hospital, `route` the shortest road route's length and duration
    (None when pgr_dijkstra finds no path and its SUM is NULL). */
module HealthController {
  import opened Wrappers
  import opened Seqs
  import opened Text
  import opened Clock
  import opened Calendar
  import opened Travel
  import opened Schema
  import opened AvailabilityFilter

  const CoordinatesRequired := "Latitude and longitude are required."
  const DateRequired := "A date parameter is required."

  // ------------------------------------------------------------ coordinates

  /** parseFloat reads a finite number from `s`: an optional sign, then a
      digit, or a '.' followed by a digit. Anything else gives NaN, which is
      spliced into the SQL text and makes the query fail. */
  predicate NumericText(s: string) {
    var body := if |s| > 0 && (s[0] == '+' || s[0] == '-') then s[1..] else s;
    (|body| > 0 && IsDigit(body[0])) || (|body| > 1 && body[0] == '.' && IsDigit(body[1]))
  }

  /** The coordinate check both search handlers perform: a missing (or
      empty) latitude or longitude is a 400; one that is not a number is
      caught by the database as a 500. */
  function CheckCoordinates(lat: Option<string>, lon: Option<string>): (r: Result<(), HttpError>)
    ensures r.Success? <==> Present(lat) && Present(lon) && NumericText(lat.value) && NumericText(lon.value)
    ensures r == Failure(BadRequest(CoordinatesRequired)) <==> !Present(lat) || !Present(lon)
    ensures r.Failure? && Present(lat) && Present(lon) ==> r.error == InternalServerError
  {
    if !Present(lat) || !Present(lon) then Failure(BadRequest(CoordinatesRequired))
    else if !NumericText(lat.value) || !NumericText(lon.value) then Failure(InternalServerError)
    else Success(())
  }

  // ------------------------------------------------------------ legacy search

  datatype LegacyRequest = LegacyRequest(lat: Option<string>, lon: Option<string>, q: Option<string>)

  /** A row of the legacy search: the hospital and its straight-line distance. */
  datatype NearbyHospital = NearbyHospital(hospital: Hospital, distanceInMeters: real)

  /** A hospital row of `hospitals LEFT JOIN doctor_availability LEFT JOIN
      doctors` passes the WHERE clause: the hospital's name matches, or a
      doctor it lists (one that exists in doctors) matches by name or
      specialization. A hospital without slots only joins NULLs, which
      never match. */
  predicate HospitalMatches(db: Database, pattern: string, h: Hospital) {
    || ILike(h.name, pattern)
    || exists a :: a in Assignments(db) && a.slot.hospitalId == h.id &&
         (ILike(a.doctor.name, pattern) || ILike(a.doctor.specialization, pattern))
  }

  /** Hospital `g` matches the text `q` as a person means it: `q` occurs,
      ignoring case, in its name or in the name or specialization of a
      doctor who has a slot there. */
  ghost predicate HospitalMentions(db: Database, q: string, g: Hospital) {
    || Contains(Lower(g.name), Lower(q))
    || exists a :: a in Assignments(db) && a.slot.hospitalId == g.id &&
         (Contains(Lower(a.doctor.name), Lower(q)) || Contains(Lower(a.doctor.specialization), Lower(q)))
  }

  /** The MatchedHospitals CTE, run with the pattern bound from `q`: the
      ids of the hospitals that match the text, or every id without one. */
  function MatchedIds(db: Database, q: Option<string>): (ids: set<int>)
    ensures forall id :: id in ids <==>
      exists h :: h in db.hospitals && h.id == id && (!Present(q) || HospitalMentions(db, q.value, h))
  {
    var pattern := SearchPattern(q, false);
    HospitalsMatchMeaning(db, q);
    set h | h in db.hospitals && HospitalMatches(db, pattern, h) :: h.id
  }

  function IdIn(ids: set<int>): Hospital -> bool {
    (h: Hospital) => h.id in ids
  }

  function Nearer(distance: Hospital -> real): (Hospital, Hospital) -> bool {
    (a: Hospital, b: Hospital) => distance(a) <= distance(b)
  }

  function Measure(distance: Hospital -> real): Hospital -> NearbyHospital {
    (h: Hospital) => NearbyHospital(h, distance(h))
  }

  /** The legacy search: every hospital when `q` is absent, otherwise those
      whose id is among the matched ones, nearest first. */
  function SearchHospitals(req: LegacyRequest, db: Database, distance: Hospital -> real)
    : (r: Result<seq<NearbyHospital>, HttpError>)
    ensures r.Failure? <==> CheckCoordinates(req.lat, req.lon).Failure?
    ensures r.Failure? ==> r.error == CheckCoordinates(req.lat, req.lon).error
    ensures r.Success? ==> forall x :: x in r.value ==> x.distanceInMeters == distance(x.hospital) && x.hospital in db.hospitals
  {
    var _ :- CheckCoordinates(req.lat, req.lon);
    var candidates := if Present(req.q) then Filter(db.hospitals, IdIn(MatchedIds(db, req.q))) else db.hospitals;
    var ordered := SortBy(candidates, Nearer(distance));
    SameMultisetSameElements(ordered, candidates);
    Success(Map(ordered, Measure(distance)))
  }

  /** What the legacy search is meant to find, read directly: a hospital
      sharing its id with one that matches `q`, every hospital without `q`. */
  ghost predicate LegacyWanted(db: Database, q: Option<string>, h: Hospital) {
    || !Present(q)
    || exists g :: g in db.hospitals && g.id == h.id && HospitalMentions(db, q.value, g)
  }

  lemma NearerTotal(distance: Hospital -> real)
    ensures TotalPreorder(Nearer(distance))
  {
  }

  /** The ILIKE test of the CTE's WHERE clause means the text match, and
      with no `q` the bare '%' lets every hospital through. */
  lemma HospitalMatchesMeaning(db: Database, q: Option<string>, g: Hospital)
    ensures HospitalMatches(db, SearchPattern(q, false), g) <==> !Present(q) || HospitalMentions(db, q.value, g)
  {
    var pattern := SearchPattern(q, false);
    SearchPatternMeaning(q, false, g.name);
    if Present(q) {
      forall a | a in Assignments(db)
        ensures (ILike(a.doctor.name, pattern) || ILike(a.doctor.specialization, pattern)) <==>
          (Contains(Lower(a.doctor.name), Lower(q.value)) || Contains(Lower(a.doctor.specialization), Lower(q.value)))
      {
        SearchPatternMeaning(q, false, a.doctor.name);
        SearchPatternMeaning(q, false, a.doctor.specialization);
      }
    }
  }

  lemma HospitalsMatchMeaning(db: Database, q: Option<string>)
    ensures forall g :: HospitalMatches(db, SearchPattern(q, false), g) <==> !Present(q) || HospitalMentions(db, q.value, g)
  {
    forall g
      ensures HospitalMatches(db, SearchPattern(q, false), g) <==> !Present(q) || HospitalMentions(db, q.value, g)
    {
      HospitalMatchesMeaning(db, q, g);
    }
  }

  /** The legacy search returns exactly the wanted hospitals (a hospital
      listed twice in the table appears twice), nearest first, each with
      its distance. */
  lemma SearchHospitalsFindsWanted(req: LegacyRequest, db: Database, distance: Hospital -> real)
    requires SearchHospitals(req, db, distance).Success?
    ensures var rows := SearchHospitals(req, db, distance).value;
      && |rows| == |Filter(db.hospitals, h => LegacyWanted(db, req.q, h))|
      && multiset(Map(rows, (x: NearbyHospital) => x.hospital)) == multiset(Filter(db.hospitals, h => LegacyWanted(db, req.q, h)))
      && (forall i, j :: 0 <= i < j < |rows| ==> rows[i].distanceInMeters <= rows[j].distanceInMeters)
  {
    var candidates := if Present(req.q) then Filter(db.hospitals, IdIn(MatchedIds(db, req.q))) else db.hospitals;
    var ordered := SortBy(candidates, Nearer(distance));
    var rows := SearchHospitals(req, db, distance).value;
    var wanted := h => LegacyWanted(db, req.q, h);
    assert rows == Map(ordered, Measure(distance));
    if Present(req.q) {
      MatchedHospitalsAreWanted(req, db);
    } else {
      FilterAll(db.hospitals, wanted);
    }
    assert candidates == Filter(db.hospitals, wanted);
    assert Map(rows, (x: NearbyHospital) => x.hospital) == ordered;
    NearerTotal(distance);
    SortBySorted(candidates, Nearer(distance));
  }

  /** The hospitals whose id the subquery selects are exactly the wanted
      ones (all of them when there is no search term). */
  lemma MatchedHospitalsAreWanted(req: LegacyRequest, db: Database)
    ensures Filter(db.hospitals, IdIn(MatchedIds(db, req.q)))
         == Filter(db.hospitals, h => LegacyWanted(db, req.q, h))
  {
    var ids := MatchedIds(db, req.q);
    var wanted := h => LegacyWanted(db, req.q, h);
    forall h | h in db.hospitals
      ensures IdIn(ids)(h) == wanted(h)
    {
      if !Present(req.q) {
        assert h.id in ids;
      }
    }
    FilterExt(db.hospitals, IdIn(ids), wanted);
  }

  /** A hospital table without repeated rows gives a result without
      repeated hospitals: each hospital appears at most once. */
  lemma SearchHospitalsNoDuplicates(req: LegacyRequest, db: Database, distance: Hospital -> real)
    requires SearchHospitals(req, db, distance).Success?
    requires AllDistinct(db.hospitals)
    ensures AllDistinct(Map(SearchHospitals(req, db, distance).value, (x: NearbyHospital) => x.hospital))
  {
    SearchHospitalsFindsWanted(req, db, distance);
    var found := Map(SearchHospitals(req, db, distance).value, (x: NearbyHospital) => x.hospital);
    var wanted := Filter(db.hospitals, h => LegacyWanted(db, req.q, h));
    assert multiset(found) == multiset(wanted);
    SubMultisetKeepsDistinct(db.hospitals, found);
  }

  // ---------------------------------------------------------- advanced search

  datatype SearchRequest = SearchRequest(
    lat: Option<string>,
    lon: Option<string>,
    q: Option<string>,
    date: Option<string>,
    time: Option<string>,
    withinMinutes: Option<string>)

  /** The road route from the user to a hospital: its length in metres and
      its duration in seconds, each None when no path exists. */
  datatype RouteCost = RouteCost(distanceMeters: Option<nat>, timeSeconds: Option<nat>)

  /** A hospital survives `WHERE route_distance_meters IS NOT NULL AND
      route_time_seconds IS NOT NULL`. */
  predicate Routed(route: Hospital -> RouteCost, h: Hospital) {
    route(h).distanceMeters.Some? && route(h).timeSeconds.Some?
  }

  function HasRoute(route: Hospital -> RouteCost): Hospital -> bool {
    (h: Hospital) => Routed(route, h)
  }

  function RouteDistance(route: Hospital -> RouteCost, h: Hospital): nat {
    match route(h).distanceMeters
    case Some(m) => m
    case None => 0
  }

  function RouteTime(route: Hospital -> RouteCost, h: Hospital): nat {
    match route(h).timeSeconds
    case Some(s) => s
    case None => 0
  }

  /** ORDER BY route_time_seconds ASC. */
  function FasterRoute(route: Hospital -> RouteCost): (Hospital, Hospital) -> bool {
    (a: Hospital, b: Hospital) => RouteTime(route, a) <= RouteTime(route, b)
  }

  lemma FasterRouteTotal(route: Hospital -> RouteCost)
    ensures TotalPreorder(FasterRoute(route))
  {
  }

  /** One row of the advanced search: a hospital (id, name, address and
      coordinates), its road distance, the travel estimate, and the
      json_agg of its qualifying doctor slots. */
  datatype HospitalResult = HospitalResult(
    hospital: Hospital,
    routeDistanceMeters: nat,
    travelTimeMinutes: int,
    availableDoctors: seq<DoctorSlot>)

  /** The text filter of AvailableDoctors: doctor name, specialization or
      hospital name, each lower-cased, ILIKE the pattern. */
  predicate TextMatches(pattern: string, l: Listing) {
    || ILike(Lower(l.doctor.name), pattern)
    || ILike(Lower(l.doctor.specialization), pattern)
    || ILike(Lower(l.hospital.name), pattern)
  }

  /** The whole WHERE clause of AvailableDoctors, with the availability
      conditions already bound. */
  function Qualifies(pattern: string, tests: seq<SlotTest>): Listing -> bool {
    (l: Listing) => TextMatches(pattern, l) && PassesAll(l.slot, tests)
  }

  function AtHospital(h: Hospital): Listing -> bool {
    (l: Listing) => l.hospital == h
  }

  function ListingHospital(l: Listing): Hospital {
    l.hospital
  }

  /** The final SELECT for one group: GROUP BY the hospital's columns, with
      the travel estimate computed from the road distance. */
  function Summary(rows: seq<Listing>, route: Hospital -> RouteCost, h: Hospital): HospitalResult {
    var meters := RouteDistance(route, h);
    HospitalResult(h, meters, ServerTravelMinutes(meters, AverageSpeedKmh), Map(Filter(rows, AtHospital(h)), ListingSlot))
  }

  function Summarize(rows: seq<Listing>, route: Hospital -> RouteCost): Hospital -> HospitalResult {
    (h: Hospital) => Summary(rows, route, h)
  }

  /** Some selected row is at hospital `h`. */
  predicate HasRow(rows: seq<Listing>, h: Hospital) {
    exists l :: l in rows && l.hospital == h
  }

  /** The hospitals of the selected rows that have a road route, each once,
      in order of first appearance. */
  function RoutedHospitals(rows: seq<Listing>, route: Hospital -> RouteCost): (hs: seq<Hospital>)
    ensures forall h :: h in hs <==> Routed(route, h) && HasRow(rows, h)
    ensures AllDistinct(hs)
  {
    var distinct := Distinct(Map(rows, ListingHospital));
    var hs := Filter(distinct, HasRoute(route));
    forall h | Routed(route, h) && HasRow(rows, h)
      ensures h in hs
    {
      var l :| l in rows && l.hospital == h;
      var k :| 0 <= k < |rows| && rows[k] == l;
      assert Map(rows, ListingHospital)[k] == h;
    }
    SubMultisetKeepsDistinct(distinct, hs);
    hs
  }

  /** What the server promises of every reported group: the hospital has a
      road route, the reported distance is that route's length, the travel
      estimate is derived from it, and at least one doctor is listed. */
  predicate RoutedResult(route: Hospital -> RouteCost, x: HospitalResult) {
    && Routed(route, x.hospital)
    && route(x.hospital).distanceMeters == Some(x.routeDistanceMeters)
    && x.travelTimeMinutes == ServerTravelMinutes(x.routeDistanceMeters, AverageSpeedKmh)
    && |x.availableDoctors| > 0
  }

  predicate FromRows(rows: seq<Listing>, x: HospitalResult) {
    HasRow(rows, x.hospital)
  }

  /** Steps 2 to 4 of the query on the selected rows: route each hospital,
      drop those without a route, group, and order by route time. */
  function Report(rows: seq<Listing>, route: Hospital -> RouteCost): (results: seq<HospitalResult>)
    ensures forall x :: x in results ==> RoutedResult(route, x) && FromRows(rows, x)
  {
    var hospitals := RoutedHospitals(rows, route);
    var ordered := SortBy(hospitals, FasterRoute(route));
    var results := Map(ordered, Summarize(rows, route));
    SameMultisetSameElements(ordered, hospitals);
    forall x | x in results
      ensures RoutedResult(route, x) && FromRows(rows, x)
    {
      var i :| 0 <= i < |results| && results[i] == x;
      SummaryOfRoutedRow(rows, route, ordered[i]);
    }
    results
  }

  /** A routed hospital with a selected row summarizes to a group the
      server would report. */
  lemma SummaryOfRoutedRow(rows: seq<Listing>, route: Hospital -> RouteCost, h: Hospital)
    requires Routed(route, h) && HasRow(rows, h)
    ensures RoutedResult(route, Summary(rows, route, h)) && FromRows(rows, Summary(rows, route, h))
  {
    var l :| l in rows && l.hospital == h;
    assert l in Filter(rows, AtHospital(h));
  }

  /** Some reported group is for hospital `h`. */
  predicate Reports(results: seq<HospitalResult>, h: Hospital) {
    exists x :: x in results && x.hospital == h
  }

  /** A group is reported for exactly the hospitals summarized. */
  lemma SummariesReport(hs: seq<Hospital>, rows: seq<Listing>, route: Hospital -> RouteCost, h: Hospital)
    ensures Reports(Map(hs, Summarize(rows, route)), h) <==> h in hs
  {
    var results := Map(hs, Summarize(rows, route));
    if h in hs {
      var i :| 0 <= i < |hs| && hs[i] == h;
      assert results[i] in results;
    }
    if Reports(results, h) {
      var x :| x in results && x.hospital == h;
      var i :| 0 <= i < |results| && results[i] == x;
    }
  }

  /** Grouping reports exactly the routed hospitals of the rows. */
  lemma ReportHospitals(rows: seq<Listing>, route: Hospital -> RouteCost)
    ensures forall h :: Reports(Report(rows, route), h) <==> Routed(route, h) && HasRow(rows, h)
  {
    var hospitals := RoutedHospitals(rows, route);
    var ordered := SortBy(hospitals, FasterRoute(route));
    assert Report(rows, route) == Map(ordered, Summarize(rows, route));
    SameMultisetSameElements(ordered, hospitals);
    forall h
      ensures Reports(Report(rows, route), h) <==> h in ordered
    {
      SummariesReport(ordered, rows, route, h);
    }
  }

  /** The groups follow the hospitals they summarize, one to one. */
  lemma SummariesInOrder(hs: seq<Hospital>, rows: seq<Listing>, route: Hospital -> RouteCost)
    ensures |Map(hs, Summarize(rows, route))| == |hs|
    ensures forall i :: 0 <= i < |hs| ==> Map(hs, Summarize(rows, route))[i].hospital == hs[i]
  {
  }

  /** Each hospital is reported once, fastest route first. */
  lemma ReportOrdered(rows: seq<Listing>, route: Hospital -> RouteCost)
    ensures var results := Report(rows, route);
      && (forall i, j :: 0 <= i < j < |results| ==> results[i].hospital != results[j].hospital)
      && (forall i, j :: 0 <= i < j < |results| ==>
            RouteTime(route, results[i].hospital) <= RouteTime(route, results[j].hospital))
  {
    var ordered := SortBy(RoutedHospitals(rows, route), FasterRoute(route));
    OrderedHospitals(rows, route);
    SummariesInOrder(ordered, rows, route);
    assert Report(rows, route) == Map(ordered, Summarize(rows, route));
  }

  /** The routed hospitals, once sorted, are still distinct and are in
      order of route time. */
  lemma OrderedHospitals(rows: seq<Listing>, route: Hospital -> RouteCost)
    ensures var ordered := SortBy(RoutedHospitals(rows, route), FasterRoute(route));
      && AllDistinct(ordered)
      && forall i, j :: 0 <= i < j < |ordered| ==> RouteTime(route, ordered[i]) <= RouteTime(route, ordered[j])
  {
    var hospitals := RoutedHospitals(rows, route);
    var ordered := SortBy(hospitals, FasterRoute(route));
    SubMultisetKeepsDistinct(hospitals, ordered);
    FasterRouteTotal(route);
    SortBySorted(hospitals, FasterRoute(route));
  }

  /** Each reported hospital aggregates precisely its own rows, in order. */
  lemma ReportDoctors(rows: seq<Listing>, route: Hospital -> RouteCost, x: HospitalResult)
    requires x in Report(rows, route)
    ensures x.availableDoctors == Map(Filter(rows, AtHospital(x.hospital)), ListingSlot)
  {
    var ordered := SortBy(RoutedHospitals(rows, route), FasterRoute(route));
    var results := Map(ordered, Summarize(rows, route));
    assert Report(rows, route) == results;
    var i :| 0 <= i < |results| && results[i] == x;
    assert x == Summary(rows, route, ordered[i]);
  }

  /** The AvailableDoctors CTE: the join rows passing the text filter and
      the bound availability conditions. */
  function Selected(req: SearchRequest, db: Database, now: Instant): (r: Result<seq<Listing>, HttpError>)
    ensures r.Failure? ==> r.error == InternalServerError
    ensures r.Success? ==> forall l :: l in r.value ==> l in Listings(db)
  {
    var pattern := SearchPattern(req.q, true);
    var plan := BuildPlan(pattern, req.date, req.time, req.withinMinutes);
    var tests :- ResolveAll(plan.conditions, plan.params, now);
    Success(Filter(Listings(db), Qualifies(pattern, tests)))
  }

  /** The advanced search: check the coordinates, select the rows, and
      report them grouped by hospital. */
  function AdvancedSearch(req: SearchRequest, db: Database, route: Hospital -> RouteCost, now: Instant)
    : (r: Result<seq<HospitalResult>, HttpError>)
    ensures r == Failure(BadRequest(CoordinatesRequired)) <==> !Present(req.lat) || !Present(req.lon)
    ensures r.Failure? && Present(req.lat) && Present(req.lon) ==> r.error == InternalServerError
    ensures r.Success? ==> forall x :: x in r.value ==> RoutedResult(route, x) && x.hospital in db.hospitals
  {
    var _ :- CheckCoordinates(req.lat, req.lon);
    var rows :- Selected(req, db, now);
    var results := Report(rows, route);
    forall x | x in results
      ensures x.hospital in db.hospitals
    {
      assert FromRows(rows, x);
    }
    Success(results)
  }

  /** A join row the advanced search is meant to report, read directly off
      the request: the text `q` (if any) occurs, ignoring case, in the
      doctor's name, the specialization or the hospital's name, and the
      slot covers the requested availability. */
  ghost predicate Wanted(q: Option<string>, ar: AvailabilityRequest, l: Listing) {
    && (|| !Present(q)
        || Contains(Lower(l.doctor.name), Lower(q.value))
        || Contains(Lower(l.doctor.specialization), Lower(q.value))
        || Contains(Lower(l.hospital.name), Lower(q.value)))
    && Covers(l.slot, ar)
  }

  ghost function WantedBy(q: Option<string>, ar: AvailabilityRequest): Listing -> bool {
    (l: Listing) => Wanted(q, ar, l)
  }

  /** The bound WHERE clause selects exactly the wanted rows. */
  lemma QualifiesMeansWanted(req: SearchRequest, now: Instant, l: Listing)
    requires ParseAvailability(req.date, req.time, req.withinMinutes, now).Success?
    ensures var pattern := SearchPattern(req.q, true);
      var plan := BuildPlan(pattern, req.date, req.time, req.withinMinutes);
      var tests := ResolveAll(plan.conditions, plan.params, now);
      tests.Success? &&
      (Qualifies(pattern, tests.value)(l) <==> Wanted(req.q, ParseAvailability(req.date, req.time, req.withinMinutes, now).value, l))
  {
    var pattern := SearchPattern(req.q, true);
    PlanFiltersLikeReference(pattern, req.date, req.time, req.withinMinutes, now, l.slot);
    ILikeOfLower(l.doctor.name, pattern);
    ILikeOfLower(l.doctor.specialization, pattern);
    ILikeOfLower(l.hospital.name, pattern);
    SearchPatternMeaning(req.q, true, l.doctor.name);
    SearchPatternMeaning(req.q, true, l.doctor.specialization);
    SearchPatternMeaning(req.q, true, l.hospital.name);
  }

  /** The selection fails exactly when a date, time or minute count cannot
      be read, and otherwise keeps exactly the wanted rows, in join order. */
  lemma SelectedIsWanted(req: SearchRequest, db: Database, now: Instant)
    ensures Selected(req, db, now).Success? <==> ParseAvailability(req.date, req.time, req.withinMinutes, now).Success?
    ensures Selected(req, db, now).Success? ==>
      Selected(req, db, now).value ==
        Filter(Listings(db), WantedBy(req.q, ParseAvailability(req.date, req.time, req.withinMinutes, now).value))
  {
    var pattern := SearchPattern(req.q, true);
    PlanFailsLikeReference(pattern, req.date, req.time, req.withinMinutes, now);
    if ParseAvailability(req.date, req.time, req.withinMinutes, now).Success? {
      var ar := ParseAvailability(req.date, req.time, req.withinMinutes, now).value;
      var plan := BuildPlan(pattern, req.date, req.time, req.withinMinutes);
      var tests := ResolveAll(plan.conditions, plan.params, now).value;
      forall l | l in Listings(db)
        ensures Qualifies(pattern, tests)(l) == WantedBy(req.q, ar)(l)
      {
        QualifiesMeansWanted(req, now, l);
      }
      FilterExt(Listings(db), Qualifies(pattern, tests), WantedBy(req.q, ar));
    }
  }

  /** The advanced search fails only for the reasons its parameters give:
      missing coordinates (400), unreadable coordinates, date, time or
      minute count (500). */
  lemma AdvancedSearchFailsOnlyOnBadInput(req: SearchRequest, db: Database, route: Hospital -> RouteCost, now: Instant)
    ensures AdvancedSearch(req, db, route, now).Success? <==>
      && CheckCoordinates(req.lat, req.lon).Success?
      && ParseAvailability(req.date, req.time, req.withinMinutes, now).Success?
  {
    SelectedIsWanted(req, db, now);
  }

  /** The reported hospitals are exactly the routed hospitals with a wanted
      row, each reported once, in order of route time. */
  lemma AdvancedSearchHospitals(req: SearchRequest, db: Database, route: Hospital -> RouteCost, now: Instant)
    requires AdvancedSearch(req, db, route, now).Success?
    ensures ParseAvailability(req.date, req.time, req.withinMinutes, now).Success?
    ensures var results := AdvancedSearch(req, db, route, now).value;
      var ar := ParseAvailability(req.date, req.time, req.withinMinutes, now).value;
      && (forall h :: Reports(results, h) <==>
            Routed(route, h) && exists l :: l in Listings(db) && l.hospital == h && Wanted(req.q, ar, l))
      && (forall i, j :: 0 <= i < j < |results| ==> results[i].hospital != results[j].hospital)
      && (forall i, j :: 0 <= i < j < |results| ==>
            RouteTime(route, results[i].hospital) <= RouteTime(route, results[j].hospital))
  {
    SelectedIsWanted(req, db, now);
    var ar := ParseAvailability(req.date, req.time, req.withinMinutes, now).value;
    var rows := Selected(req, db, now).value;
    var results := AdvancedSearch(req, db, route, now).value;
    assert results == Report(rows, route);
    ReportHospitals(rows, route);
    ReportOrdered(rows, route);
    forall h
      ensures HasRow(rows, h) <==> exists l :: l in Listings(db) && l.hospital == h && Wanted(req.q, ar, l)
    {
      if HasRow(rows, h) {
        var l :| l in rows && l.hospital == h;
        assert WantedBy(req.q, ar)(l);
      }
      if exists l :: l in Listings(db) && l.hospital == h && Wanted(req.q, ar, l) {
        var l :| l in Listings(db) && l.hospital == h && Wanted(req.q, ar, l);
        assert WantedBy(req.q, ar)(l);
        assert l in rows;
      }
    }
  }

  ghost function WantedAt(q: Option<string>, ar: AvailabilityRequest, h: Hospital): Listing -> bool {
    (l: Listing) => Wanted(q, ar, l) && l.hospital == h
  }

  /** A reported hospital lists precisely its wanted slots, in join order,
      with the estimate the server derives from the route's length. */
  lemma AdvancedSearchDoctors(req: SearchRequest, db: Database, route: Hospital -> RouteCost, now: Instant, x: HospitalResult)
    requires AdvancedSearch(req, db, route, now).Success? && x in AdvancedSearch(req, db, route, now).value
    ensures ParseAvailability(req.date, req.time, req.withinMinutes, now).Success?
    ensures x.availableDoctors ==
      Map(Filter(Listings(db), WantedAt(req.q, ParseAvailability(req.date, req.time, req.withinMinutes, now).value, x.hospital)), ListingSlot)
    ensures x.travelTimeMinutes == Max(MinimumTravelMinutes,
      RoundHalfEven(DriveNumerator(route(x.hospital).distanceMeters.value), DriveDenominator(AverageSpeedKmh)))
  {
    SelectedIsWanted(req, db, now);
    var ar := ParseAvailability(req.date, req.time, req.withinMinutes, now).value;
    var rows := Selected(req, db, now).value;
    assert AdvancedSearch(req, db, route, now).value == Report(rows, route);
    ReportDoctors(rows, route, x);
    FilterFilter(Listings(db), WantedBy(req.q, ar), AtHospital(x.hospital), WantedAt(req.q, ar, x.hospital));
  }

  // ---------------------------------------------------- doctors at a hospital

  /** The path id and the query parameters of the per-hospital request. */
  datatype DoctorsRequest = DoctorsRequest(id: string, date: Option<string>, q: Option<string>)

  /** PostgreSQL's reading of the id bound to an integer column: an
      optional sign and decimal digits, nothing else. */
  function ParseId(s: string): (r: Option<int>)
    ensures r.Some? <==> |s| > 0 && var digits := if s[0] == '-' || s[0] == '+' then s[1..] else s;
      |digits| > 0 && AllDigits(digits)
  {
    var digits := if |s| > 0 && (s[0] == '-' || s[0] == '+') then s[1..] else s;
    if |digits| > 0 && AllDigits(digits) then
      var magnitude: int := DigitsValue(digits);
      Some(if s[0] == '-' then -magnitude else magnitude)
    else None
  }

  /** Every id the router can produce from a decimal number reads back as it. */
  lemma ParseIdOfNumber(n: int)
    ensures ParseId(IntToString(n)) == Some(n)
  {
    var magnitude: nat := if n < 0 then -n else n;
    var digits := NatToString(magnitude);
    NatToStringValue(magnitude);
    assert IsDigit(digits[0]);
    var s := IntToString(n);
    if n < 0 {
      assert s == "-" + digits;
      assert s[0] == '-' && s[1..] == digits;
    } else {
      assert s == digits;
      assert s[0] != '-' && s[0] != '+';
    }
  }

  /** WHERE da.hospital_id = $1 AND da.day_of_week = ISODOW($2) AND the
      doctor's lower-cased name or specialization ILIKE $3. */
  function OnDuty(hospitalId: int, weekday: int, pattern: string): Assignment -> bool {
    (a: Assignment) =>
      && a.slot.hospitalId == hospitalId
      && a.slot.dayOfWeek == weekday
      && (ILike(Lower(a.doctor.name), pattern) || ILike(Lower(a.doctor.specialization), pattern))
  }

  /** ORDER BY d.specialization, d.name (code-point collation). */
  predicate BySpecialtyThenName(a: DoctorSlot, b: DoctorSlot) {
    if a.specialization == b.specialization then LexLe(a.name, b.name)
    else LexLe(a.specialization, b.specialization)
  }

  lemma BySpecialtyThenNameTotal()
    ensures TotalPreorder(BySpecialtyThenName)
  {
    forall a, b
      ensures BySpecialtyThenName(a, b) || BySpecialtyThenName(b, a)
    {
      LexLeTotal(a.name, b.name);
      LexLeTotal(a.specialization, b.specialization);
    }
    forall a, b, c | BySpecialtyThenName(a, b) && BySpecialtyThenName(b, c)
      ensures BySpecialtyThenName(a, c)
    {
      if LexLe(a.name, b.name) && LexLe(b.name, c.name) {
        LexLeTransitive(a.name, b.name, c.name);
      }
      if LexLe(a.specialization, b.specialization) && LexLe(b.specialization, c.specialization) {
        LexLeTransitive(a.specialization, b.specialization, c.specialization);
      }
      if LexLe(a.specialization, b.specialization) && LexLe(b.specialization, a.specialization) {
        LexLeAntisymmetric(a.specialization, b.specialization);
      }
    }
  }

  /** The doctors on duty at hospital `id` on the weekday of `date`,
      ordered by specialization and then name. */
  function DoctorsByHospital(req: DoctorsRequest, db: Database): (r: Result<seq<DoctorSlot>, HttpError>)
    ensures r == Failure(BadRequest(DateRequired)) <==> !Present(req.date)
    ensures r.Success? <==> Present(req.date) && ParseIsoDate(req.date.value).Some? && ParseId(req.id).Some?
    ensures r.Failure? && Present(req.date) ==> r.error == InternalServerError
  {
    if !Present(req.date) then Failure(BadRequest(DateRequired))
    else
      match (ParseId(req.id), ParseIsoDate(req.date.value))
      case (Some(id), Some(d)) =>
        var rows := Filter(Assignments(db), OnDuty(id, IsoDayOf(d), SearchPattern(req.q, true)));
        Success(SortBy(Map(rows, AssignmentSlot), BySpecialtyThenName))
      case _ => Failure(InternalServerError)
  }

  /** The rows the per-hospital request is meant to return, read directly:
      the slot is at the hospital, on the date's ISO weekday, and `q` (if
      any) occurs in the doctor's name or specialization, ignoring case. */
  ghost predicate OnDutyWanted(id: int, d: Date, q: Option<string>, a: Assignment)
    requires ValidDate(d)
  {
    && a.slot.hospitalId == id
    && a.slot.dayOfWeek == IsoDayOf(d)
    && (|| !Present(q)
        || Contains(Lower(a.doctor.name), Lower(q.value))
        || Contains(Lower(a.doctor.specialization), Lower(q.value)))
  }

  /** The per-hospital list is a reordering of exactly the wanted slots,
      sorted by specialization and then name. */
  lemma DoctorsByHospitalFindsWanted(req: DoctorsRequest, db: Database)
    requires DoctorsByHospital(req, db).Success?
    ensures var id := ParseId(req.id).value;
      var d := ParseIsoDate(req.date.value).value;
      var rows := DoctorsByHospital(req, db).value;
      && multiset(rows) == multiset(Map(Filter(Assignments(db), a => OnDutyWanted(id, d, req.q, a)), AssignmentSlot))
      && SortedBy(rows, BySpecialtyThenName)
  {
    var id := ParseId(req.id).value;
    var d := ParseIsoDate(req.date.value).value;
    var pattern := SearchPattern(req.q, true);
    forall a | a in Assignments(db)
      ensures OnDuty(id, IsoDayOf(d), pattern)(a) == OnDutyWanted(id, d, req.q, a)
    {
      OnDutyMeaning(id, d, req.q, a);
    }
    FilterExt(Assignments(db), OnDuty(id, IsoDayOf(d), pattern), a => OnDutyWanted(id, d, req.q, a));
    var slots := Map(Filter(Assignments(db), OnDuty(id, IsoDayOf(d), pattern)), AssignmentSlot);
    BySpecialtyThenNameTotal();
    SortBySorted(slots, BySpecialtyThenName);
  }

  /** The WHERE clause of the per-hospital query, with `$3` bound from `q`,
      holds of a slot exactly when the slot is wanted. */
  lemma OnDutyMeaning(id: int, d: Date, q: Option<string>, a: Assignment)
    requires ValidDate(d)
    ensures OnDuty(id, IsoDayOf(d), SearchPattern(q, true))(a) == OnDutyWanted(id, d, q, a)
  {
    var pattern := SearchPattern(q, true);
    ILikeOfLower(a.doctor.name, pattern);
    ILikeOfLower(a.doctor.specialization, pattern);
    SearchPatternMeaning(q, true, a.doctor.name);
    SearchPatternMeaning(q, true, a.doctor.specialization);
  }
}
