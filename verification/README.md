# Geo-health search and scheduling, modelled in Dafny

This project models the core of a geo-health platform. Patients search for
hospitals and doctors near them, see who is available, and book a slot.
The model covers four pieces:

- **The health controller's three handlers.** `searchHospitals` is the
  legacy search: hospitals by straight-line distance, optionally filtered
  by a text query. `advancedSearch` filters doctors' availability by text,
  date, time and "available within N minutes". It then routes to each
  hospital, estimates travel time, groups the doctors per hospital and
  orders by route time. `getDoctorsByHospital` lists the doctors on duty
  at one hospital on a date. Their SQL is modelled as pure functions over
  in-memory tables: doctors, hospitals and `doctor_availability`.
- **The booking modal's schedule arithmetic.** It covers the ISO weekday
  of the picked date, 20-minute slots between a schedule's bounds, the
  hospital and schedule selection, and the departure-time suggestion.
- **The doctor card's "available now" badge** and its weekday chips.
- **The GeoJSON formatter** that turns geometry-bearing rows into a
  FeatureCollection (sections 3.2 and 3.3 of RFC 7946).

Each operation is paired with a reference reading of what it is meant to
do, and lemmas prove the two agree. For example, the SQL's `$n`
placeholder plan, once bound, selects exactly the rows that a direct
reading of the request parameters selects.

Files, one module each:

- `wrappers.dfy`: Option and Result.
- `seqs.dfy`: map, filter, find, stable sort, distinctness.
- `text.dfy`: ASCII lower-casing, substrings, decimal numerals, code-point
  string order.
- `clock.dfy`: times of day and their "HH:MM" / "HH:MM:SS" spellings.
- `calendar.dfy`: Gregorian day numbers, ISO and JavaScript weekdays,
  "YYYY-MM-DD".
- `travel.dfy`: both travel-time formulas.
- `schema.dfy`: tables, joins, output rows, HTTP errors.
- `availability_filter.dfy`: the advanced search's text and availability
  filter.
- `health_controller.dfy`: the three handlers.
- `booking_modal.dfy`, `doctor_card.dfy`, `spatial_helpers.dfy`.

The model follows the code as written, including:

- The advanced search orders by route time, not by distance.
- Server-side availability windows are closed (`BETWEEN`). The doctor
  card's window is half-open.
- The server's estimate is `max(5, round(...))`. The booking modal's is
  `round(...) + 5`.

Several inputs are parameters of the model:

- The road router (pgRouting) is an oracle `route: Hospital -> RouteCost`.
  It gives a route length in metres and a duration in seconds, each
  possibly absent.
- The legacy search's straight-line distance is an oracle
  `Hospital -> real`.
- The JSON parser is an oracle `string -> Option<G>`. None stands for a
  SyntaxError.
- The current moment is an `Instant`: a day number and a second of the
  day, on the local clock.

## Model

| member | source | states |
|---|---|---|
| HealthController.CheckCoordinates | server/src/controllers/healthController.js:10-14 | a missing or empty lat or lon gives 400 "Latitude and longitude are required."; coordinates parseFloat cannot read give a 500; otherwise the check passes |
| HealthController.MatchedIds | server/src/controllers/healthController.js:18-29 | with a q, an id is matched iff some hospital with that id has q (ignoring case) in its name or in the name or specialization of a doctor with a slot there; without q every hospital's id is matched |
| HealthController.MatchedHospitalsAreWanted | server/src/controllers/healthController.js:15-43 | joining the hospitals with the matched ids keeps exactly the wanted hospitals, in table order; without q it keeps them all |
| HealthController.HospitalMatchesMeaning | server/src/controllers/healthController.js:25-28 | without q the bare '%' lets every hospital through; with q the ILIKE test means: q occurs in the hospital's name, or in the name or specialization of a doctor with a slot there, ignoring case |
| HealthController.SearchHospitals | server/src/controllers/healthController.js:7-50 | fails iff the coordinate check fails, with the same error; every row is a hospital of the table paired with its distance |
| HealthController.SearchHospitalsFindsWanted | server/src/controllers/healthController.js:15-41 | the rows are a permutation of exactly the wanted hospitals (all of them without q), ordered by non-decreasing distance |
| HealthController.SearchHospitalsNoDuplicates | server/src/controllers/healthController.js:19-40 | with no repeated hospital rows in the table, no hospital appears twice in the result |
| HealthController.FasterRouteTotal | server/src/controllers/healthController.js:163 | ordering by route time is a total preorder, so the sort is well defined |
| HealthController.RoutedHospitals | server/src/controllers/healthController.js:113-120 | the hospitals of the selected rows that have both a route length and a duration, each once |
| HealthController.Report | server/src/controllers/healthController.js:143-163 | every group has a routed hospital, a travel estimate from the server formula, and a non-empty doctor list drawn from its own rows |
| HealthController.SummariesReport | server/src/controllers/healthController.js:159-162 | summarizing a list of hospitals reports a group for exactly the hospitals in that list |
| HealthController.ReportHospitals | server/src/controllers/healthController.js:159-162 | a group is reported iff its hospital is routed and has a selected row |
| HealthController.SummariesInOrder | server/src/controllers/healthController.js:162-163 | the groups follow the hospitals they summarize, one to one |
| HealthController.ReportOrdered | server/src/controllers/healthController.js:162-163 | each hospital is reported once, in non-decreasing order of route time |
| HealthController.ReportDoctors | server/src/controllers/healthController.js:153-158 | a group's doctors are exactly its hospital's selected rows as doctor slots, in the model's join order |
| HealthController.SummaryOfRoutedRow | server/src/controllers/healthController.js:143-162 | a routed hospital with a selected row summarizes to a group with its route length, the server travel estimate and a non-empty doctor list |
| HealthController.Selected | server/src/controllers/healthController.js:95-112 | the selection fails only with a 500; every selected row is a row of the three-way join |
| HealthController.QualifiesMeansWanted | server/src/controllers/healthController.js:110-111 | the bound WHERE clause holds for a join row iff the row is wanted: q occurs in one of the three columns, ignoring case, and the slot covers the request |
| HealthController.SelectedIsWanted | server/src/controllers/healthController.js:94-112 | the selection succeeds iff the date, time and minute count can be read, and then it is exactly the wanted join rows, in the model's join order |
| HealthController.AdvancedSearch | server/src/controllers/healthController.js:63-173 | 400 iff lat or lon is missing; any other failure is a 500; every group is routed and its hospital is a table row |
| HealthController.AdvancedSearchFailsOnlyOnBadInput | server/src/controllers/healthController.js:63-92 | the search succeeds iff the coordinates and the availability parameters can be read |
| HealthController.AdvancedSearchHospitals | server/src/controllers/healthController.js:143-163 | a hospital is reported iff it is routed and has a wanted row; each hospital once; fastest route first |
| HealthController.AdvancedSearchDoctors | server/src/controllers/healthController.js:151-158 | a reported hospital lists exactly its wanted slots, and its travel time is max(5, round-half-even(metres*60/40000)) |
| HealthController.ParseId | server/src/controllers/healthController.js:199 | the id string binds to the integer column iff it is an optional sign followed by decimal digits |
| HealthController.ParseIdOfNumber | server/src/controllers/healthController.js:208 | every decimal id reads back as the same integer |
| HealthController.BySpecialtyThenNameTotal | server/src/controllers/healthController.js:205 | ordering by specialization and then name is a total preorder |
| HealthController.DoctorsByHospital | server/src/controllers/healthController.js:178-215 | 400 "A date parameter is required." iff date is missing; success iff the date and id can be read; other failures are 500 |
| HealthController.OnDutyMeaning | server/src/controllers/healthController.js:198-204 | the WHERE clause, with $3 bound from q, holds of a slot iff it is at the hospital, on the date's ISO weekday, and q (if any) occurs in the doctor's name or specialization, ignoring case |
| HealthController.DoctorsByHospitalFindsWanted | server/src/controllers/healthController.js:196-205 | the rows are a permutation of exactly the doctor slots at that hospital id, on the ISO weekday of the date, whose name or specialization contains q; sorted by specialization then name |
| AvailabilityFilter.SearchPattern | server/src/controllers/healthController.js:71 | without a truthy q the pattern is the bare '%'; with q it is q, up to case, between two '%' |
| AvailabilityFilter.ILike | server/src/controllers/healthController.js:110 | '%' matches every text; '%s%' matches iff s occurs in the text ignoring case; any other pattern matches a text equal to it ignoring case |
| AvailabilityFilter.SearchPatternMeaning | server/src/controllers/healthController.js:71 | the bound pattern matches a text iff q is absent or empty, or q occurs in the text ignoring case |
| AvailabilityFilter.ILikeOfLower | server/src/controllers/healthController.js:110 | lower-casing a column before ILIKE changes nothing |
| AvailabilityFilter.BuildPlan | server/src/controllers/healthController.js:76-90 | the parameters start with the three patterns; the date is $4; the time is $5 and is used only with a date; withinMinutes adds two conditions and no parameter; every placeholder names an existing parameter |
| AvailabilityFilter.WhereFragment | server/src/controllers/healthController.js:91 | the fragment is empty exactly when there are no conditions, and otherwise starts with "AND " |
| AvailabilityFilter.ResolveAll | server/src/controllers/healthController.js:78-90 | binding succeeds iff every condition binds, with one bound test per condition; a failed cast is a 500 |
| AvailabilityFilter.ParseAvailability | server/src/controllers/healthController.js:78-90 | reading fails only with a 500; the date, the time (only with a date) and the target instant are each present iff their parameter is |
| Text.ParseInt | server/src/controllers/healthController.js:87 | parseInt gives NaN (None) iff no digit follows the optional sign |
| Text.ParseIntToString | server/src/controllers/healthController.js:87 | parseInt reads back the decimal spelling of every integer |
| AvailabilityFilter.ResolveAllMeaning | server/src/controllers/healthController.js:78-91 | a slot passes all bound conditions iff each bound condition holds of it |
| AvailabilityFilter.PlanFailsLikeReference | server/src/controllers/healthController.js:76-90 | binding the plan fails iff reading the parameters directly fails |
| AvailabilityFilter.PlanFiltersLikeReference | server/src/controllers/healthController.js:78-90 | the bound plan admits a slot iff the slot is on the date's ISO weekday, the time lies within the slot (inclusive), and now + N minutes falls on the slot's weekday and within it |
| AvailabilityFilter.PlanAgreesWithReference | server/src/controllers/healthController.js:76-91 | both of the above together |
| AvailabilityFilter.EndTimeIsIncluded | server/src/controllers/healthController.js:82 | a slot is still found when the requested time is exactly its end time |
| Schema.Assignments | server/src/controllers/healthController.js:107-108 | the doctor/availability join holds exactly the pairs with matching doctor ids |
| Schema.Listings | server/src/controllers/healthController.js:107-109 | the three-way join holds exactly the triples with matching doctor and hospital ids |
| Travel.ServerTravelMinutes | server/src/controllers/healthController.js:151 | at least 5, and equal to 5 or to the half-even rounding of metres*60/(1000*speed) |
| Travel.ClientTravelMinutes | client/src/components/modals/DoctorBookingModal.jsx:61 | exactly 5 more than the half-up rounding of metres*60/(1000*speed) |
| Travel.RoundHalfEven | server/src/controllers/healthController.js:151 | the result is within half a unit of n/d, and exact ties go to the even neighbour |
| Travel.RoundHalfUp | client/src/components/modals/DoctorBookingModal.jsx:61 | the result is within half a unit of n/d, and exact ties go up |
| Travel.RoundHalfEvenMonotone | server/src/controllers/healthController.js:151 | half-even rounding is monotone |
| Travel.RoundHalfUpMonotone | client/src/components/modals/DoctorBookingModal.jsx:61 | half-up rounding is monotone |
| Travel.HalfUpAtLeastHalfEven | client/src/components/modals/DoctorBookingModal.jsx:61 | half-up never rounds below half-even |
| Travel.ServerTravelMinutesMonotone | server/src/controllers/healthController.js:151 | a longer route never gives a shorter server estimate |
| Travel.ClientTravelMinutesMonotone | client/src/components/modals/DoctorBookingModal.jsx:61 | a longer route never gives a shorter client estimate |
| Travel.ClientAtLeastServer | client/src/components/modals/DoctorBookingModal.jsx:61 | for the same distance the client's estimate is never below the server's |
| Travel.TravelExamples | server/src/controllers/healthController.js:151 | 4000 m gives 6 minutes on the server and 11 on the client; 7000 m gives 10 and 16; 0 m and 3000 m hit the five-minute floor |
| Calendar.IsoWeekday | server/src/controllers/healthController.js:79 | the ISO weekday of a day number lies in 1..7 |
| Calendar.IsoDayOf | server/src/controllers/healthController.js:200 | the ISO weekday of a calendar date lies in 1..7 |
| Calendar.NextDateIsNextDay | server/src/controllers/healthController.js:79 | day numbers count days: the next calendar date has the next day number |
| Calendar.IsoDayOfNextDate | server/src/controllers/healthController.js:79 | weekdays advance cyclically from date to date, Monday after Sunday |
| Calendar.KnownWeekdays | server/src/controllers/healthController.js:79 | 1970-01-01 is day 0, a Thursday; 2024-01-01 is a Monday |
| Calendar.JsWeekday | client/src/components/modals/DoctorBookingModal.jsx:7 | getDay() of a day number lies in 0..6 (Sunday = 0); JsConversionAgreesWithIso ties it to the ISO weekday |
| Calendar.IsoDayFromJsDay | client/src/components/modals/DoctorBookingModal.jsx:7 | Sunday (0) becomes 7; 1..6 stay; the result lies in 1..7 |
| Calendar.IsoJsBijection | client/src/components/modals/DoctorBookingModal.jsx:7 | the conversion is a bijection from 0..6 onto 1..7 |
| Calendar.JsConversionAgreesWithIso | client/src/components/cards/DoctorCard.jsx:16 | the browser's converted weekday equals PostgreSQL's ISODOW on every day |
| Calendar.ParseIsoDate | server/src/controllers/healthController.js:79 | a date string that reads is a valid date of years 1..9999 spelled in ten characters |
| Calendar.ParseFormatDate | server/src/controllers/healthController.js:200 | formatting a date and reading it back gives the date |
| Calendar.FormatParseDate | server/src/controllers/healthController.js:200 | a date string that reads is the canonical spelling of its date |
| Clock.FormatHHMM | server/src/controllers/healthController.js:105-106 | to_char(t, 'HH24:MI') is five characters, two digits, a colon, two digits, and reads back as the start of t's minute |
| Clock.ParseClock | client/src/components/modals/DoctorBookingModal.jsx:11-12 | a time reads iff it is HH:MM or HH:MM:SS on a 24-hour clock, and then the hour, minute and second fields are its parts |
| Clock.ParseFormat | client/src/components/modals/DoctorBookingModal.jsx:11-16 | formatting a whole minute and reading it back gives the minute |
| Clock.FormatParse | client/src/components/modals/DoctorBookingModal.jsx:11-16 | a readable HH:MM string is reproduced by reading and formatting it |
| Clock.AddSeconds | server/src/controllers/healthController.js:87 | NOW() + INTERVAL moves the absolute time by exactly the interval, carrying into other days |
| Clock.ShiftTimeOfDay | client/src/components/cards/DoctorCard.jsx:27 | the shifted time of day differs from t + delta by whole days, and equals it when no midnight is crossed |
| Clock.ShiftInverse | client/src/components/modals/DoctorBookingModal.jsx:61-62 | shifting back and then forward by the same amount returns the original time of day |
| BookingModal.SlotStarts | client/src/components/modals/DoctorBookingModal.jsx:13-17 | slot i starts at start + i*step and lies in [start, end); there are ceil((end-start)/step) slots when start < end, none otherwise |
| BookingModal.GenerateTimeSlots | client/src/components/modals/DoctorBookingModal.jsx:9-19 | no slots if a bound is not a time; otherwise ceil((end-start)/interval) five-character HH:MM labels, label i reading back as the minute of start + i*interval, which lies inside [start, end); the first label is the HH:MM start itself |
| BookingModal.WholeMinuteLabels | client/src/components/modals/DoctorBookingModal.jsx:14-16 | from a whole-minute start every label reads back as exactly start + i*interval |
| BookingModal.SelectedHospital | client/src/components/modals/DoctorBookingModal.jsx:49 | the first hospital whose id equals the selected id, absent iff none matches |
| BookingModal.InitialSelection | client/src/components/modals/DoctorBookingModal.jsx:37-39 | a truthy initial id is kept; any change selects the first hospital's id |
| BookingModal.DefaultSelectsFirst | client/src/components/modals/DoctorBookingModal.jsx:37-49 | with no usable initial id and at least one hospital, the modal selects the doctor's first hospital |
| BookingModal.AvailableDays | client/src/components/modals/DoctorBookingModal.jsx:50 | the weekdays of the selected hospital's schedules; none without a hospital |
| BookingModal.PickedWeekday | client/src/components/modals/DoctorBookingModal.jsx:7 | the picked date's weekday lies in 1..7 |
| BookingModal.PickedWeekdayIsIso | client/src/components/modals/DoctorBookingModal.jsx:7 | the picked date's weekday is its ISO weekday |
| BookingModal.ScheduleForDay | client/src/components/modals/DoctorBookingModal.jsx:51 | a found schedule belongs to the selected hospital, is for the picked weekday, and no earlier schedule is for that weekday |
| BookingModal.NoScheduleIffDayUnavailable | client/src/components/modals/DoctorBookingModal.jsx:120 | no schedule is found exactly when the warning shows: the weekday is not among the available days |
| BookingModal.TimeSlots | client/src/components/modals/DoctorBookingModal.jsx:52 | no slots without a schedule for the picked weekday; with one, none if a bound is not a time, otherwise the 20-minute labels covering that schedule's window as GenerateTimeSlots gives them |
| BookingModal.TravelSuggestion | client/src/components/modals/DoctorBookingModal.jsx:59-63 | nothing iff no slot or no hospital; travel is the client estimate; departure = appointment − travel minutes, wrapping at midnight, absent iff the slot is not a time |
| BookingModal.DepartureArrivesOnTime | client/src/components/modals/DoctorBookingModal.jsx:61-62 | leaving at the suggested time and travelling the estimated minutes arrives exactly at the appointment |
| BookingModal.SuggestionText | client/src/components/modals/DoctorBookingModal.jsx:59-63 | the text is empty iff there is no suggestion |
| DoctorCard.Availability | client/src/components/cards/DoctorCard.jsx:12-34 | on iff a hospital is given, the days include today's ISO weekday, both bounds are times and start ≤ now < end; then the badge shows the end time and an arrival of now + travel minutes (mod a day) |
| DoctorCard.AvailableFromStart | client/src/components/cards/DoctorCard.jsx:26 | the badge is on at the very second the window opens |
| DoctorCard.UnavailableAtEnd | client/src/components/cards/DoctorCard.jsx:26 | the badge is off at the very second the window closes |
| DoctorCard.AvailabilityText | client/src/components/cards/DoctorCard.jsx:30 | a caption exists iff the badge is on |
| DoctorCard.DefaultSortTotalPreorder | client/src/components/cards/DoctorCard.jsx:47 | the default sort's string comparison is a total preorder |
| DoctorCard.DefaultSortOnDigits | client/src/components/cards/DoctorCard.jsx:47 | on single digits the string order is the numeric order |
| DoctorCard.DisplayedDays | client/src/components/cards/DoctorCard.jsx:47 | the chips are present iff the days are, as a permutation of them |
| DoctorCard.DisplayedDaysAscending | client/src/components/cards/DoctorCard.jsx:47 | weekdays 1..7 are displayed in ascending numeric order |
| DoctorCard.DefaultSortBeyondDigits | client/src/components/cards/DoctorCard.jsx:47 | the string order is not numeric beyond one digit: 10 sorts before 9 |
| SpatialHelpers.Lookup | server/src/utils/spatialHelpers.js:10 | the value found for a key is that of the last column with the key, as in the driver's row object; none iff no column has the key |
| SpatialHelpers.Coerce | server/src/utils/spatialHelpers.js:10 | a string is handed to JSON.parse as is; a number is spelled so that it reads back as itself |
| SpatialHelpers.Without | server/src/utils/spatialHelpers.js:13-14 | the copy holds exactly the columns whose key is not the removed one |
| SpatialHelpers.LookupWithout | server/src/utils/spatialHelpers.js:13-14 | after the delete the removed key is gone and every other key has its old value |
| SpatialHelpers.RowFeature | server/src/utils/spatialHelpers.js:8-21 | a row becomes a Feature iff it has a geometry the parser reads; the Feature carries that geometry and the row's other columns |
| SpatialHelpers.Features | server/src/utils/spatialHelpers.js:8-21 | either one Feature per row, in order, or the index of the first row whose JSON.parse throws |
| SpatialHelpers.FormatToGeoJson | server/src/utils/spatialHelpers.js:7-27 | a FeatureCollection of one "Feature" per row, in row order, each with its row's parsed geometry; failure iff some row's geometry is missing or unreadable, naming the first such row |
| SpatialHelpers.PropertiesAreRowWithoutGeometry | server/src/utils/spatialHelpers.js:13-19 | a feature's properties are its row with only the geometry column removed |
| SpatialHelpers.EmptyRowsEmptyCollection | server/src/utils/spatialHelpers.js:7-8 | no rows give an empty FeatureCollection |

## Left out

- Routing: pgRouting's `pgr_dijkstra` and the nearest-vertex lookup are not in the repository. The route is an oracle function of the hospital.
- Straight-line distance: PostGIS `ST_DistanceSphere` is an oracle function of the hospital.
- Floating point: route lengths are whole metres and the travel formula is exact rational arithmetic. Only the tie-breaking of the two roundings is modelled: PostgreSQL's round on double precision goes half to even, JavaScript's Math.round goes half up.
- Clocks, timezones and locale: `NOW()` and `new Date()` become an `Instant` parameter on one local clock. There are no daylight-saving jumps, and no UTC/local difference between the date picker and getDay. `toLocaleTimeString` is modelled as a 24-hour "HH:MM".
- parseFloat of the coordinates: modelled only as a check. Text that parseFloat reads as NaN makes the query fail with a 500; the number read is not modelled because distances come from the oracles.
- SQL string interpolation and LIKE metacharacters: `q` is treated as a plain substring. `%` and `_` typed into it are not wildcards in the model.
- Case folding is ASCII only. String order is by code point; database collations are not modelled.
- PostgreSQL's date and time casts accept more spellings than the model's strict "YYYY-MM-DD", "HH:MM" and "HH:MM:SS". `parseInt` of withinMinutes reads an optional sign and leading digits. Whitespace and other radixes are left out.
- React state and rendering: effects, loading and error state, the booking confirmation and the markup. The state values become function parameters.
- The in-place mutation of `available_days` by `sort()` is not modelled; the model returns a sorted copy.
- The input rows of `formatToGeoJSON` are values in the model, so "not mutated" holds by construction rather than by a proof.
- JSON values with fractional numbers are not modelled; numbers are integers.
- BookingModal.GenerateTimeSlots: requires a positive interval. With an interval of 0 or less the source loops forever; the only caller uses the default of 20.
- HealthController.CheckCoordinates: the model's number test is an optional sign and then a digit or '.' and a digit. It rejects leading whitespace, which parseFloat skips (" 22.3" is a 500 in the model, a coordinate in the source). It accepts an exponent too large for a double ("1e999" is Infinity in the source, which the query rejects with a 500). Both need a model of parseFloat's whitespace set and of double range.
- HealthController.ParseId: the id must be an optional sign and digits. The width of the `hospital_id` column is not in the source files, so the model does not reject ids beyond its range (a 500 in the source). It rejects the blanks around the number that PostgreSQL's integer input accepts.
- AvailabilityFilter.ParseAvailability: the minute count is unbounded. In the source a count beyond PostgreSQL's interval range fails with a 500, and a count of 1e21 or more is spelled "1e+21" in the SQL text, which also fails.
- Clock.ParseClock: times run from 00:00:00 to 23:59:59. It rejects "24:00" and "24:00:00", which PostgreSQL's `time` and the browser's Date accept as the end of the day, and fractional seconds, which both read. A schedule ending at 24:00 therefore has no slots and no badge in the model, where the source lists slots up to 23:40.
- Row order: the model fixes one order for the rows of the joins (availability rows in table order, each paired with its doctors and then its hospitals in table order). PostgreSQL leaves the order of a join without ORDER BY, and of `json_agg` without an ORDER BY inside it, unspecified. So "in join order" in ReportDoctors, SelectedIsWanted and AdvancedSearchDoctors describes the model's choice, not a promise of the source.
- HTTP and database plumbing (`server/app.js`, `server/src/db/index.js`, `server/src/routes/api.js`, `client/src/services/apiService.js`) is not part of this model.
