/** The booking modal's client-side logic: cutting a schedule into
    appointment slots, choosing the hospital and the schedule for the
    picked date, and suggesting when to leave home. Times are local
    wall-clock times; the modal's React state becomes parameters. */
module BookingModal {
  import opened Wrappers
  import opened Arith
  import opened Seqs
  import opened Clock
  import opened Calendar
  import opened Travel
  import opened Schema

  /** The slot length the modal uses when it does not say otherwise. */
  const SlotIntervalMinutes: nat := 20

  /** One weekly schedule of a doctor at a hospital, as the doctor details
      endpoint returns it: an ISO weekday and the bounds as time strings. */
  datatype Schedule = Schedule(dayOfWeek: int, startTime: string, endTime: string)

  /** A hospital the doctor works at, with the road distance to the user. */
  datatype DoctorHospital = DoctorHospital(
    hospitalId: int,
    name: string,
    distanceMeters: nat,
    schedules: seq<Schedule>)

  // ------------------------------------------------------------- time slots

  /** ceil(n / d) pinned down by its defining inequalities. */
  lemma CeilingDivision(n: int, d: int, k: int)
    requires n > 0 && d > 0
    requires k * d >= n && (k - 1) * d < n
    ensures k == (n + d - 1) / d
  {
    var a := n + d - 1;
    var q := a / d;
    assert a == q * d + a % d;
    assert k * d <= a < k * d + d;
    if q < k {
      MulStep(q, k, d);
    } else if k < q {
      MulStep(k, q, d);
    }
  }

  /** The number of steps that stop just at or after `end` is the ceiling
      of the distance over the step. */
  lemma StepCount(start: int, end: int, step: int, n: int)
    requires start < end && step > 0 && n > 0
    requires start + n * step >= end
    requires start + (n - 1) * step < end
    ensures n == (end - start + step - 1) / step
  {
    CeilingDivision(end - start, step, n);
  }

  lemma StepProduct(k: int, step: int)
    ensures (k + 1) * step == k * step + step
  {
  }

  /** Whole-minute steps from a whole minute stay on whole minutes. */
  lemma WholeMinuteStep(s: int, i: int, intervalMinutes: int)
    requires s % 60 == 0
    ensures (s + i * (intervalMinutes * SecondsPerMinute)) % 60 == 0
  {
    assert s + i * (intervalMinutes * SecondsPerMinute) == 60 * (s / 60 + i * intervalMinutes);
  }

  /** The seconds of day at which slots of `step` seconds start, from
      `start` while still before `end`. */
  method SlotStarts(start: SecondOfDay, end: SecondOfDay, step: nat) returns (times: seq<SecondOfDay>)
    requires step > 0
    ensures start >= end ==> times == []
    ensures start < end ==> |times| == (end - start + step - 1) / step
    ensures forall i :: 0 <= i < |times| ==> times[i] == start + i * step
    ensures forall i :: 0 <= i < |times| ==> start <= times[i] < end
  {
    times := [];
    var current: int := start;
    while current < end
      invariant current == start + |times| * step
      invariant start >= end ==> times == []
      invariant forall i :: 0 <= i < |times| ==> times[i] == start + i * step
      invariant forall i :: 0 <= i < |times| ==> start <= times[i] < end
      decreases end - current
    {
      StepProduct(|times|, step);
      times := times + [current];
      current := current + step;
    }
    if start < end {
      var last := |times| - 1;
      assert times[last] == start + last * step;
      StepCount(start, end, step, |times|);
    }
  }

  /** What the labels of the slots from `s` to `e`, `step` seconds apart,
      must be: as many as the steps that start before `e`, and label i an
      "HH:MM" string that reads back as the minute of the i-th start, which
      lies in [s, e). */
  predicate LabelsCover(slots: seq<string>, s: SecondOfDay, e: SecondOfDay, step: nat)
    requires step > 0
  {
    && |slots| == (if s < e then (e - s + step - 1) / step else 0)
    && forall i :: 0 <= i < |slots| ==>
         && |slots[i]| == 5 && slots[i][2] == ':'
         && ParseClock(slots[i]) == Some((s + i * step) / 60 * 60)
         && s <= s + i * step < e
  }

  /** The labels of the slots between two schedule times, `intervalMinutes`
      apart, each the slot's start as "HH:MM". A bound that is not a time
      (an Invalid Date) yields no slots. */
  method GenerateTimeSlots(start: string, end: string, intervalMinutes: nat) returns (slots: seq<string>)
    requires intervalMinutes > 0
    ensures ParseClock(start).None? || ParseClock(end).None? ==> slots == []
    ensures ParseClock(start).Some? && ParseClock(end).Some? ==>
      LabelsCover(slots, ParseClock(start).value, ParseClock(end).value, intervalMinutes * SecondsPerMinute)
    ensures |start| == 5 && |slots| > 0 ==> slots[0] == start
  {
    var s := ParseClock(start);
    var e := ParseClock(end);
    if s.None? || e.None? {
      return [];
    }
    var times := SlotStarts(s.value, e.value, intervalMinutes * SecondsPerMinute);
    slots := Map(times, FormatHHMM);
    SlotLabels(times, s.value, e.value, intervalMinutes);
    if |start| == 5 && |slots| > 0 {
      FormatParse(start);
    }
  }

  /** From a start on a whole minute, every label reads back as exactly
      its slot's start. */
  lemma WholeMinuteLabels(slots: seq<string>, s: SecondOfDay, e: SecondOfDay, intervalMinutes: nat)
    requires intervalMinutes > 0 && s % 60 == 0
    requires LabelsCover(slots, s, e, intervalMinutes * SecondsPerMinute)
    ensures forall i :: 0 <= i < |slots| ==> ParseClock(slots[i]) == Some(s + i * (intervalMinutes * SecondsPerMinute))
  {
    forall i | 0 <= i < |slots|
      ensures ParseClock(slots[i]) == Some(s + i * (intervalMinutes * SecondsPerMinute))
    {
      WholeMinuteStep(s, i, intervalMinutes);
    }
  }

  /** The labels of the slot starts satisfy LabelsCover. */
  lemma SlotLabels(times: seq<SecondOfDay>, s: SecondOfDay, e: SecondOfDay, intervalMinutes: nat)
    requires intervalMinutes > 0
    requires |times| == (if s < e then (e - s + intervalMinutes * SecondsPerMinute - 1) / (intervalMinutes * SecondsPerMinute) else 0)
    requires forall i :: 0 <= i < |times| ==> times[i] == s + i * (intervalMinutes * SecondsPerMinute)
    requires forall i :: 0 <= i < |times| ==> s <= times[i] < e
    ensures LabelsCover(Map(times, FormatHHMM), s, e, intervalMinutes * SecondsPerMinute)
  {
  }

  // ------------------------------------------------------------- selection

  /** Array.prototype.find's test `h.hospital_id === selectedHospitalId`. */
  function HasId(id: Option<int>): DoctorHospital -> bool {
    (h: DoctorHospital) => id == Some(h.hospitalId)
  }

  /** The hospital whose id is selected, the first one if several match. */
  function SelectedHospital(hospitals: seq<DoctorHospital>, selectedId: Option<int>): (r: Option<DoctorHospital>)
    ensures r.Some? ==> r.value in hospitals && selectedId == Some(r.value.hospitalId)
    ensures r.None? <==> forall h :: h in hospitals ==> selectedId != Some(h.hospitalId)
    ensures r.Some? ==>
      exists i :: 0 <= i < |hospitals| && hospitals[i] == r.value &&
        forall j :: 0 <= j < i ==> selectedId != Some(hospitals[j].hospitalId)
  {
    Find(hospitals, HasId(selectedId))
  }

  /** The hospital selected once the doctor is loaded: the one passed in,
      unless that is falsy (absent or 0), in which case the first hospital
      of the doctor, if there is one. */
  function InitialSelection(initialId: Option<int>, hospitals: seq<DoctorHospital>): (r: Option<int>)
    ensures initialId.Some? && initialId.value != 0 ==> r == initialId
    ensures r != initialId ==> |hospitals| > 0 && r == Some(hospitals[0].hospitalId)
  {
    if (initialId.None? || initialId.value == 0) && |hospitals| > 0 then Some(hospitals[0].hospitalId)
    else initialId
  }

  /** Without a usable initial id the modal opens on the doctor's first
      hospital. */
  lemma DefaultSelectsFirst(initialId: Option<int>, hospitals: seq<DoctorHospital>)
    requires initialId.None? || initialId == Some(0)
    requires |hospitals| > 0
    ensures SelectedHospital(hospitals, InitialSelection(initialId, hospitals)) == Some(hospitals[0])
  {
    var r := SelectedHospital(hospitals, InitialSelection(initialId, hospitals));
    assert HasId(InitialSelection(initialId, hospitals))(hospitals[0]);
    assert r.Some?;
    var i :| 0 <= i < |hospitals| && hospitals[i] == r.value
      && forall j :: 0 <= j < i ==> Some(hospitals[0].hospitalId) != Some(hospitals[j].hospitalId);
    assert i == 0;
  }

  function DayOf(s: Schedule): int {
    s.dayOfWeek
  }

  /** The weekdays the selected hospital has a schedule for, in schedule
      order; none when no hospital is selected. */
  function AvailableDays(hospital: Option<DoctorHospital>): (r: seq<int>)
    ensures hospital.None? ==> r == []
    ensures hospital.Some? ==> forall d :: d in r <==> exists s :: s in hospital.value.schedules && s.dayOfWeek == d
  {
    match hospital
    case None => []
    case Some(h) => Map(h.schedules, DayOf)
  }

  function OnDay(isoDay: int): Schedule -> bool {
    (s: Schedule) => s.dayOfWeek == isoDay
  }

  /** The weekday the modal computes for a picked date: getDay() with
      Sunday moved from 0 to 7. */
  function PickedWeekday(picked: Instant): (w: int)
    ensures 1 <= w <= 7
  {
    IsoDayFromJsDay(JsWeekday(picked.day))
  }

  /** The first schedule of the selected hospital for the picked weekday. */
  function ScheduleForDay(hospital: Option<DoctorHospital>, isoDay: int): (r: Option<Schedule>)
    ensures r.Some? ==> hospital.Some? && r.value in hospital.value.schedules && r.value.dayOfWeek == isoDay
    ensures r.Some? ==>
      exists i :: 0 <= i < |hospital.value.schedules| && hospital.value.schedules[i] == r.value &&
        forall j :: 0 <= j < i ==> hospital.value.schedules[j].dayOfWeek != isoDay
  {
    match hospital
    case None => None
    case Some(h) => Find(h.schedules, OnDay(isoDay))
  }

  /** The "not available on this day" warning and the missing slots go
      together: a schedule is found exactly when the weekday is among the
      available days. */
  lemma NoScheduleIffDayUnavailable(hospital: Option<DoctorHospital>, isoDay: int)
    ensures ScheduleForDay(hospital, isoDay).None? <==> isoDay !in AvailableDays(hospital)
  {
    if hospital.Some? {
      var h := hospital.value;
      if isoDay in AvailableDays(hospital) {
        var s :| s in h.schedules && s.dayOfWeek == isoDay;
        assert OnDay(isoDay)(s);
      }
    }
  }

  /** The weekday the modal matches schedules against is the ISO weekday
      the server stores. */
  lemma PickedWeekdayIsIso(picked: Instant)
    ensures PickedWeekday(picked) == IsoWeekday(picked.day)
  {
    JsConversionAgreesWithIso(picked.day);
  }

  /** The slots of a schedule's window: none if a bound is not a time,
      otherwise 20-minute slots covering the window. */
  predicate WindowSlots(slots: seq<string>, schedule: Schedule) {
    var start, end := ParseClock(schedule.startTime), ParseClock(schedule.endTime);
    if start.Some? && end.Some? then
      LabelsCover(slots, start.value, end.value, SlotIntervalMinutes * SecondsPerMinute)
    else slots == []
  }

  /** The slots offered for the picked date: the schedule's slots, or none. */
  method TimeSlots(hospital: Option<DoctorHospital>, picked: Instant) returns (slots: seq<string>)
    ensures ScheduleForDay(hospital, IsoWeekday(picked.day)).None? ==> slots == []
    ensures slots != [] ==> IsoWeekday(picked.day) in AvailableDays(hospital)
    ensures forall i :: 0 <= i < |slots| ==> |slots[i]| == 5 && slots[i][2] == ':'
    ensures ScheduleForDay(hospital, IsoWeekday(picked.day)).Some? ==>
      WindowSlots(slots, ScheduleForDay(hospital, IsoWeekday(picked.day)).value)
  {
    PickedWeekdayIsIso(picked);
    NoScheduleIffDayUnavailable(hospital, IsoWeekday(picked.day));
    var schedule := ScheduleForDay(hospital, PickedWeekday(picked));
    if schedule.None? {
      return [];
    }
    slots := GenerateTimeSlots(schedule.value.startTime, schedule.value.endTime, SlotIntervalMinutes);
  }

  // ---------------------------------------------------- travel suggestion

  /** What the modal suggests once a slot is picked: nothing without a slot
      or a hospital; otherwise the travel estimate and the departure time,
      absent when the slot is not a time the browser can read. */
  datatype Suggestion =
    | NoSuggestion
    | LeaveBy(slot: string, travelMinutes: int, departure: Option<SecondOfDay>)

  function TravelSuggestion(selectedSlot: Option<string>, hospital: Option<DoctorHospital>): (r: Suggestion)
    ensures r.NoSuggestion? <==> !Present(selectedSlot) || hospital.None?
    ensures r.LeaveBy? ==> r.slot == selectedSlot.value
    ensures r.LeaveBy? ==>
      r.travelMinutes - MinimumTravelMinutes
        == RoundHalfUp(DriveNumerator(hospital.value.distanceMeters), DriveDenominator(AverageSpeedKmh))
    ensures r.LeaveBy? ==> (r.departure.Some? <==> ParseClock(r.slot).Some?)
    ensures r.LeaveBy? && r.departure.Some? ==>
      (ParseClock(r.slot).value - r.departure.value - r.travelMinutes * SecondsPerMinute) % SecondsPerDay == 0
    ensures r.LeaveBy? && r.departure.Some? && ParseClock(r.slot).value >= r.travelMinutes * SecondsPerMinute ==>
      r.departure.value == ParseClock(r.slot).value - r.travelMinutes * SecondsPerMinute
  {
    if !Present(selectedSlot) || hospital.None? then NoSuggestion
    else
      var travel := ClientTravelMinutes(hospital.value.distanceMeters, AverageSpeedKmh);
      var departure :=
        match ParseClock(selectedSlot.value)
        case None => None
        case Some(t) => Some(ShiftTimeOfDay(t, -travel * SecondsPerMinute));
      LeaveBy(selectedSlot.value, travel, departure)
  }

  /** Leaving at the suggested time and travelling for the estimated
      minutes arrives exactly at the appointment. */
  lemma DepartureArrivesOnTime(selectedSlot: Option<string>, hospital: Option<DoctorHospital>)
    requires TravelSuggestion(selectedSlot, hospital).LeaveBy?
    requires TravelSuggestion(selectedSlot, hospital).departure.Some?
    ensures var r := TravelSuggestion(selectedSlot, hospital);
      ShiftTimeOfDay(r.departure.value, r.travelMinutes * SecondsPerMinute) == ParseClock(r.slot).value
  {
    var r := TravelSuggestion(selectedSlot, hospital);
    ShiftInverse(ParseClock(r.slot).value, r.travelMinutes * SecondsPerMinute);
  }

  /** The sentence the modal shows; a slot it cannot read leaves the
      browser printing "Invalid Date" for the departure. */
  function SuggestionText(r: Suggestion): (text: string)
    ensures r.NoSuggestion? <==> text == ""
  {
    match r
    case NoSuggestion => ""
    case LeaveBy(slot, travel, departure) =>
      "Your appointment is at " + slot + ". With an estimated travel time of "
        + Text.IntToString(travel) + " minutes, we suggest you leave by "
        + (match departure case None => "Invalid Date" case Some(t) => FormatHHMM(t)) + "."
  }
}
