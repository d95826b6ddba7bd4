/** The doctor card's "available now" badge and its list of weekdays. The
    current moment is a parameter (the browser's local clock). */
module DoctorCard {
  import opened Wrappers
  import opened Seqs
  import opened Text
  import opened Clock
  import opened Calendar

  /** What the card knows about a doctor: the ISO weekdays they work (the
      field may be missing) and one daily window as time strings. */
  datatype CardDoctor = CardDoctor(availableDays: Option<seq<int>>, startTime: string, endTime: string)

  /** The hospital the card is shown under, with the server's estimate. */
  datatype CardHospital = CardHospital(travelTimeMinutes: int)

  /** The badge: off, or on with the end of the window as the server sent
      it and the time of day one would arrive by leaving now. */
  datatype Badge = Unavailable | AvailableNow(until: string, arrival: SecondOfDay)

  /** Whether the doctor can be reached now. The weekday is getDay() with
      Sunday moved to 7; the window includes its start and excludes its
      end; a bound that is not a time disables the badge. */
  function Availability(doctor: CardDoctor, hospital: Option<CardHospital>, now: Instant): (r: Badge)
    ensures r.AvailableNow? <==>
      && hospital.Some?
      && doctor.availableDays.Some?
      && IsoWeekday(now.day) in doctor.availableDays.value
      && ParseClock(doctor.startTime).Some?
      && ParseClock(doctor.endTime).Some?
      && ParseClock(doctor.startTime).value <= now.second < ParseClock(doctor.endTime).value
    ensures r.AvailableNow? ==> r.until == doctor.endTime
    ensures r.AvailableNow? ==>
      (r.arrival - now.second - hospital.value.travelTimeMinutes * SecondsPerMinute) % SecondsPerDay == 0
    ensures r.AvailableNow? && 0 <= now.second + hospital.value.travelTimeMinutes * SecondsPerMinute < SecondsPerDay ==>
      r.arrival == now.second + hospital.value.travelTimeMinutes * SecondsPerMinute
  {
    if hospital.None? then Unavailable
    else
      var today := IsoDayFromJsDay(JsWeekday(now.day));
      JsConversionAgreesWithIso(now.day);
      if doctor.availableDays.None? || today !in doctor.availableDays.value then Unavailable
      else
        match (ParseClock(doctor.startTime), ParseClock(doctor.endTime))
        case (Some(start), Some(end)) =>
          if start <= now.second < end then
            AvailableNow(doctor.endTime, ShiftTimeOfDay(now.second, hospital.value.travelTimeMinutes * SecondsPerMinute))
          else Unavailable
        case _ => Unavailable
  }

  /** The badge comes on at the very second the window opens ... */
  lemma AvailableFromStart(doctor: CardDoctor, hospital: CardHospital, now: Instant)
    requires doctor.availableDays.Some? && IsoWeekday(now.day) in doctor.availableDays.value
    requires ParseClock(doctor.startTime).Some? && ParseClock(doctor.endTime).Some?
    requires ParseClock(doctor.startTime).value == now.second < ParseClock(doctor.endTime).value
    ensures Availability(doctor, Some(hospital), now).AvailableNow?
  {
  }

  /** ... and goes off at the very second it closes. */
  lemma UnavailableAtEnd(doctor: CardDoctor, hospital: Option<CardHospital>, now: Instant)
    requires ParseClock(doctor.endTime) == Some(now.second)
    ensures Availability(doctor, hospital, now) == Unavailable
  {
  }

  /** The badge's caption; none when the badge is off. */
  function AvailabilityText(b: Badge): (text: Option<string>)
    ensures text.None? <==> b.Unavailable?
  {
    match b
    case Unavailable => None
    case AvailableNow(until, arrival) =>
      Some("Available until " + until + ". Reach by ~" + FormatHHMM(arrival) + ".")
  }

  // ------------------------------------------------------- weekday chips

  /** Array.prototype.sort without a comparator: elements compared as the
      strings String(x), code unit by code unit. */
  predicate DefaultSortLe(a: int, b: int) {
    LexLe(IntToString(a), IntToString(b))
  }

  lemma DefaultSortTotalPreorder()
    ensures TotalPreorder(DefaultSortLe)
  {
    forall a: int, b: int
      ensures DefaultSortLe(a, b) || DefaultSortLe(b, a)
    {
      LexLeTotal(IntToString(a), IntToString(b));
    }
    forall a: int, b: int, c: int | DefaultSortLe(a, b) && DefaultSortLe(b, c)
      ensures DefaultSortLe(a, c)
    {
      LexLeTransitive(IntToString(a), IntToString(b), IntToString(c));
    }
  }

  /** On single digits the string order is the numeric order. */
  lemma DefaultSortOnDigits(a: int, b: int)
    requires 0 <= a <= 9 && 0 <= b <= 9
    ensures DefaultSortLe(a, b) <==> a <= b
  {
    assert IntToString(a) == [DigitChar(a)];
    assert IntToString(b) == [DigitChar(b)];
    assert LexLe([DigitChar(a)], [DigitChar(b)]) <==> DigitChar(a) <= DigitChar(b) by {
      assert [DigitChar(a)][1..] == [];
    }
  }

  /** The weekday chips in display order: the days sorted as strings. */
  function DisplayedDays(days: Option<seq<int>>): (r: Option<seq<int>>)
    ensures r.None? <==> days.None?
    ensures r.Some? ==> multiset(r.value) == multiset(days.value)
  {
    match days
    case None => None
    case Some(ds) => Some(SortBy(ds, DefaultSortLe))
  }

  /** Weekdays 1 .. 7 come out in numeric order: Monday first, Sunday last. */
  lemma DisplayedDaysAscending(ds: seq<int>)
    requires forall i :: 0 <= i < |ds| ==> 1 <= ds[i] <= 7
    ensures var r := DisplayedDays(Some(ds)).value;
      forall i, j :: 0 <= i < j < |r| ==> r[i] <= r[j]
  {
    var r := DisplayedDays(Some(ds)).value;
    DefaultSortTotalPreorder();
    SortBySorted(ds, DefaultSortLe);
    SameMultisetSameElements(r, ds);
    forall i, j | 0 <= i < j < |r|
      ensures r[i] <= r[j]
    {
      assert r[i] in ds && r[j] in ds;
      DefaultSortOnDigits(r[i], r[j]);
    }
  }

  /** The string order is not numeric beyond one digit: 10 sorts before 9. */
  lemma DefaultSortBeyondDigits()
    ensures DefaultSortLe(10, 9) && !DefaultSortLe(9, 10)
  {
    assert IntToString(10) == "10";
    assert IntToString(9) == "9";
  }
}
