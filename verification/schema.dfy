/** The tables the health controller queries (doctors, hospitals,
    doctor_availability), the inner joins its queries perform, the row
    shapes it returns, and the request and error vocabulary of its HTTP
    handlers. Tables are sequences of immutable rows; the database is a
    read-only snapshot while a request is served. */
module Schema {
  import opened Wrappers
  import opened Clock

  /** A hospital's position (PostGIS geometry, longitude first). */
  datatype Point = Point(lon: real, lat: real)

  datatype Doctor = Doctor(id: int, name: string, specialization: string)

  datatype Hospital = Hospital(id: int, name: string, address: string, location: Point)

  /** One row of doctor_availability: a doctor works at a hospital on an
      ISO weekday (1 = Monday ... 7 = Sunday) from startTime to endTime. */
  datatype AvailabilityRow = AvailabilityRow(
    doctorId: int,
    hospitalId: int,
    dayOfWeek: int,
    startTime: SecondOfDay,
    endTime: SecondOfDay)

  datatype Database = Database(
    doctors: seq<Doctor>,
    hospitals: seq<Hospital>,
    availability: seq<AvailabilityRow>)

  // ------------------------------------------------------------------ joins

  /** A row of `doctors d JOIN doctor_availability da ON d.doctor_id = da.doctor_id`. */
  datatype Assignment = Assignment(doctor: Doctor, slot: AvailabilityRow)

  /** A row of that join further joined with `hospitals h ON da.hospital_id = h.hospital_id`. */
  datatype Listing = Listing(doctor: Doctor, slot: AvailabilityRow, hospital: Hospital)

  function PairWithDoctors(slot: AvailabilityRow, doctors: seq<Doctor>): (r: seq<Assignment>)
    ensures forall a :: a in r <==> a.slot == slot && a.doctor in doctors && a.doctor.id == slot.doctorId
  {
    if |doctors| == 0 then []
    else
      (if doctors[0].id == slot.doctorId then [Assignment(doctors[0], slot)] else [])
        + PairWithDoctors(slot, doctors[1..])
  }

  function AssignmentsOf(slots: seq<AvailabilityRow>, doctors: seq<Doctor>): (r: seq<Assignment>)
    ensures forall a :: a in r <==> a.slot in slots && a.doctor in doctors && a.doctor.id == a.slot.doctorId
  {
    if |slots| == 0 then []
    else PairWithDoctors(slots[0], doctors) + AssignmentsOf(slots[1..], doctors)
  }

  /** Every (doctor, slot) pair the doctor/availability join produces. */
  function Assignments(db: Database): (r: seq<Assignment>)
    ensures forall a :: a in r <==>
      a.doctor in db.doctors && a.slot in db.availability && a.doctor.id == a.slot.doctorId
  {
    AssignmentsOf(db.availability, db.doctors)
  }

  function PairWithHospitals(a: Assignment, hospitals: seq<Hospital>): (r: seq<Listing>)
    ensures forall l :: l in r <==>
      l.doctor == a.doctor && l.slot == a.slot && l.hospital in hospitals && l.hospital.id == a.slot.hospitalId
  {
    if |hospitals| == 0 then []
    else
      (if hospitals[0].id == a.slot.hospitalId then [Listing(a.doctor, a.slot, hospitals[0])] else [])
        + PairWithHospitals(a, hospitals[1..])
  }

  function ListingsOf(assignments: seq<Assignment>, hospitals: seq<Hospital>): (r: seq<Listing>)
    ensures forall l :: l in r <==>
      Assignment(l.doctor, l.slot) in assignments && l.hospital in hospitals && l.hospital.id == l.slot.hospitalId
  {
    if |assignments| == 0 then []
    else PairWithHospitals(assignments[0], hospitals) + ListingsOf(assignments[1..], hospitals)
  }

  /** Every (doctor, slot, hospital) triple of the three-way join. */
  function Listings(db: Database): (r: seq<Listing>)
    ensures forall l :: l in r <==>
      && l.doctor in db.doctors && l.slot in db.availability && l.hospital in db.hospitals
      && l.doctor.id == l.slot.doctorId && l.hospital.id == l.slot.hospitalId
  {
    ListingsOf(Assignments(db), db.hospitals)
  }

  // ------------------------------------------------------------ output rows

  /** The per-slot row both search handlers return: doctor_id, name,
      specialization, and the slot's bounds through to_char(.., 'HH24:MI'). */
  datatype DoctorSlot = DoctorSlot(
    doctorId: int,
    name: string,
    specialization: string,
    startTime: string,
    endTime: string)

  function SlotOf(doctor: Doctor, slot: AvailabilityRow): DoctorSlot {
    DoctorSlot(doctor.id, doctor.name, doctor.specialization, FormatHHMM(slot.startTime), FormatHHMM(slot.endTime))
  }

  function ListingSlot(l: Listing): DoctorSlot {
    SlotOf(l.doctor, l.slot)
  }

  function AssignmentSlot(a: Assignment): DoctorSlot {
    SlotOf(a.doctor, a.slot)
  }

  // ------------------------------------------------------- HTTP vocabulary

  /** A query-string value as the handlers test it: JavaScript treats an
      absent parameter and the empty string alike as false. */
  predicate Present(p: Option<string>) {
    p.Some? && |p.value| > 0
  }

  /** The two ways a handler fails: a 400 with a message naming the missing
      input, or a 500 when the database rejects the query. */
  datatype HttpError = BadRequest(message: string) | InternalServerError

  function StatusCode(e: HttpError): int {
    match e
    case BadRequest(_) => 400
    case InternalServerError => 500
  }
}
