/**
 * The appointment side of the patient handlers: doctors' time slots, patients'
 * appointments, and what booking, cancelling and the listing queries do to and with
 * them. Each handler's effect is a pure function from the store's tables before the
 * request to the tables after it and the response; `ScheduleStore` runs the same
 * handlers step by step against a mutable store.
 */
module Schedule {
  import opened Wrappers
  import Ordering
  import Clock

  type PatientId = nat
  type DoctorId = nat
  type SlotId = nat
  type AppointmentId = nat

  datatype SlotStatus = Available | Booked

  /** A doctor's bookable window `[start, end)`, in milliseconds. */
  datatype Slot = Slot(doctorId: DoctorId, start: int, end: int, status: SlotStatus)

  datatype Status = Pending | Confirmed | Cancelled | Completed

  datatype Kind = Online | Offline

  /**
   * An appointment row. `slotId` is absent for direct bookings; `kind` is absent when
   * the row was created without an appointment type (slot bookings), leaving it to
   * the schema default.
   */
  datatype Appointment = Appointment(
    patientId: PatientId,
    doctorId: DoctorId,
    slotId: Option<SlotId>,
    date: int,
    time: string,
    kind: Option<Kind>,
    status: Status,
    notes: Option<string>)

  /** The tables the patient handlers read and write. */
  datatype Db = Db(
    doctors: set<DoctorId>,
    patients: set<PatientId>,
    slots: map<SlotId, Slot>,
    appointments: map<AppointmentId, Appointment>,
    nextId: AppointmentId)

  datatype Reason =
    | OnlyPatients
    | SlotIdRequired
    | SlotNotFound
    | SlotAlreadyBooked
    | OverlappingAppointment
    | ConditionalWriteMissed
    | NotFoundOrUnauthorized
    | AlreadyCancelled
    | CancelFailed
    | FieldsRequired
    | InvalidAppointmentType
    | InvalidDate
    | InvalidTime
    | InvalidDoctorId
    | DoctorNotFound
    | DoctorUnavailable
    | PatientNotFound
    | PendingRequestExists
    | DoctorTimeTaken

  /** An error response: its HTTP status and why. */
  datatype Error = Error(status: int, reason: Reason)

  /** The tables after a request, and the response. */
  datatype Outcome<T> = Outcome(db: Db, result: Result<T, Error>)

  /** A date request field: absent (or empty), present but not a date, or an instant. */
  datatype DateArg = NoDate | Unparseable | At(ms: int)

  // ---------------------------------------------------------------------------
  // Conflict checks

  /** The statuses the overlap check treats as holding a time: PENDING, CONFIRMED, COMPLETED. */
  predicate IsActive(s: Status)
  {
    s == Pending || s == Confirmed || s == Completed
  }

  /** `existing.start < slot.end && existing.end > slot.start`: the half-open windows meet. */
  predicate Overlaps(x: Slot, y: Slot)
  {
    x.start < y.end && x.end > y.start
  }

  /** Appointment `a` is linked to a slot that exists. */
  predicate Timed(db: Db, a: AppointmentId)
  {
    a in db.appointments && db.appointments[a].slotId.Some? && db.appointments[a].slotId.value in db.slots
  }

  /** The slot appointment `a` is linked to. */
  function SlotOf(db: Db, a: AppointmentId): Slot
    requires Timed(db, a)
  {
    db.slots[db.appointments[a].slotId.value]
  }

  /** Appointment `a` is one of `patient`'s active slot appointments whose window meets `slot`. */
  predicate Blocks(db: Db, patient: PatientId, slot: Slot, a: AppointmentId)
  {
    && Timed(db, a)
    && db.appointments[a].patientId == patient
    && IsActive(db.appointments[a].status)
    && Overlaps(SlotOf(db, a), slot)
  }

  /** Appointment `a` holds slot `s`: it references `s` and is not cancelled. */
  predicate Holds(db: Db, a: AppointmentId, s: SlotId)
  {
    a in db.appointments && db.appointments[a].slotId == Some(s) && db.appointments[a].status != Cancelled
  }

  // ---------------------------------------------------------------------------
  // Slot booking (one transaction)

  /** The reads of a slot booking, up to the conditional write: the first failing check, if any. */
  function SlotPrecheck(db: Db, patient: Option<PatientId>, slotId: Option<SlotId>): Option<Error>
  {
    if patient.None? then Some(Error(403, OnlyPatients))
    else if slotId.None? then Some(Error(400, SlotIdRequired))
    else if slotId.value !in db.slots then Some(Error(404, SlotNotFound))
    else if db.slots[slotId.value].status != Available then Some(Error(409, SlotAlreadyBooked))
    else if exists a :: a in db.appointments && Blocks(db, patient.value, db.slots[slotId.value], a) then
      Some(Error(409, OverlappingAppointment))
    else None
  }

  /**
   * `updateMany({ where: { id, status: AVAILABLE }, data: { status: BOOKED } })`:
   * the slots afterwards and the number of rows written.
   */
  function ConditionalBook(slots: map<SlotId, Slot>, id: SlotId): (map<SlotId, Slot>, nat)
  {
    if id in slots && slots[id].status == Available then (slots[id := slots[id].(status := Booked)], 1)
    else (slots, 0)
  }

  /** The appointment a slot booking creates. */
  function SlotAppointment(patient: PatientId, slotId: SlotId, slot: Slot): Appointment
  {
    Appointment(patient, slot.doctorId, Some(slotId), slot.start, Clock.TimeOfDay(slot.start), None, Pending, None)
  }

  /**
   * The writes of a slot booking: the conditional write, then, if it wrote a row,
   * the new PENDING appointment. A missed conditional write aborts the transaction.
   */
  function CommitSlotBooking(db: Db, patient: PatientId, slotId: SlotId): Outcome<AppointmentId>
    requires slotId in db.slots
  {
    var (slots, count) := ConditionalBook(db.slots, slotId);
    if count == 0 then Outcome(db, Err(Error(400, ConditionalWriteMissed)))
    else
      var id := db.nextId;
      Outcome(
        db.(slots := slots,
            appointments := db.appointments[id := SlotAppointment(patient, slotId, db.slots[slotId])],
            nextId := id + 1),
        Ok(id))
  }

  /** `bookAppointment`: the whole transaction, run with no other request in between. */
  function BookSlot(db: Db, patient: Option<PatientId>, slotId: Option<SlotId>): Outcome<AppointmentId>
  {
    match SlotPrecheck(db, patient, slotId)
    case Some(e) => Outcome(db, Err(e))
    case None => CommitSlotBooking(db, patient.value, slotId.value)
  }

  // ---------------------------------------------------------------------------
  // Cancellation (two writes, no transaction)

  /** The first write of a cancellation: the appointment's status becomes CANCELLED. */
  function MarkCancelled(db: Db, id: AppointmentId): Db
    requires id in db.appointments
  {
    db.(appointments := db.appointments[id := db.appointments[id].(status := Cancelled)])
  }

  /** The second write of a cancellation: the linked slot becomes AVAILABLE. */
  function ReleaseSlot(db: Db, s: SlotId): Db
    requires s in db.slots
  {
    db.(slots := db.slots[s := db.slots[s].(status := Available)])
  }

  /** `cancelAppointment`. */
  function Cancel(db: Db, patient: Option<PatientId>, id: AppointmentId): Outcome<()>
  {
    if patient.None? then Outcome(db, Err(Error(400, OnlyPatients)))
    else if id !in db.appointments || db.appointments[id].patientId != patient.value then
      Outcome(db, Err(Error(400, NotFoundOrUnauthorized)))
    else if db.appointments[id].status == Cancelled then Outcome(db, Err(Error(400, AlreadyCancelled)))
    else
      var marked := MarkCancelled(db, id);
      var link := db.appointments[id].slotId;
      if link.None? then Outcome(marked, Ok(()))
      else if link.value !in db.slots then Outcome(marked, Err(Error(400, CancelFailed)))
      else Outcome(ReleaseSlot(marked, link.value), Ok(()))
  }

  // ---------------------------------------------------------------------------
  // Direct booking (sequential reads, then one insert)

  /** A direct booking request that passed the input checks. */
  datatype DirectRequest = DirectRequest(patientId: PatientId, doctorId: DoctorId, date: int, time: string, kind: Kind)

  /**
   * The input checks of `bookDirectAppointment`, made before it reads the store.
   * `time`, `kind` and `notes` are the request strings, empty when left out.
   */
  function ValidateDirect(patient: Option<PatientId>, doctorId: Option<DoctorId>, date: DateArg, time: string, kind: string)
    : Result<DirectRequest, Error>
  {
    if patient.None? then Err(Error(400, OnlyPatients))
    else if doctorId.None? || date.NoDate? || time == "" then Err(Error(400, FieldsRequired))
    else if kind != "" && kind != "ONLINE" && kind != "OFFLINE" then Err(Error(400, InvalidAppointmentType))
    else if date.Unparseable? then Err(Error(400, InvalidDate))
    else if !Clock.MatchesTimePattern(time) then Err(Error(400, InvalidTime))
    else Ok(DirectRequest(patient.value, doctorId.value, date.ms, time, if kind == "ONLINE" then Online else Offline))
  }

  /** `patient` already has a PENDING appointment (of either kind) with `doctor`. */
  predicate PendingWith(db: Db, patient: PatientId, doctor: DoctorId, a: AppointmentId)
  {
    a in db.appointments && db.appointments[a].patientId == patient
    && db.appointments[a].doctorId == doctor && db.appointments[a].status == Pending
  }

  /** `doctor` has a PENDING or CONFIRMED appointment at exactly this date and time string. */
  predicate TakesTime(db: Db, doctor: DoctorId, date: int, time: string, a: AppointmentId)
  {
    a in db.appointments && db.appointments[a].doctorId == doctor
    && db.appointments[a].date == date && db.appointments[a].time == time
    && (db.appointments[a].status == Pending || db.appointments[a].status == Confirmed)
  }

  /** The appointment a direct booking creates. */
  function DirectAppointment(req: DirectRequest, notes: string): Appointment
  {
    Appointment(req.patientId, req.doctorId, None, req.date, req.time, Some(req.kind), Pending,
                if notes == "" then None else Some(notes))
  }

  /** `bookDirectAppointment`. */
  function BookDirect(db: Db, patient: Option<PatientId>, doctorId: Option<DoctorId>, date: DateArg,
                      time: string, kind: string, notes: string): Outcome<AppointmentId>
  {
    match ValidateDirect(patient, doctorId, date, time, kind)
    case Err(e) => Outcome(db, Err(e))
    case Ok(req) =>
      if req.doctorId !in db.doctors then Outcome(db, Err(Error(404, DoctorNotFound)))
      else if req.patientId !in db.patients then Outcome(db, Err(Error(404, PatientNotFound)))
      else if exists a :: a in db.appointments && PendingWith(db, req.patientId, req.doctorId, a) then
        Outcome(db, Err(Error(409, PendingRequestExists)))
      else if exists a :: a in db.appointments && TakesTime(db, req.doctorId, req.date, req.time, a) then
        Outcome(db, Err(Error(409, DoctorTimeTaken)))
      else
        var id := db.nextId;
        Outcome(db.(appointments := db.appointments[id := DirectAppointment(req, notes)], nextId := id + 1), Ok(id))
  }

  // ---------------------------------------------------------------------------
  // Queries

  /** A slot that `availableTimeSlots` lists for `doctor` and the optional day. */
  predicate Listed(slot: Slot, doctor: DoctorId, date: DateArg)
  {
    slot.doctorId == doctor && slot.status == Available && (date.At? ==> Clock.InDayWindow(date.ms, slot.start))
  }

  /**
   * `availableTimeSlots`: the listed slots, earliest start first. `doctorId` is absent
   * when the path parameter is missing or not a well-formed id.
   */
  function AvailableTimeSlots(db: Db, doctorId: Option<DoctorId>, date: DateArg): Result<seq<SlotId>, Error>
  {
    if doctorId.None? then Err(Error(400, InvalidDoctorId))
    else if doctorId.value !in db.doctors then Err(Error(404, DoctorUnavailable))
    else if date.Unparseable? then Err(Error(400, InvalidDate))
    else Ok(Ordering.OrderBy(map s | s in db.slots && Listed(db.slots[s], doctorId.value, date) :: db.slots[s].start))
  }

  /** Appointment `a` is `patient`'s and linked to a slot; `upcoming` picks slots starting at or after `now`. */
  predicate InList(db: Db, patient: PatientId, a: AppointmentId, now: int, upcoming: bool)
  {
    Timed(db, a) && db.appointments[a].patientId == patient && (SlotOf(db, a).start >= now <==> upcoming)
  }

  function AppointmentList(db: Db, patient: Option<PatientId>, now: int, upcoming: bool): Result<seq<AppointmentId>, Error>
  {
    if patient.None? then Err(Error(400, OnlyPatients))
    else Ok(Ordering.OrderBy(map a | a in db.appointments && InList(db, patient.value, a, now, upcoming) :: SlotOf(db, a).start))
  }

  /** `getUpcomingAppointments`: the patient's appointments whose slot starts at or after `now`, earliest first. */
  function UpcomingAppointments(db: Db, patient: Option<PatientId>, now: int): Result<seq<AppointmentId>, Error>
  {
    AppointmentList(db, patient, now, true)
  }

  /** `getPastAppointments`: the patient's appointments whose slot starts before `now`, earliest first. */
  function PastAppointments(db: Db, patient: Option<PatientId>, now: int): Result<seq<AppointmentId>, Error>
  {
    AppointmentList(db, patient, now, false)
  }

  /** The `nextAvailable` slot `fetchAllDoctors` attaches to `doctor`: the earliest AVAILABLE slot starting at or after `now`. */
  function NextAvailable(db: Db, doctor: DoctorId, now: int): Option<SlotId>
  {
    var order := Ordering.OrderBy(map s | s in db.slots && db.slots[s].doctorId == doctor
                                            && db.slots[s].start >= now && db.slots[s].status == Available
                                        :: db.slots[s].start);
    if order == [] then None else Some(order[0])
  }

  // ---------------------------------------------------------------------------
  // The store's invariant

  /** Every slot an appointment references exists (the foreign key). */
  ghost predicate SlotsExist(db: Db)
  {
    forall a :: a in db.appointments && db.appointments[a].slotId.Some? ==> db.appointments[a].slotId.value in db.slots
  }

  /** New appointment ids are fresh. */
  ghost predicate IdsFresh(db: Db)
  {
    forall a :: a in db.appointments ==> a < db.nextId
  }

  /** A slot is BOOKED exactly when some appointment holds it. */
  ghost predicate BookedIffHeld(db: Db)
  {
    forall s :: s in db.slots ==> (db.slots[s].status == Booked <==> exists a :: Holds(db, a, s))
  }

  /** No slot is held by two appointments. */
  ghost predicate SingleHolder(db: Db)
  {
    forall a, b, s :: Holds(db, a, s) && Holds(db, b, s) ==> a == b
  }

  /** A patient's active slot appointments are pairwise disjoint in time. */
  ghost predicate NoOverlap(db: Db)
  {
    forall a, b ::
      a != b && Timed(db, a) && Timed(db, b)
      && IsActive(db.appointments[a].status) && IsActive(db.appointments[b].status)
      && db.appointments[a].patientId == db.appointments[b].patientId
      ==> !Overlaps(SlotOf(db, a), SlotOf(db, b))
  }

  /** A direct PENDING or CONFIRMED appointment, the kind direct booking creates and guards. */
  predicate OpenDirect(db: Db, a: AppointmentId)
  {
    a in db.appointments && db.appointments[a].slotId.None?
    && (db.appointments[a].status == Pending || db.appointments[a].status == Confirmed)
  }

  /** No two open direct appointments give one doctor the same date and time string. */
  ghost predicate DirectTimesUnique(db: Db)
  {
    forall a, b ::
      OpenDirect(db, a) && OpenDirect(db, b)
      && db.appointments[a].doctorId == db.appointments[b].doctorId
      && db.appointments[a].date == db.appointments[b].date
      && db.appointments[a].time == db.appointments[b].time
      ==> a == b
  }

  /** A patient has at most one PENDING direct request per doctor. */
  ghost predicate OnePendingDirect(db: Db)
  {
    forall a, b ::
      a in db.appointments && b in db.appointments
      && db.appointments[a].slotId.None? && db.appointments[b].slotId.None?
      && db.appointments[a].status == Pending && db.appointments[b].status == Pending
      && db.appointments[a].patientId == db.appointments[b].patientId
      && db.appointments[a].doctorId == db.appointments[b].doctorId
      ==> a == b
  }

  ghost predicate Inv(db: Db)
  {
    && SlotsExist(db) && IdsFresh(db) && BookedIffHeld(db) && SingleHolder(db)
    && NoOverlap(db) && DirectTimesUnique(db) && OnePendingDirect(db)
  }
}
