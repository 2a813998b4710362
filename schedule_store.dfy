/**
 * The appointment store as the handlers drive it: tables that each request updates
 * in place, one write at a time. Every method is proved to leave the tables as the
 * matching transition function of `Schedule` says and to keep the store's invariant.
 */
module ScheduleStore {
  import opened Wrappers
  import opened Schedule
  import ScheduleProofs

  class Store {
    var doctors: set<DoctorId>
    var patients: set<PatientId>
    var slots: map<SlotId, Slot>
    var appointments: map<AppointmentId, Appointment>
    var nextAppointmentId: nat

    /** The tables as one value. */
    function State(): Db
      reads this
    {
      Db(doctors, patients, slots, appointments, nextAppointmentId)
    }

    ghost predicate Valid()
      reads this
    {
      Inv(State())
    }

    /** A store with the given doctors, patients and slots, all slots AVAILABLE and no appointments. */
    constructor (doctors: set<DoctorId>, patients: set<PatientId>, slots: map<SlotId, Slot>)
      requires forall s :: s in slots ==> slots[s].status == Available
      ensures State() == Db(doctors, patients, slots, map[], 0)
      ensures Valid()
    {
      this.doctors := doctors;
      this.patients := patients;
      this.slots := slots;
      this.appointments := map[];
      this.nextAppointmentId := 0;
    }

    /**
     * The reads of a slot booking's transaction: the checks that may reject it before
     * anything is written.
     */
    method CheckSlotBooking(patient: Option<PatientId>, slotId: Option<SlotId>) returns (e: Option<Error>)
      ensures e == SlotPrecheck(State(), patient, slotId)
      ensures e.None? <==> BookSlot(State(), patient, slotId).result.Ok?
    {
      ScheduleProofs.BookSlotRejects(State(), if patient.Some? then patient.value else 0,
                                     if slotId.Some? then slotId.value else 0);
      if patient.None? {
        return Some(Error(403, OnlyPatients));
      }
      if slotId.None? {
        return Some(Error(400, SlotIdRequired));
      }
      var s := slotId.value;
      if s !in slots {
        return Some(Error(404, SlotNotFound));
      }
      if slots[s].status != Available {
        return Some(Error(409, SlotAlreadyBooked));
      }
      if exists a :: a in appointments && Blocks(State(), patient.value, slots[s], a) {
        return Some(Error(409, OverlappingAppointment));
      }
      return None;
    }

    /** The status-guarded update: books slot `id` only if it is AVAILABLE, and reports the rows written. */
    method UpdateSlotIfAvailable(id: SlotId) returns (count: nat)
      modifies this
      ensures (slots, count) == ConditionalBook(old(slots), id)
      ensures count <= 1
      ensures doctors == old(doctors) && patients == old(patients)
      ensures appointments == old(appointments) && nextAppointmentId == old(nextAppointmentId)
    {
      if id in slots && slots[id].status == Available {
        slots := slots[id := slots[id].(status := Booked)];
        count := 1;
      } else {
        count := 0;
      }
    }

    /**
     * The writes of a slot booking's transaction: the conditional update, then the
     * new appointment. When the update writes no row the transaction is rolled back,
     * which here means nothing was written.
     */
    method CommitSlotBooking(patient: PatientId, slotId: SlotId) returns (r: Result<AppointmentId, Error>)
      requires slotId in slots
      modifies this
      ensures State() == Schedule.CommitSlotBooking(old(State()), patient, slotId).db
      ensures r == Schedule.CommitSlotBooking(old(State()), patient, slotId).result
    {
      var slot := slots[slotId];
      var count := UpdateSlotIfAvailable(slotId);
      if count == 0 {
        return Err(Error(400, ConditionalWriteMissed));
      }
      var id := nextAppointmentId;
      appointments := appointments[id := SlotAppointment(patient, slotId, slot)];
      nextAppointmentId := id + 1;
      return Ok(id);
    }

    /** `bookAppointment`: checks, then writes, with no other request in between. */
    method BookAppointment(patient: Option<PatientId>, slotId: Option<SlotId>) returns (r: Result<AppointmentId, Error>)
      modifies this
      ensures State() == BookSlot(old(State()), patient, slotId).db
      ensures r == BookSlot(old(State()), patient, slotId).result
      ensures old(Valid()) ==> Valid()
    {
      ghost var before := State();
      if old(Valid()) {
        ScheduleProofs.BookSlotKeepsInv(before, patient, slotId);
      }
      var e := CheckSlotBooking(patient, slotId);
      if e.Some? {
        return Err(e.value);
      }
      r := CommitSlotBooking(patient.value, slotId.value);
    }

    /**
     * Two `bookAppointment` requests for one slot whose reads both come before either
     * request's writes: both may see the slot AVAILABLE, and the conditional write then
     * lets exactly the first through.
     */
    method RaceForSlot(p1: PatientId, p2: PatientId, s: SlotId)
      returns (r1: Result<AppointmentId, Error>, r2: Result<AppointmentId, Error>)
      modifies this
      ensures !(r1.Ok? && r2.Ok?)
      ensures SlotPrecheck(old(State()), Some(p1), Some(s)).None? && SlotPrecheck(old(State()), Some(p2), Some(s)).None?
              ==> r1.Ok? && r2 == Err(Error(400, ConditionalWriteMissed))
      ensures old(Valid()) ==> Valid()
    {
      ghost var before := State();
      var e1 := CheckSlotBooking(Some(p1), Some(s));
      var e2 := CheckSlotBooking(Some(p2), Some(s));
      if old(Valid()) {
        ScheduleProofs.BookSlotKeepsInv(before, Some(p1), Some(s));
        ScheduleProofs.BookSlotKeepsInv(before, Some(p2), Some(s));
      }
      if e1.Some? {
        r1 := Err(e1.value);
      } else {
        if e2.None? {
          ScheduleProofs.RacingBookersOneWins(before, p1, p2, s);
        }
        r1 := CommitSlotBooking(p1, s);
      }
      if e2.Some? {
        r2 := Err(e2.value);
      } else {
        r2 := CommitSlotBooking(p2, s);
      }
    }

    /** `cancelAppointment`: the status update, then, for a slot appointment, the slot's release. */
    method CancelAppointment(patient: Option<PatientId>, id: AppointmentId) returns (r: Result<(), Error>)
      modifies this
      ensures State() == Cancel(old(State()), patient, id).db
      ensures r == Cancel(old(State()), patient, id).result
      ensures old(Valid()) ==> Valid()
    {
      if old(Valid()) {
        ScheduleProofs.CancelKeepsInv(State(), patient, id);
      }
      if patient.None? {
        return Err(Error(400, OnlyPatients));
      }
      if id !in appointments || appointments[id].patientId != patient.value {
        return Err(Error(400, NotFoundOrUnauthorized));
      }
      if appointments[id].status == Cancelled {
        return Err(Error(400, AlreadyCancelled));
      }
      var link := appointments[id].slotId;
      appointments := appointments[id := appointments[id].(status := Cancelled)];
      if link.Some? {
        if link.value !in slots {
          return Err(Error(400, CancelFailed));
        }
        slots := slots[link.value := slots[link.value].(status := Available)];
      }
      return Ok(());
    }

    /** `bookDirectAppointment`: the input checks, the lookups, then one insert. */
    method BookDirectAppointment(patient: Option<PatientId>, doctorId: Option<DoctorId>, date: DateArg,
                                 time: string, kind: string, notes: string)
      returns (r: Result<AppointmentId, Error>)
      modifies this
      ensures State() == BookDirect(old(State()), patient, doctorId, date, time, kind, notes).db
      ensures r == BookDirect(old(State()), patient, doctorId, date, time, kind, notes).result
      ensures old(Valid()) ==> Valid()
    {
      if old(Valid()) {
        ScheduleProofs.BookDirectKeepsInv(State(), patient, doctorId, date, time, kind, notes);
      }
      var v := ValidateDirect(patient, doctorId, date, time, kind);
      if v.Err? {
        return Err(v.error);
      }
      var req := v.value;
      if req.doctorId !in doctors {
        return Err(Error(404, DoctorNotFound));
      }
      if req.patientId !in patients {
        return Err(Error(404, PatientNotFound));
      }
      if exists a :: a in appointments && PendingWith(State(), req.patientId, req.doctorId, a) {
        return Err(Error(409, PendingRequestExists));
      }
      if exists a :: a in appointments && TakesTime(State(), req.doctorId, req.date, req.time, a) {
        return Err(Error(409, DoctorTimeTaken));
      }
      var newId := nextAppointmentId;
      appointments := appointments[newId := DirectAppointment(req, notes)];
      nextAppointmentId := newId + 1;
      return Ok(newId);
    }
  }
}
