/**
 * What the booking handlers guarantee, proved about the transition functions of
 * `Schedule`: the outcome of each check, what a successful request changes, that
 * every handler keeps the store's invariant, and how the conditional write decides
 * a race between bookers of one slot.
 */
module ScheduleProofs {
  import opened Wrappers
  import opened Schedule
  import Ordering
  import Clock

  // ---------------------------------------------------------------------------
  // The conditional write

  /**
   * The status-guarded write books an AVAILABLE slot and reports one row; run again on
   * the same slot it writes nothing, so it never awards a slot twice.
   */
  lemma ConditionalBookAtMostOnce(slots: map<SlotId, Slot>, id: SlotId)
    ensures var (first, count) := ConditionalBook(slots, id);
      && (count == 1 <==> id in slots && slots[id].status == Available)
      && (count == 0 ==> first == slots)
      && (count == 1 ==> first == slots[id := slots[id].(status := Booked)])
      && ConditionalBook(first, id) == (first, 0)
  {
  }

  // ---------------------------------------------------------------------------
  // Slot booking: outcomes

  /** A rejected slot booking changes nothing. */
  lemma BookSlotFailureChangesNothing(db: Db, patient: Option<PatientId>, slotId: Option<SlotId>)
    ensures BookSlot(db, patient, slotId).result.Err? ==> BookSlot(db, patient, slotId).db == db
  {
  }

  /** The error a slot booking responds with, check by check. */
  lemma BookSlotRejects(db: Db, p: PatientId, s: SlotId)
    ensures s !in db.slots ==> BookSlot(db, Some(p), Some(s)).result == Err(Error(404, SlotNotFound))
    ensures s in db.slots && db.slots[s].status != Available ==>
      BookSlot(db, Some(p), Some(s)).result == Err(Error(409, SlotAlreadyBooked))
    ensures s in db.slots && db.slots[s].status == Available
            && (exists a :: a in db.appointments && Blocks(db, p, db.slots[s], a)) ==>
      BookSlot(db, Some(p), Some(s)).result == Err(Error(409, OverlappingAppointment))
    ensures BookSlot(db, None, Some(s)).result == Err(Error(403, OnlyPatients))
    ensures BookSlot(db, Some(p), None).result == Err(Error(400, SlotIdRequired))
  {
  }

  /** When a slot booking succeeds: an existing AVAILABLE slot no active appointment of the patient overlaps. */
  lemma BookSlotSucceedsIff(db: Db, p: PatientId, s: SlotId)
    ensures BookSlot(db, Some(p), Some(s)).result.Ok? <==>
      && s in db.slots && db.slots[s].status == Available
      && forall a :: (a in db.appointments && Timed(db, a) && db.appointments[a].patientId == p
                      && IsActive(db.appointments[a].status)) ==> !Overlaps(SlotOf(db, a), db.slots[s])
  {
  }

  /**
   * A successful slot booking adds exactly one appointment, PENDING, for the slot's
   * doctor, linked to the slot, dated at its start and timed at its start's clock time;
   * it has no type and no notes; the slot becomes BOOKED, the id counter moves on,
   * and every other row is as it was.
   */
  lemma BookSlotEffect(db: Db, p: PatientId, s: SlotId)
    requires IdsFresh(db)
    requires BookSlot(db, Some(p), Some(s)).result.Ok?
    ensures var o := BookSlot(db, Some(p), Some(s));
      var id := o.result.value;
      var slot := db.slots[s];
      && id !in db.appointments
      && o.db.appointments.Keys == db.appointments.Keys + {id}
      && (forall a :: a in db.appointments ==> o.db.appointments[a] == db.appointments[a])
      && o.db.appointments[id].patientId == p
      && o.db.appointments[id].status == Pending
      && o.db.appointments[id].doctorId == slot.doctorId
      && o.db.appointments[id].slotId == Some(s)
      && o.db.appointments[id].date == slot.start
      && o.db.appointments[id].time == Clock.TimeOfDay(slot.start)
      && o.db.appointments[id].kind.None? && o.db.appointments[id].notes.None?
      && o.db.slots.Keys == db.slots.Keys
      && o.db.slots[s] == slot.(status := Booked)
      && (forall t :: t in db.slots && t != s ==> o.db.slots[t] == db.slots[t])
      && o.db.doctors == db.doctors && o.db.patients == db.patients
      && o.db == db.(slots := db.slots[s := slot.(status := Booked)],
                     appointments := db.appointments[id := SlotAppointment(p, s, slot)],
                     nextId := id + 1)
  {
  }

  // ---------------------------------------------------------------------------
  // Slot booking keeps the invariant

  /** Which rows hold which slots after a committed booking. */
  lemma CommitHolders(db: Db, p: PatientId, s: SlotId, a: AppointmentId, t: SlotId)
    requires IdsFresh(db)
    requires s in db.slots && db.slots[s].status == Available
    ensures var db' := CommitSlotBooking(db, p, s).db;
      Holds(db', a, t) <==> (a == db.nextId && t == s) || Holds(db, a, t)
  {
  }

  lemma CommitKeepsHolding(db: Db, p: PatientId, s: SlotId)
    requires Inv(db)
    requires s in db.slots && db.slots[s].status == Available
    ensures var db' := CommitSlotBooking(db, p, s).db;
      BookedIffHeld(db') && SingleHolder(db')
  {
    var db' := CommitSlotBooking(db, p, s).db;
    var id := db.nextId;
    assert Holds(db', id, s);
    forall a, t ensures Holds(db', a, t) <==> (a == id && t == s) || Holds(db, a, t) {
      CommitHolders(db, p, s, a, t);
    }
    assert forall a :: !Holds(db, a, s);
    forall t | t in db'.slots ensures db'.slots[t].status == Booked <==> exists a :: Holds(db', a, t) {
      if t != s {
        assert db'.slots[t] == db.slots[t];
        if exists a :: Holds(db', a, t) {
          var a :| Holds(db', a, t);
          assert Holds(db, a, t);
        }
      }
    }
  }

  lemma CommitKeepsApart(db: Db, p: PatientId, s: SlotId)
    requires Inv(db)
    requires SlotPrecheck(db, Some(p), Some(s)).None?
    ensures NoOverlap(CommitSlotBooking(db, p, s).db)
  {
    var db' := CommitSlotBooking(db, p, s).db;
    var id := db.nextId;
    var slot := db.slots[s];
    assert forall a :: !Holds(db, a, s);
    assert forall a :: a in db.appointments ==> a != id && db'.appointments[a] == db.appointments[a];
    forall a | a in db.appointments && Timed(db, a) && IsActive(db.appointments[a].status)
      ensures db.appointments[a].slotId != Some(s)
    {
      assert !Holds(db, a, s);
    }
    forall a | Timed(db', a) && a != id && IsActive(db'.appointments[a].status)
      ensures Timed(db, a) && SlotOf(db', a) == SlotOf(db, a)
    {
    }
    assert Timed(db', id) && SlotOf(db', id).start == slot.start && SlotOf(db', id).end == slot.end;
  }

  lemma CommitKeepsDirect(db: Db, p: PatientId, s: SlotId)
    requires Inv(db)
    requires s in db.slots && db.slots[s].status == Available
    ensures var db' := CommitSlotBooking(db, p, s).db;
      DirectTimesUnique(db') && OnePendingDirect(db') && SlotsExist(db') && IdsFresh(db')
  {
    var db' := CommitSlotBooking(db, p, s).db;
    assert forall a :: OpenDirect(db', a) ==> OpenDirect(db, a) && db'.appointments[a] == db.appointments[a];
  }

  /** Slot booking keeps every part of the invariant. */
  lemma BookSlotKeepsInv(db: Db, patient: Option<PatientId>, slotId: Option<SlotId>)
    requires Inv(db)
    ensures Inv(BookSlot(db, patient, slotId).db)
  {
    if SlotPrecheck(db, patient, slotId).None? {
      var p, s := patient.value, slotId.value;
      CommitKeepsHolding(db, p, s);
      CommitKeepsApart(db, p, s);
      CommitKeepsDirect(db, p, s);
    }
  }

  /** Once a slot is booked, every further booking of it is rejected with 409 and changes nothing. */
  lemma BookedSlotStaysTaken(db: Db, p: PatientId, q: PatientId, s: SlotId)
    requires BookSlot(db, Some(p), Some(s)).result.Ok?
    ensures var db' := BookSlot(db, Some(p), Some(s)).db;
      BookSlot(db', Some(q), Some(s)) == Outcome(db', Err(Error(409, SlotAlreadyBooked)))
  {
  }

  /**
   * Time-exclusivity for a patient: a booking whose slot overlaps one of the patient's
   * active slot appointments is refused.
   */
  lemma OverlappingBookingRefused(db: Db, p: PatientId, a: AppointmentId, s: SlotId)
    requires Timed(db, a) && db.appointments[a].patientId == p && IsActive(db.appointments[a].status)
    requires s in db.slots && Overlaps(SlotOf(db, a), db.slots[s])
    ensures BookSlot(db, Some(p), Some(s)).result.Err?
    ensures BookSlot(db, Some(p), Some(s)).result.error.status == 409
  {
    assert Blocks(db, p, db.slots[s], a);
  }

  // ---------------------------------------------------------------------------
  // Bookers racing for one slot

  /**
   * Two bookers both pass the checks against the same snapshot; their conditional
   * writes then run one after the other. The first books the slot; the second writes
   * no row, is rejected with 400, and its transaction leaves the store as the first left it.
   */
  lemma RacingBookersOneWins(db: Db, p1: PatientId, p2: PatientId, s: SlotId)
    requires SlotPrecheck(db, Some(p1), Some(s)).None?
    requires SlotPrecheck(db, Some(p2), Some(s)).None?
    ensures var first := CommitSlotBooking(db, p1, s);
      && first.result.Ok?
      && s in first.db.slots
      && CommitSlotBooking(first.db, p2, s) == Outcome(first.db, Err(Error(400, ConditionalWriteMissed)))
  {
  }

  /** The conditional writes of bookers of slot `s`, committed in the order given. */
  function CommitInTurn(db: Db, bookers: seq<PatientId>, s: SlotId): (r: (Db, seq<Result<AppointmentId, Error>>))
    requires s in db.slots
    ensures s in r.0.slots && |r.1| == |bookers|
    decreases |bookers|
  {
    if bookers == [] then (db, [])
    else
      var o := CommitSlotBooking(db, bookers[0], s);
      var (last, results) := CommitInTurn(o.db, bookers[1..], s);
      (last, [o.result] + results)
  }

  lemma {:induction false} CommitInTurnOnBooked(db: Db, bookers: seq<PatientId>, s: SlotId)
    requires s in db.slots && db.slots[s].status == Booked
    ensures CommitInTurn(db, bookers, s).0 == db
    ensures forall i :: 0 <= i < |bookers| ==> CommitInTurn(db, bookers, s).1[i] == Err(Error(400, ConditionalWriteMissed))
    decreases |bookers|
  {
    if bookers != [] {
      CommitInTurnOnBooked(db, bookers[1..], s);
    }
  }

  /**
   * Any number of bookers that found the slot AVAILABLE commit in turn: exactly the
   * first succeeds, every other one is rejected with 400, and the slot ends BOOKED
   * with one new appointment.
   */
  lemma ManyBookersOneWins(db: Db, bookers: seq<PatientId>, s: SlotId)
    requires s in db.slots && db.slots[s].status == Available
    requires |bookers| > 0
    ensures var (last, results) := CommitInTurn(db, bookers, s);
      && results[0].Ok?
      && (forall i :: 1 <= i < |results| ==> results[i] == Err(Error(400, ConditionalWriteMissed)))
      && last.slots[s].status == Booked
      && last == CommitSlotBooking(db, bookers[0], s).db
  {
    var o := CommitSlotBooking(db, bookers[0], s);
    CommitInTurnOnBooked(o.db, bookers[1..], s);
  }

  /**
   * The conditional write guards the slot, not the patient: two bookings by one patient
   * of overlapping slots that both read the store before either writes both commit,
   * leaving that patient with overlapping active appointments.
   */
  lemma RaceCanOverlapOnePatient()
    ensures exists db: Db, p: PatientId, s1: SlotId, s2: SlotId ::
      && Inv(db)
      && SlotPrecheck(db, Some(p), Some(s1)).None?
      && SlotPrecheck(db, Some(p), Some(s2)).None?
      && s2 in CommitSlotBooking(db, p, s1).db.slots
      && var mid := CommitSlotBooking(db, p, s1);
         var last := CommitSlotBooking(mid.db, p, s2);
         mid.result.Ok? && last.result.Ok? && !NoOverlap(last.db)
  {
    var db := Db({7}, {1}, map[0 := Slot(7, 0, 10, Available), 1 := Slot(7, 5, 15, Available)], map[], 0);
    assert SlotPrecheck(db, Some(1), Some(0)).None?;
    assert SlotPrecheck(db, Some(1), Some(1)).None?;
    var mid := CommitSlotBooking(db, 1, 0);
    var last := CommitSlotBooking(mid.db, 1, 1);
    assert last.db.appointments[0].slotId == Some(0) && last.db.appointments[1].slotId == Some(1);
    assert Timed(last.db, 0) && Timed(last.db, 1);
    assert !NoOverlap(last.db);
  }

  // ---------------------------------------------------------------------------
  // Cancellation

  /** A rejected cancellation changes nothing. */
  lemma CancelRejects(db: Db, patient: Option<PatientId>, id: AppointmentId)
    ensures patient.None? ==> Cancel(db, patient, id) == Outcome(db, Err(Error(400, OnlyPatients)))
    ensures patient.Some? && (id !in db.appointments || db.appointments[id].patientId != patient.value) ==>
      Cancel(db, patient, id) == Outcome(db, Err(Error(400, NotFoundOrUnauthorized)))
    ensures patient.Some? && id in db.appointments && db.appointments[id].patientId == patient.value
            && db.appointments[id].status == Cancelled ==>
      Cancel(db, patient, id) == Outcome(db, Err(Error(400, AlreadyCancelled)))
  {
  }

  /**
   * A successful cancellation by the owner marks the appointment CANCELLED (from any
   * other status, COMPLETED included) and returns its slot, if any, to AVAILABLE:
   * the status write, then the slot release. Nothing else changes.
   */
  lemma CancelEffect(db: Db, p: PatientId, id: AppointmentId)
    requires SlotsExist(db)
    requires id in db.appointments && db.appointments[id].patientId == p
    requires db.appointments[id].status != Cancelled
    ensures var o := Cancel(db, Some(p), id);
      && o.result == Ok(())
      && o.db.appointments == db.appointments[id := db.appointments[id].(status := Cancelled)]
      && (db.appointments[id].slotId.None? ==> o.db.slots == db.slots)
      && (db.appointments[id].slotId.Some? ==>
            var s := db.appointments[id].slotId.value;
            o.db.slots == db.slots[s := db.slots[s].(status := Available)])
      && o.db.doctors == db.doctors && o.db.patients == db.patients && o.db.nextId == db.nextId
      && o.db == if db.appointments[id].slotId.Some? then ReleaseSlot(MarkCancelled(db, id), db.appointments[id].slotId.value)
                 else MarkCancelled(db, id)
  {
  }

  /** Which rows hold which slots after a cancellation: all the former holders but the cancelled one. */
  lemma CancelHolders(db: Db, id: AppointmentId, s: SlotId, a: AppointmentId, t: SlotId)
    requires id in db.appointments && s in db.slots
    ensures Holds(ReleaseSlot(MarkCancelled(db, id), s), a, t) <==> Holds(db, a, t) && a != id
  {
  }

  lemma CancelKeepsHolding(db: Db, id: AppointmentId, s: SlotId)
    requires Inv(db)
    requires id in db.appointments && db.appointments[id].status != Cancelled
    requires db.appointments[id].slotId == Some(s)
    ensures var db' := ReleaseSlot(MarkCancelled(db, id), s);
      BookedIffHeld(db') && SingleHolder(db')
  {
    var db' := ReleaseSlot(MarkCancelled(db, id), s);
    assert Holds(db, id, s);
    forall a, t ensures Holds(db', a, t) <==> Holds(db, a, t) && a != id {
      CancelHolders(db, id, s, a, t);
    }
    assert forall a :: !Holds(db', a, s);
    forall t | t in db'.slots && t != s
      ensures db'.slots[t].status == Booked <==> exists a :: Holds(db', a, t)
    {
      if db'.slots[t].status == Booked {
        var a :| Holds(db, a, t);
        assert Holds(db', a, t);
      }
    }
  }

  lemma CancelKeepsApart(db: Db, id: AppointmentId, s: SlotId)
    requires Inv(db)
    requires id in db.appointments && db.appointments[id].slotId == Some(s)
    ensures var db' := ReleaseSlot(MarkCancelled(db, id), s);
      NoOverlap(db') && SlotsExist(db') && IdsFresh(db')
  {
    var db' := ReleaseSlot(MarkCancelled(db, id), s);
    assert forall a :: Timed(db', a) ==>
      Timed(db, a) && SlotOf(db', a).start == SlotOf(db, a).start && SlotOf(db', a).end == SlotOf(db, a).end;
  }

  lemma CancelKeepsDirect(db: Db, id: AppointmentId, s: SlotId)
    requires Inv(db)
    requires id in db.appointments && db.appointments[id].slotId == Some(s)
    ensures var db' := ReleaseSlot(MarkCancelled(db, id), s);
      DirectTimesUnique(db') && OnePendingDirect(db')
  {
    var db' := ReleaseSlot(MarkCancelled(db, id), s);
    assert forall a :: OpenDirect(db', a) ==> OpenDirect(db, a) && db'.appointments[a] == db.appointments[a];
  }

  lemma CancelKeepsInvLinked(db: Db, id: AppointmentId, s: SlotId)
    requires Inv(db)
    requires id in db.appointments && db.appointments[id].status != Cancelled
    requires db.appointments[id].slotId == Some(s)
    ensures Inv(ReleaseSlot(MarkCancelled(db, id), s))
  {
    CancelKeepsHolding(db, id, s);
    CancelKeepsApart(db, id, s);
    CancelKeepsDirect(db, id, s);
  }

  lemma CancelKeepsInvUnlinked(db: Db, id: AppointmentId)
    requires Inv(db)
    requires id in db.appointments && db.appointments[id].slotId.None?
    ensures Inv(MarkCancelled(db, id))
  {
    var db' := MarkCancelled(db, id);
    assert forall a, t :: Holds(db', a, t) <==> Holds(db, a, t);
    assert forall a :: Timed(db', a) ==> Timed(db, a) && SlotOf(db', a) == SlotOf(db, a);
  }

  /** Cancellation keeps every part of the invariant, returning a released slot exactly once. */
  lemma CancelKeepsInv(db: Db, patient: Option<PatientId>, id: AppointmentId)
    requires Inv(db)
    ensures Inv(Cancel(db, patient, id).db)
  {
    if patient.Some? && id in db.appointments && db.appointments[id].patientId == patient.value
       && db.appointments[id].status != Cancelled {
      match db.appointments[id].slotId
      case None => CancelKeepsInvUnlinked(db, id);
      case Some(s) => CancelKeepsInvLinked(db, id, s);
    }
  }

  /** Cancelling twice: the second attempt is rejected as already cancelled and changes nothing. */
  lemma CancelTwiceRejected(db: Db, p: PatientId, id: AppointmentId)
    requires Cancel(db, Some(p), id).result.Ok?
    ensures var db' := Cancel(db, Some(p), id).db;
      Cancel(db', Some(p), id) == Outcome(db', Err(Error(400, AlreadyCancelled)))
  {
  }

  /**
   * Release on cancel: after the owner cancels a slot appointment, the slot is AVAILABLE
   * again and a booking of it fails only if it overlaps the booker's own appointments.
   */
  lemma CancelThenRebook(db: Db, p: PatientId, id: AppointmentId, q: PatientId)
    requires Inv(db)
    requires id in db.appointments && db.appointments[id].patientId == p
    requires db.appointments[id].status != Cancelled && db.appointments[id].slotId.Some?
    ensures var s := db.appointments[id].slotId.value;
      var db' := Cancel(db, Some(p), id).db;
      && s in db'.slots && db'.slots[s].status == Available
      && db'.appointments[id].status == Cancelled
      && (BookSlot(db', Some(q), Some(s)).result.Ok?
          || BookSlot(db', Some(q), Some(s)).result == Err(Error(409, OverlappingAppointment)))
  {
  }

  /**
   * The two writes of a cancellation are not atomic: between them the slot is still
   * BOOKED while nothing holds it, so a failure there leaves the slot unbookable.
   */
  lemma CancelHalfDoneBreaksInv(db: Db, id: AppointmentId)
    requires Inv(db)
    requires id in db.appointments && db.appointments[id].status != Cancelled
    requires db.appointments[id].slotId.Some?
    ensures !BookedIffHeld(MarkCancelled(db, id))
  {
    var s := db.appointments[id].slotId.value;
    var db' := MarkCancelled(db, id);
    assert Holds(db, id, s);
    forall a ensures !Holds(db', a, s) {
      if Holds(db', a, s) {
        assert Holds(db, a, s);
      }
    }
    assert s in db'.slots && db'.slots[s].status == Booked;
  }

  // ---------------------------------------------------------------------------
  // Direct booking

  /**
   * The input checks of a direct booking come before any store access: when they fail,
   * the response is the same whatever the store holds, and nothing changes.
   */
  lemma DirectValidationFirst(db1: Db, db2: Db, patient: Option<PatientId>, doctorId: Option<DoctorId>,
                              date: DateArg, time: string, kind: string, notes: string)
    requires ValidateDirect(patient, doctorId, date, time, kind).Err?
    ensures BookDirect(db1, patient, doctorId, date, time, kind, notes).result
         == BookDirect(db2, patient, doctorId, date, time, kind, notes).result
    ensures BookDirect(db1, patient, doctorId, date, time, kind, notes).db == db1
  {
  }

  /** The time check rejects "25:00" and accepts "9:05", before the store is read. */
  lemma DirectTimeExamples(db: Db, p: PatientId, d: DoctorId, day: int)
    ensures BookDirect(db, Some(p), Some(d), At(day), "25:00", "", "") == Outcome(db, Err(Error(400, InvalidTime)))
    ensures ValidateDirect(Some(p), Some(d), At(day), "9:05", "").Ok?
  {
    Clock.TimePatternExamples();
  }

  /** Which requests pass the input checks, and what they ask for; the type defaults to OFFLINE. */
  lemma ValidateDirectMeans(patient: Option<PatientId>, doctorId: Option<DoctorId>, date: DateArg, time: string, kind: string)
    ensures var v := ValidateDirect(patient, doctorId, date, time, kind);
      && (v.Ok? <==> patient.Some? && doctorId.Some? && date.At? && kind in {"", "ONLINE", "OFFLINE"}
                     && (exists h: nat, m: nat :: Clock.SpellsClockTime(time, h, m)))
      && (v.Ok? ==> v.value == DirectRequest(patient.value, doctorId.value, date.ms, time,
                                            if kind == "ONLINE" then Online else Offline))
  {
    Clock.TimePatternMeans(time);
  }

  /**
   * A direct booking that passes the input checks succeeds exactly when doctor and
   * patient exist, the patient has no PENDING appointment with the doctor, and the
   * doctor has no PENDING or CONFIRMED appointment at that date and time; it then adds
   * one PENDING appointment with no slot and changes nothing else.
   */
  lemma BookDirectEffect(db: Db, patient: Option<PatientId>, doctorId: Option<DoctorId>, date: DateArg,
                         time: string, kind: string, notes: string)
    requires IdsFresh(db)
    requires ValidateDirect(patient, doctorId, date, time, kind).Ok?
    ensures var req := ValidateDirect(patient, doctorId, date, time, kind).value;
      var o := BookDirect(db, patient, doctorId, date, time, kind, notes);
      && (o.result.Ok? <==>
            req.doctorId in db.doctors && req.patientId in db.patients
            && (forall a :: a in db.appointments ==> !PendingWith(db, req.patientId, req.doctorId, a))
            && (forall a :: a in db.appointments ==> !TakesTime(db, req.doctorId, req.date, req.time, a)))
      && (o.result.Err? ==> o.db == db)
      && (o.result.Ok? ==>
            && o.result.value !in db.appointments
            && o.db.appointments == db.appointments[o.result.value := DirectAppointment(req, notes)]
            && o.db.appointments[o.result.value].status == Pending
            && o.db.appointments[o.result.value].slotId.None?
            && o.db.slots == db.slots
            && o.db == db.(appointments := db.appointments[o.result.value := DirectAppointment(req, notes)],
                           nextId := o.result.value + 1))
  {
  }

  /** An appointment with no slot, under a fresh id, keeps the slot parts of the invariant. */
  lemma SlotlessInsertKeepsSlots(db: Db, ap: Appointment)
    requires Inv(db) && ap.slotId.None?
    ensures var db' := db.(appointments := db.appointments[db.nextId := ap], nextId := db.nextId + 1);
      SlotsExist(db') && IdsFresh(db') && BookedIffHeld(db') && SingleHolder(db') && NoOverlap(db')
  {
    var db' := db.(appointments := db.appointments[db.nextId := ap], nextId := db.nextId + 1);
    assert forall a, t :: Holds(db', a, t) <==> Holds(db, a, t);
    assert forall a :: Timed(db', a) ==> a != db.nextId && Timed(db, a) && SlotOf(db', a) == SlotOf(db, a);
  }

  /** A direct request that passed both store checks keeps the direct parts of the invariant. */
  lemma DirectInsertKeepsDirect(db: Db, req: DirectRequest, notes: string)
    requires Inv(db)
    requires forall a :: a in db.appointments ==> !TakesTime(db, req.doctorId, req.date, req.time, a)
    requires forall a :: a in db.appointments ==> !PendingWith(db, req.patientId, req.doctorId, a)
    ensures var db' := db.(appointments := db.appointments[db.nextId := DirectAppointment(req, notes)], nextId := db.nextId + 1);
      DirectTimesUnique(db') && OnePendingDirect(db')
  {
  }

  /** Direct booking keeps every part of the invariant. */
  lemma BookDirectKeepsInv(db: Db, patient: Option<PatientId>, doctorId: Option<DoctorId>, date: DateArg,
                           time: string, kind: string, notes: string)
    requires Inv(db)
    ensures Inv(BookDirect(db, patient, doctorId, date, time, kind, notes).db)
  {
    var o := BookDirect(db, patient, doctorId, date, time, kind, notes);
    if o.result.Ok? {
      var req := ValidateDirect(patient, doctorId, date, time, kind).value;
      assert o.db == db.(appointments := db.appointments[db.nextId := DirectAppointment(req, notes)], nextId := db.nextId + 1);
      SlotlessInsertKeepsSlots(db, DirectAppointment(req, notes));
      DirectInsertKeepsDirect(db, req, notes);
    }
  }

  /**
   * The one-pending-request-per-doctor rule binds direct booking only: a patient with a
   * PENDING direct request to a doctor can still book that doctor's slot, but not make
   * a second direct request.
   */
  lemma PendingRuleOnlyDirect()
    ensures var db := Db({7}, {1}, map[0 := Slot(7, 0, 10, Available)],
                         map[0 := Appointment(1, 7, None, 100, "10:00", Some(Offline), Pending, None)], 1);
      && Inv(db)
      && BookSlot(db, Some(1), Some(0)).result.Ok?
      && BookDirect(db, Some(1), Some(7), At(200), "11:00", "", "").result == Err(Error(409, PendingRequestExists))
  {
    var db := Db({7}, {1}, map[0 := Slot(7, 0, 10, Available)],
                 map[0 := Appointment(1, 7, None, 100, "10:00", Some(Offline), Pending, None)], 1);
    assert !Timed(db, 0);
    assert PendingWith(db, 1, 7, 0);
    assert Clock.MatchesTimePattern("11:00");
  }

  /**
   * The doctor's slot check compares time strings: "09:05" and "9:05" name the same
   * clock time, yet two patients can both hold a pending direct booking with one
   * doctor on one date at those two spellings.
   */
  lemma TimeSpellingsBothBooked()
    ensures var db := Db({7}, {1, 2}, map[], map[], 0);
      var first := BookDirect(db, Some(1), Some(7), At(0), "09:05", "", "");
      var second := BookDirect(first.db, Some(2), Some(7), At(0), "9:05", "", "");
      && first.result.Ok? && second.result.Ok?
      && Clock.SpellsClockTime("09:05", 9, 5) && Clock.SpellsClockTime("9:05", 9, 5)
  {
    var db := Db({7}, {1, 2}, map[], map[], 0);
    assert Clock.MatchesTimePattern("09:05") && Clock.MatchesTimePattern("9:05");
    var first := BookDirect(db, Some(1), Some(7), At(0), "09:05", "", "");
    assert first.db.appointments.Keys == {0};
    assert !PendingWith(first.db, 2, 7, 0);
    assert !TakesTime(first.db, 7, 0, "9:05", 0);
  }

  /**
   * The direct-booking checks and the insert are separate statements with no
   * transaction: two requests for one doctor, date and time that both read the store
   * before either inserts both pass, and the second insert gives the doctor two open
   * appointments at that time. Served one after the other, the second is refused.
   */
  lemma DirectRaceDoubleBooks()
    ensures var db := Db({7}, {1, 2}, map[], map[], 0);
      var first := BookDirect(db, Some(1), Some(7), At(0), "10:00", "", "");
      var second := BookDirect(db, Some(2), Some(7), At(0), "10:00", "", "");
      && Inv(db) && first.result.Ok? && second.result.Ok?
      && BookDirect(first.db, Some(2), Some(7), At(0), "10:00", "", "").result == Err(Error(409, DoctorTimeTaken))
      && 0 in second.db.appointments
      && var both := first.db.(appointments := first.db.appointments[first.db.nextId := second.db.appointments[0]],
                               nextId := first.db.nextId + 1);
         !DirectTimesUnique(both)
  {
    var db := Db({7}, {1, 2}, map[], map[], 0);
    assert Clock.MatchesTimePattern("10:00");
    var first := BookDirect(db, Some(1), Some(7), At(0), "10:00", "", "");
    var second := BookDirect(db, Some(2), Some(7), At(0), "10:00", "", "");
    var both := first.db.(appointments := first.db.appointments[first.db.nextId := second.db.appointments[0]],
                          nextId := first.db.nextId + 1);
    assert OpenDirect(both, 0) && OpenDirect(both, 1);
    assert !PendingWith(first.db, 2, 7, 0);
    assert TakesTime(first.db, 7, 0, "10:00", 0);
  }

  // ---------------------------------------------------------------------------
  // The slot invariant as a count

  /** The appointments that hold slot `s`. */
  ghost function Holders(db: Db, s: SlotId): set<AppointmentId>
  {
    set a | a in db.appointments && Holds(db, a, s)
  }

  /** A slot is BOOKED exactly when exactly one non-cancelled appointment references it, and never more. */
  lemma BookedIffExactlyOne(db: Db, s: SlotId)
    requires Inv(db) && s in db.slots
    ensures |Holders(db, s)| <= 1
    ensures db.slots[s].status == Booked <==> |Holders(db, s)| == 1
  {
    var h := Holders(db, s);
    if h != {} {
      var a :| a in h;
      assert h == {a};
    }
    if db.slots[s].status == Booked {
      var a :| Holds(db, a, s);
      assert a in h;
    } else {
      assert h == {};
    }
  }

  // ---------------------------------------------------------------------------
  // Queries

  /**
   * The slot listing holds exactly the doctor's AVAILABLE slots (starting within the
   * chosen day's window when a day is given), each once, in ascending start order.
   */
  lemma AvailableTimeSlotsMeans(db: Db, doctor: DoctorId, date: DateArg)
    requires doctor in db.doctors && !date.Unparseable?
    ensures var r := AvailableTimeSlots(db, Some(doctor), date);
      && r.Ok?
      && (forall s :: s in r.value <==>
            s in db.slots && db.slots[s].doctorId == doctor && db.slots[s].status == Available
            && (date.At? ==> Clock.StartOfDay(db.slots[s].start) == Clock.StartOfDay(date.ms)
                             && db.slots[s].start != Clock.EndOfDay(date.ms)))
      && (forall i :: 0 <= i < |r.value| ==> r.value[i] in db.slots)
      && (forall i, j :: 0 <= i < j < |r.value| ==>
            db.slots[r.value[i]].start <= db.slots[r.value[j]].start && r.value[i] != r.value[j])
  {
    var key := map s | s in db.slots && Listed(db.slots[s], doctor, date) :: db.slots[s].start;
    var r := Ordering.OrderBy(key);
    forall s ensures s in r <==> s in db.slots && Listed(db.slots[s], doctor, date) {
    }
    forall s | s in db.slots && date.At? {
      Clock.DayWindowMeans(date.ms, db.slots[s].start);
    }
    forall i, j | 0 <= i < j < |r| ensures db.slots[r[i]].start <= db.slots[r[j]].start && r[i] != r[j] {
      Ordering.AscendingMeans(key, r, i, j);
    }
  }

  /** The slot listing's error responses, in the order the handler checks. */
  lemma AvailableTimeSlotsRejects(db: Db, doctorId: Option<DoctorId>, date: DateArg)
    ensures doctorId.None? ==> AvailableTimeSlots(db, doctorId, date) == Err(Error(400, InvalidDoctorId))
    ensures doctorId.Some? && doctorId.value !in db.doctors ==>
      AvailableTimeSlots(db, doctorId, date) == Err(Error(404, DoctorUnavailable))
    ensures doctorId.Some? && doctorId.value in db.doctors && date.Unparseable? ==>
      AvailableTimeSlots(db, doctorId, date) == Err(Error(400, InvalidDate))
  {
  }

  /** A patient's appointment list holds exactly the patient's slot appointments on the chosen side of `now`, earliest slot first. */
  lemma AppointmentListMeans(db: Db, p: PatientId, now: int, upcoming: bool)
    ensures var r := AppointmentList(db, Some(p), now, upcoming);
      && r.Ok?
      && (forall a :: a in r.value <==> a in db.appointments && InList(db, p, a, now, upcoming))
      && (forall i, j :: 0 <= i < j < |r.value| ==>
            Timed(db, r.value[i]) && Timed(db, r.value[j])
            && SlotOf(db, r.value[i]).start <= SlotOf(db, r.value[j]).start && r.value[i] != r.value[j])
  {
    var key := map a | a in db.appointments && InList(db, p, a, now, upcoming) :: SlotOf(db, a).start;
    var r := Ordering.OrderBy(key);
    forall i, j | 0 <= i < j < |r|
      ensures Timed(db, r[i]) && Timed(db, r[j]) && SlotOf(db, r[i]).start <= SlotOf(db, r[j]).start && r[i] != r[j]
    {
      Ordering.AscendingMeans(key, r, i, j);
    }
  }

  /**
   * The upcoming and past lists split the patient's slot appointments (of any status)
   * at `now`: each such appointment is in exactly one of them, earliest slot first;
   * direct bookings, having no slot, are in neither.
   */
  lemma UpcomingPastSplit(db: Db, p: PatientId, now: int)
    ensures var up := UpcomingAppointments(db, Some(p), now);
      var past := PastAppointments(db, Some(p), now);
      && up.Ok? && past.Ok?
      && (forall a :: a in up.value ==> Timed(db, a) && db.appointments[a].patientId == p && SlotOf(db, a).start >= now)
      && (forall a :: a in past.value ==> Timed(db, a) && db.appointments[a].patientId == p && SlotOf(db, a).start < now)
      && (forall a :: Timed(db, a) && db.appointments[a].patientId == p ==> (a in up.value <==> a !in past.value))
      && (forall a :: a in db.appointments && db.appointments[a].slotId.None? ==> a !in up.value && a !in past.value)
      && (forall i, j :: 0 <= i < j < |up.value| ==> SlotOf(db, up.value[i]).start <= SlotOf(db, up.value[j]).start)
      && (forall i, j :: 0 <= i < j < |past.value| ==> SlotOf(db, past.value[i]).start <= SlotOf(db, past.value[j]).start)
  {
    AppointmentListMeans(db, p, now, true);
    AppointmentListMeans(db, p, now, false);
  }

  /**
   * `nextAvailable` is the doctor's earliest AVAILABLE slot starting at or after `now`,
   * and is absent exactly when there is none.
   */
  lemma NextAvailableMeans(db: Db, doctor: DoctorId, now: int)
    ensures var n := NextAvailable(db, doctor, now);
      && (n.None? <==> forall s :: s in db.slots && db.slots[s].doctorId == doctor && db.slots[s].status == Available
                                   ==> db.slots[s].start < now)
      && (n.Some? ==>
            && n.value in db.slots && db.slots[n.value].doctorId == doctor
            && db.slots[n.value].status == Available && db.slots[n.value].start >= now
            && forall s :: (s in db.slots && db.slots[s].doctorId == doctor && db.slots[s].status == Available
                            && db.slots[s].start >= now) ==> db.slots[n.value].start <= db.slots[s].start)
  {
    var key := map s | s in db.slots && db.slots[s].doctorId == doctor
                        && db.slots[s].start >= now && db.slots[s].status == Available :: db.slots[s].start;
    var r := Ordering.OrderBy(key);
    assert NextAvailable(db, doctor, now) == if r == [] then None else Some(r[0]);
    forall s | s in db.slots && db.slots[s].doctorId == doctor && db.slots[s].status == Available
      ensures s in key <==> db.slots[s].start >= now
      ensures s in key <==> s in r
    {
    }
    if r != [] {
      assert r[0] in key;
      forall s | s in key ensures key[r[0]] <= key[s] {
        var j :| 0 <= j < |r| && r[j] == s;
        if j > 0 {
          Ordering.AscendingMeans(key, r, 0, j);
        }
      }
    }
  }
}
