/**
  Whether a booked slot stays reserved. The intended rule: a slot that an
  appointment holds is unavailable, and no slot is held by two
  appointments. `Book` and `Reschedule`, as written, break it; the
  corrected steps `BookReserving` and `RescheduleReleasing` keep it, and so
  does `Cancel`.
*/
module Reservations {
  import opened Wrappers
  import opened Time
  import opened Store
  import opened SlotQueries
  import opened SlotResolver
  import opened Appointments

  /** The slot ids appointments hold. */
  function HeldIds(appointments: seq<Appointment>): set<SlotId> {
    set a | a in appointments :: a.slotId
  }

  /** Every slot whose id is in `held` is unavailable. */
  predicate Taken(slots: seq<Slot>, held: set<SlotId>) {
    forall s :: s in slots && s.id in held ==> !s.isAvailable
  }

  /** Every slot an appointment points at is unavailable. */
  ghost predicate BookedSlotsTaken(db: Db) {
    Taken(db.slots, HeldIds(db.appointments))
  }

  /** No two appointments hold the same slot. */
  ghost predicate OneAppointmentPerSlot(db: Db) {
    forall a, b :: a in db.appointments && b in db.appointments && a.slotId == b.slotId ==> a == b
  }

  ghost predicate Reserved(db: Db) {
    BookedSlotsTaken(db) && OneAppointmentPerSlot(db)
  }

  /** A row after the availability update is a row of before, or the updated row with the new flag. */
  lemma SetAvailabilityRows(slots: seq<Slot>, id: SlotId, isAvailable: bool)
    ensures forall s :: s in SetAvailability(slots, id, isAvailable) ==>
      (s.id == id && s.isAvailable == isAvailable) || (s.id != id && s in slots)
  {
    var r := SetAvailability(slots, id, isAvailable);
    forall s | s in r ensures (s.id == id && s.isAvailable == isAvailable) || (s.id != id && s in slots) {
      var k :| 0 <= k < |r| && r[k] == s;
      if slots[k].id != id {
        assert r[k] == slots[k];
      }
    }
  }

  /** Making a slot unavailable adds it to what is taken. */
  lemma TakeKeepsTaken(slots: seq<Slot>, held: set<SlotId>, id: SlotId)
    requires Taken(slots, held)
    ensures Taken(SetAvailability(slots, id, false), held + {id})
  {
    SetAvailabilityRows(slots, id, false);
  }

  /** Making a slot available drops it from what is taken, and nothing else. */
  lemma ReleaseKeepsTaken(slots: seq<Slot>, held: set<SlotId>, id: SlotId)
    requires Taken(slots, held)
    ensures Taken(SetAvailability(slots, id, true), held - {id})
  {
    SetAvailabilityRows(slots, id, true);
  }

  /** Moving the appointment at `k` to slot `t`: every row after is that one moved, or another row of before. */
  lemma MoveRows(appointments: seq<Appointment>, k: int, t: SlotId)
    requires 0 <= k < |appointments|
    requires forall i, j :: 0 <= i < j < |appointments| ==> appointments[i].id != appointments[j].id
    ensures forall b :: b in SetAppointmentSlot(appointments, appointments[k].id, t) ==>
      b == appointments[k].(slotId := t) || (b in appointments && b != appointments[k])
  {
    var a := appointments[k];
    var r := SetAppointmentSlot(appointments, a.id, t);
    forall b | b in r ensures b == a.(slotId := t) || (b in appointments && b != a) {
      var i :| 0 <= i < |r| && r[i] == b;
      if i != k {
        assert appointments[i].id != a.id;
      }
    }
  }

  /** Moving a slot's only holder elsewhere frees that slot and holds the target. */
  lemma MoveHeldIds(db: Db, k: int, t: SlotId)
    requires ValidDb(db) && OneAppointmentPerSlot(db) && 0 <= k < |db.appointments|
    requires t !in HeldIds(db.appointments)
    ensures var a := db.appointments[k];
      var moved := SetAppointmentSlot(db.appointments, a.id, t);
      && HeldIds(moved) <= HeldIds(db.appointments) - {a.slotId} + {t}
      && OneAppointmentPerSlot(db.(appointments := moved))
  {
    var a := db.appointments[k];
    MoveRows(db.appointments, k, t);
    var moved := SetAppointmentSlot(db.appointments, a.id, t);
    forall b | b in moved && b != a.(slotId := t) ensures b.slotId != t && b.slotId != a.slotId {
      assert b in db.appointments && b != a;
    }
  }

  /**
    The slot a lookup hands out is held by nobody (a free stored slot, or a
    brand-new one), and every held slot is still taken in the table it returns.
  */
  lemma ResolvedSlotUnheld(db: Db, req: SlotRequest, newId: SlotId)
    requires ValidDb(db) && BookedSlotsTaken(db) && newId !in SlotIds(db.slots)
    requires SlotOf(Resolve(db.slots, req, newId).1).Some?
    ensures var (slots, res) := Resolve(db.slots, req, newId);
      && Taken(slots, HeldIds(db.appointments))
      && res.slot.id !in HeldIds(db.appointments)
  {
    var (slots, res) := Resolve(db.slots, req, newId);
    ResolveOutcomes(db.slots, req, newId);
    var held := HeldIds(db.appointments);
    assert held <= SlotIds(db.slots);
    if res.Existing? {
      assert res.slot in db.slots && res.slot.isAvailable;
    } else {
      assert slots == db.slots + [res.slot] && !res.slot.isAvailable;
    }
  }

  // ---------------------------------------------------------------- as written

  /**
    `Book` as written reuses a free stored slot without taking it: a second
    booking of the same date and time lands on the same slot.
  */
  lemma BookCanDoubleBook(db: Db, req: BookingRequest, f1: Fresh, f2: Fresh, s: Slot)
    requires ValidDb(db) && FreshFor(db, f1)
    requires req.date.Some? && req.startTime.Some?
    requires FindSlotIn(db.slots, RequestWindow(req.date.value, req.startTime.value)) == Some(s) && s.isAvailable
    requires FreshFor(Book(db, req, f1).0, f2)
    ensures var (db1, out1) := Book(db, req, f1);
      var (db2, out2) := Book(db1, req, f2);
      && out1.Booked? && out2.Booked?
      && out1.appointment.slotId == s.id && out2.appointment.slotId == s.id
      && out1.appointment != out2.appointment
      && !OneAppointmentPerSlot(db2)
      && s in db2.slots && s.isAvailable
  {
    var (db1, out1) := Book(db, req, f1);
    assert Resolve(db.slots, ResolverRequest(req), f1.slotId).1 == Existing(s);
    assert db1.slots == db.slots;
    assert Resolve(db1.slots, ResolverRequest(req), f2.slotId).1 == Existing(s);
    var (db2, out2) := Book(db1, req, f2);
    assert out1.appointment.trackingId in db1.issued;
    assert out1.appointment in db2.appointments && out2.appointment in db2.appointments;
  }

  /** The slot the double-booking example starts from: 09:00 to 10:00 on day 0, available. */
  const NINE_OCLOCK: Slot := Slot("slot-9", 0, 9 * HOUR, 10 * HOUR, true)

  /** Two bookings of 09:00 on day 0 against a store holding just that free slot both succeed, on that slot. */
  lemma DoubleBookingExample()
    ensures var db := Db([NINE_OCLOCK], [], []);
      var req := BookingRequest(None, Some(0), Some(9 * HOUR), None, "Ann", "ann@example.com");
      var (db1, out1) := Book(db, req, Fresh("new-1", "appt-1", 1));
      var (db2, out2) := Book(db1, req, Fresh("new-2", "appt-2", 2));
      out1 == Booked(Appointment("appt-1", 1, "slot-9", "Ann", "ann@example.com"))
      && out2 == Booked(Appointment("appt-2", 2, "slot-9", "Ann", "ann@example.com"))
      && db2.slots == [NINE_OCLOCK]
  {
    var db := Db([NINE_OCLOCK], [], []);
    var req := BookingRequest(None, Some(0), Some(9 * HOUR), None, "Ann", "ann@example.com");
    var w := RequestWindow(0, 9 * HOUR);
    assert InWindow(NINE_OCLOCK, w);
    assert FindSlotIn(db.slots, w) == Some(NINE_OCLOCK);
    var f1 := Fresh("new-1", "appt-1", 1);
    assert FreshFor(db, f1);
    BookCanDoubleBook(db, req, f1, Fresh("new-2", "appt-2", 2), NINE_OCLOCK);
  }

  /**
    `Reschedule` as written, moving onto a free stored slot, leaves that slot
    free although it is now held, and leaves the old slot taken although
    nothing holds it any more.
  */
  lemma RescheduleOntoFreeSlotLeaks(db: Db, req: RescheduleRequest, newSlotId: SlotId, a: Appointment, t: Slot)
    requires ValidDb(db) && Reserved(db) && newSlotId !in SlotIds(db.slots)
    requires a in db.appointments && a.trackingId == req.trackingId && a.email == req.email
    requires FindSlotIn(db.slots, RequestWindow(req.date, req.time)) == Some(t) && t.isAvailable
    ensures var (db1, out) := Reschedule(db, req, newSlotId);
      && out == Rescheduled(a)
      && a.(slotId := t.id) in db1.appointments
      && t in db1.slots
      && !BookedSlotsTaken(db1)
      && a.slotId !in HeldIds(db1.appointments)
      && (forall s :: s in db1.slots && s.id == a.slotId ==> !s.isAvailable)
  {
    FirstAppointmentIsTheOne(db, a);
    var (db1, out) := Reschedule(db, req, newSlotId);
    assert Resolve(db.slots, TargetRequest(req), newSlotId).1 == Existing(t);
    assert db1.slots == db.slots;
    var k :| 0 <= k < |db.appointments| && db.appointments[k] == a;
    assert db1.appointments[k] == a.(slotId := t.id);
    assert t.id !in HeldIds(db.appointments);
    assert a.slotId in HeldIds(db.appointments);
    MoveHeldIds(db, k, t.id);
  }

  // ---------------------------------------------------------------- corrected

  /** `Book` with the slot always taken, whether reused or created. */
  function BookReserving(db: Db, req: BookingRequest, f: Fresh): (r: (Db, BookOutcome))
    requires FreshFor(db, f)
    ensures r.1.Booked? ==> forall s :: s in r.0.slots && s.id == r.1.appointment.slotId ==> !s.isAvailable
  {
    var (slots, res) := Resolve(db.slots, ResolverRequest(req), f.slotId);
    if SlotOf(res).None? then
      (db, BookFailed(ErrorOf(res).GetOr(FAILED_TO_SCHEDULE)))
    else
      var slot := SlotOf(res).value;
      var a := Appointment(f.appointmentId, f.trackingId, slot.id, req.name, req.email);
      SetAvailabilityRows(slots, slot.id, false);
      (Db(SetAvailability(slots, slot.id, false), db.appointments + [a], db.issued + [f.trackingId]), Booked(a))
  }

  /** The corrected booking answers exactly as `Book` does; only the slot table differs. */
  lemma BookReservingAnswersAsBook(db: Db, req: BookingRequest, f: Fresh)
    requires FreshFor(db, f)
    ensures BookReserving(db, req, f).1 == Book(db, req, f).1
    ensures BookReserving(db, req, f).0.appointments == Book(db, req, f).0.appointments
    ensures BookReserving(db, req, f).0.issued == Book(db, req, f).0.issued
  {
  }

  /** `Reschedule` with the old slot always released and the new one always taken. */
  function RescheduleReleasing(db: Db, req: RescheduleRequest, newSlotId: SlotId): (r: (Db, RescheduleOutcome))
    requires newSlotId !in SlotIds(db.slots)
    ensures r.1 == Reschedule(db, req, newSlotId).1
  {
    match FirstAppointment(db.appointments, req.trackingId, req.email)
    case None => (db, RescheduleFailed(FAILED_TO_RESCHEDULE))
    case Some(a) =>
      var (slots, res) := Resolve(db.slots, TargetRequest(req), newSlotId);
      if SlotOf(res).None? then (db, RescheduleFailed(FAILED_TO_RESCHEDULE))
      else
        var slot := SlotOf(res).value;
        var released := SetAvailability(SetAvailability(slots, a.slotId, true), slot.id, false);
        (Db(released, SetAppointmentSlot(db.appointments, a.id, slot.id), db.issued), Rescheduled(a))
  }

  /**
    What the corrected rescheduling does on success, with `t` the slot the
    resolver hands out: the appointment now holds `t`, every row of `t` is
    unavailable, every row of the old slot is available (unless the old slot
    is `t` itself), and otherwise only availability flags of those two slots
    change.
  */
  lemma RescheduleReleasingMoves(db: Db, req: RescheduleRequest, newSlotId: SlotId)
    requires ValidDb(db) && newSlotId !in SlotIds(db.slots)
    requires RescheduleReleasing(db, req, newSlotId).1.Rescheduled?
    ensures var (db', out) := RescheduleReleasing(db, req, newSlotId);
      var (slots, res) := Resolve(db.slots, TargetRequest(req), newSlotId);
      var a := out.appointment;
      && (res.Existing? || res.Created?)
      && (res.Existing? ==> slots == db.slots) && (res.Created? ==> slots == db.slots + [res.slot])
      && a.(slotId := res.slot.id) in db'.appointments
      && (forall b :: b in db'.appointments ==> b == a.(slotId := res.slot.id) || (b in db.appointments && b != a))
      && (forall s :: s in db'.slots && s.id == res.slot.id ==> !s.isAvailable)
      && (a.slotId != res.slot.id ==> forall s :: s in db'.slots && s.id == a.slotId ==> s.isAvailable)
      && |db'.slots| == |slots|
      && (forall k :: 0 <= k < |slots| ==> db'.slots[k] == slots[k].(isAvailable := db'.slots[k].isAvailable))
      && (forall k :: 0 <= k < |slots| && slots[k].id != res.slot.id && slots[k].id != a.slotId ==> db'.slots[k] == slots[k])
      && db'.issued == db.issued
  {
    var (db', out) := RescheduleReleasing(db, req, newSlotId);
    var (slots, res) := Resolve(db.slots, TargetRequest(req), newSlotId);
    ResolveOutcomes(db.slots, TargetRequest(req), newSlotId);
    var a := out.appointment;
    assert db'.slots == SetAvailability(SetAvailability(slots, a.slotId, true), res.slot.id, false);
    ReleaseThenTake(slots, a.slotId, res.slot.id);
    var k :| 0 <= k < |db.appointments| && db.appointments[k] == a;
    MoveRows(db.appointments, k, res.slot.id);
    assert SetAppointmentSlot(db.appointments, a.id, res.slot.id)[k] == a.(slotId := res.slot.id);
  }

  /** Releasing slot `o` and then taking slot `t`: only the flags of those two slots change. */
  lemma ReleaseThenTake(slots: seq<Slot>, o: SlotId, t: SlotId)
    ensures var r := SetAvailability(SetAvailability(slots, o, true), t, false);
      && (forall s :: s in r && s.id == t ==> !s.isAvailable)
      && (o != t ==> forall s :: s in r && s.id == o ==> s.isAvailable)
      && |r| == |slots|
      && (forall k :: 0 <= k < |slots| ==> r[k] == slots[k].(isAvailable := r[k].isAvailable))
      && (forall k :: 0 <= k < |slots| && slots[k].id != t && slots[k].id != o ==> r[k] == slots[k])
  {
    var r := SetAvailability(SetAvailability(slots, o, true), t, false);
    forall s | s in r ensures (s.id == t ==> !s.isAvailable) && (o != t && s.id == o ==> s.isAvailable) {
      var k :| 0 <= k < |r| && r[k] == s;
    }
  }

  /** The corrected booking keeps every booked slot taken and every slot held at most once. */
  lemma BookReservingKeepsReserved(db: Db, req: BookingRequest, f: Fresh)
    requires ValidDb(db) && Reserved(db) && FreshFor(db, f)
    ensures Reserved(BookReserving(db, req, f).0)
  {
    var (db1, out) := BookReserving(db, req, f);
    if out.Booked? {
      var (slots, res) := Resolve(db.slots, ResolverRequest(req), f.slotId);
      ResolvedSlotUnheld(db, ResolverRequest(req), f.slotId);
      TakeKeepsReserved(db, slots, out.appointment, db.issued + [f.trackingId]);
    }
  }

  /** Taking an unheld slot and adding one appointment that holds it. */
  lemma TakeKeepsReserved(db: Db, slots: seq<Slot>, a: Appointment, issued: seq<int>)
    requires OneAppointmentPerSlot(db) && Taken(slots, HeldIds(db.appointments))
    requires a.slotId !in HeldIds(db.appointments)
    ensures Reserved(Db(SetAvailability(slots, a.slotId, false), db.appointments + [a], issued))
  {
    var held := HeldIds(db.appointments);
    TakeKeepsTaken(slots, held, a.slotId);
    assert HeldIds(db.appointments + [a]) == held + {a.slotId};
  }

  /** Cancelling keeps every booked slot taken and every slot held at most once. */
  lemma CancelKeepsReserved(db: Db, trackingId: int, email: string)
    requires ValidDb(db) && Reserved(db)
    ensures Reserved(Cancel(db, trackingId, email).0)
  {
    var (db1, out) := Cancel(db, trackingId, email);
    if out.Cancelled? {
      var a := out.appointment;
      ReleaseKeepsTaken(db.slots, HeldIds(db.appointments), a.slotId);
      assert HeldIds(db1.appointments) <= HeldIds(db.appointments) - {a.slotId} by {
        forall b | b in db1.appointments ensures b.slotId != a.slotId {
          assert b != a;
        }
      }
    }
  }

  /** The corrected rescheduling keeps every booked slot taken and every slot held at most once. */
  lemma RescheduleReleasingKeepsReserved(db: Db, req: RescheduleRequest, newSlotId: SlotId)
    requires ValidDb(db) && Reserved(db) && newSlotId !in SlotIds(db.slots)
    ensures Reserved(RescheduleReleasing(db, req, newSlotId).0)
  {
    var (db1, out) := RescheduleReleasing(db, req, newSlotId);
    if out.Rescheduled? {
      var a := out.appointment;
      var (slots, res) := Resolve(db.slots, TargetRequest(req), newSlotId);
      ResolvedSlotUnheld(db, TargetRequest(req), newSlotId);
      var k :| 0 <= k < |db.appointments| && db.appointments[k] == a;
      MoveKeepsReserved(db, slots, k, res.slot.id);
    }
  }

  /** Releasing the held slot of the appointment at `k`, taking a free slot `t` and moving the appointment there. */
  lemma MoveKeepsReserved(db: Db, slots: seq<Slot>, k: int, t: SlotId)
    requires ValidDb(db) && OneAppointmentPerSlot(db) && 0 <= k < |db.appointments|
    requires Taken(slots, HeldIds(db.appointments)) && t !in HeldIds(db.appointments)
    ensures var a := db.appointments[k];
      Reserved(Db(SetAvailability(SetAvailability(slots, a.slotId, true), t, false),
                  SetAppointmentSlot(db.appointments, a.id, t), db.issued))
  {
    var a := db.appointments[k];
    var held := HeldIds(db.appointments);
    ReleaseKeepsTaken(slots, held, a.slotId);
    TakeKeepsTaken(SetAvailability(slots, a.slotId, true), held - {a.slotId}, t);
    MoveHeldIds(db, k, t);
  }

  /** With the corrected booking, the same request cannot book the slot it just booked a second time. */
  lemma BookReservingRefusesRepeat(db: Db, req: BookingRequest, f: Fresh, f2: Fresh)
    requires FreshFor(db, f)
    requires BookReserving(db, req, f).1.Booked?
    requires FreshFor(BookReserving(db, req, f).0, f2)
    ensures BookReserving(BookReserving(db, req, f).0, req, f2).1 == BookFailed(SLOT_NOT_AVAILABLE)
  {
    var db1 := BookReserving(db, req, f).0;
    BookReservingTakesMatch(db, req, f);
    var m := FindSlotIn(db1.slots, RequestWindow(req.date.value, req.startTime.value)).value;
    ResolveFound(db1.slots, ResolverRequest(req), f2.slotId, m);
  }

  /** After a corrected booking, the first slot in the request's window is unavailable. */
  lemma BookReservingTakesMatch(db: Db, req: BookingRequest, f: Fresh)
    requires FreshFor(db, f)
    requires BookReserving(db, req, f).1.Booked?
    ensures req.date.Some? && req.startTime.Some?
    ensures var m := FindSlotIn(BookReserving(db, req, f).0.slots, RequestWindow(req.date.value, req.startTime.value));
      m.Some? && !m.value.isAvailable
  {
    var (slots, res) := Resolve(db.slots, ResolverRequest(req), f.slotId);
    ResolveOutcomes(db.slots, ResolverRequest(req), f.slotId);
    var w := RequestWindow(req.date.value, req.startTime.value);
    assert FindSlotIn(slots, w) == Some(res.slot) by {
      if res.Created? {
        AppendedMatchIsFirst(db.slots, res.slot, w);
      }
    }
    TakingKeepsFirstMatch(slots, w, res.slot);
  }

  /** Taking the first slot in a window leaves it the first slot in that window, now unavailable. */
  lemma TakingKeepsFirstMatch(slots: seq<Slot>, w: Window, s: Slot)
    requires FindSlotIn(slots, w) == Some(s)
    ensures FindSlotIn(SetAvailability(slots, s.id, false), w) == Some(s.(isAvailable := false))
  {
    FlagsKeepFirstMatch(slots, w, s.id, false, s);
  }

}
