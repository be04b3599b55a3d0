/**
  The booking workflows over the slot and appointment tables: book,
  cancel by tracking id and reschedule. Each runs as one transaction, so
  it is one step from a store state to the next; `Book`, `Cancel` and
  `Reschedule` are those steps as functions of the old state and of the
  identifiers the store hands out, and the methods perform them on the
  store through its table operations.
*/
module Appointments {
  import opened Wrappers
  import opened Time
  import opened Store
  import opened SlotQueries
  import opened SlotResolver

  /** The options of `bookAppointment`. */
  datatype BookingRequest = BookingRequest(
    slotId: Option<SlotId>, date: Option<int>, startTime: Option<int>, endTime: Option<int>,
    name: string, email: string)

  /**
    The options object as the slot resolver reads it: it looks for `id`,
    and a booking carries `slotId`, so no id ever reaches it.
  */
  function ResolverRequest(req: BookingRequest): (r: SlotRequest)
    ensures !HasId(r) && r.date == req.date && r.startTime == req.startTime && r.endTime == req.endTime
  {
    SlotRequest(None, req.date, req.startTime, req.endTime)
  }

  /** The identifiers the store hands out during one workflow. */
  datatype Fresh = Fresh(slotId: SlotId, appointmentId: AppointmentId, trackingId: int)

  /** The store never reuses an identifier: every one of them is new to `db`. */
  ghost predicate FreshFor(db: Db, f: Fresh) {
    f.slotId !in SlotIds(db.slots) && f.appointmentId !in AppointmentIds(db.appointments) && f.trackingId !in db.issued
  }

  datatype BookOutcome = Booked(appointment: Appointment) | BookFailed(message: string)

  const FAILED_TO_SCHEDULE: string := "Failed to schedule an appointment"

  /**
    `bookAppointment(req)`: resolve the slot, add the appointment on it, and
    mark the slot unavailable when it was just created. The workflow fails,
    changing nothing, with the resolver's error.
  */
  function Book(db: Db, req: BookingRequest, f: Fresh): (r: (Db, BookOutcome))
    requires FreshFor(db, f)
    ensures r.1.BookFailed? ==> r.0 == db && r.1.message in {INVALID_OPTIONS, SLOT_NOT_AVAILABLE}
  {
    var (slots, res) := Resolve(db.slots, ResolverRequest(req), f.slotId);
    if SlotOf(res).None? then
      (db, BookFailed(ErrorOf(res).GetOr(FAILED_TO_SCHEDULE)))
    else
      var slot := SlotOf(res).value;
      var a := Appointment(f.appointmentId, f.trackingId, slot.id, req.name, req.email);
      var isNewSlot := res.Created?;
      if isNewSlot then
        SetAvailabilityOfNewRow(db.slots, slot, false);
        (Db(SetAvailability(slots, slot.id, false), db.appointments + [a], db.issued + [f.trackingId]), Booked(a))
      else
        (Db(slots, db.appointments + [a], db.issued + [f.trackingId]), Booked(a))
  }

  /**
    What a booking does: it fails exactly when a date or start time is
    missing or the first stored slot in the window is unavailable; otherwise
    it adds the appointment, either on a free stored slot (the table
    unchanged) or on a new, unavailable slot appended under the fresh id.
  */
  lemma BookOutcomes(db: Db, req: BookingRequest, f: Fresh)
    requires FreshFor(db, f)
    ensures var (db', out) := Book(db, req, f);
      out.BookFailed? <==>
        || req.date.None? || req.startTime.None?
        || (var m := FindSlotIn(db.slots, RequestWindow(req.date.value, req.startTime.value)); m.Some? && !m.value.isAvailable)
    ensures var (db', out) := Book(db, req, f);
      out.Booked? ==>
        && out.appointment == Appointment(f.appointmentId, f.trackingId, out.appointment.slotId, req.name, req.email)
        && db'.appointments == db.appointments + [out.appointment]
        && db'.issued == db.issued + [f.trackingId]
    ensures var (db', out) := Book(db, req, f);
      out.Booked? ==>
        || (db'.slots == db.slots && exists s :: s in db.slots && s.id == out.appointment.slotId && s.isAvailable)
        || (out.appointment.slotId == f.slotId && db'.slots == db.slots +
              [Slot(f.slotId, req.date.value, req.startTime.value, req.endTime.GetOr(req.startTime.value + DEFAULT_LENGTH), false)])
  {
    ResolveOutcomes(db.slots, ResolverRequest(req), f.slotId);
  }

  /** `bookAppointment(req)` on the store, as one transaction. */
  method BookAppointment(store: Store, req: BookingRequest) returns (outcome: BookOutcome, ghost f: Fresh)
    requires store.Valid()
    modifies store
    ensures store.Valid()
    ensures FreshFor(old(store.State()), f)
    ensures (store.State(), outcome) == Book(old(store.State()), req, f)
  {
    var res, newId := FindOrCreateSlot(store, ResolverRequest(req));
    if SlotOf(res).None? {
      f := Fresh(newId, UnusedString(AppointmentIds(store.appointments)), UnusedInt(store.issued));
      return BookFailed(ErrorOf(res).GetOr(FAILED_TO_SCHEDULE)), f;
    }
    var slot := SlotOf(res).value;
    assert slot in store.slots;
    var a := store.CreateAppointment(slot.id, req.name, req.email);
    var isNewSlot := res.Created?;
    if isNewSlot {
      var _ := store.UpdateSlotAvailability(slot.id, false);
    }
    f := Fresh(newId, a.id, a.trackingId);
    outcome := Booked(a);
  }

  /** Booking keeps the store valid. */
  lemma BookKeepsValid(db: Db, req: BookingRequest, f: Fresh)
    requires ValidDb(db) && FreshFor(db, f)
    ensures ValidDb(Book(db, req, f).0)
  {
    var (slots, res) := Resolve(db.slots, ResolverRequest(req), f.slotId);
    ResolveOutcomes(db.slots, ResolverRequest(req), f.slotId);
    var (db', out) := Book(db, req, f);
    if out.Booked? {
      var mid := db.(slots := slots);
      if res.Created? {
        ValidAfterNewSlot(db, res.slot);
      }
      assert ValidDb(mid);
      assert res.slot in slots;
      ValidAfterNewAppointment(mid, out.appointment);
      if res.Created? {
        ValidAfterSetAvailability(mid.(appointments := db'.appointments, issued := db'.issued), res.slot.id, false);
      }
    }
  }

  /** The `slotId` option plays no part in a booking: only the date and start time choose the slot. */
  lemma BookIgnoresSlotId(db: Db, req: BookingRequest, f: Fresh, slotId: Option<SlotId>)
    requires FreshFor(db, f)
    ensures Book(db, req.(slotId := slotId), f) == Book(db, req, f)
  {
    assert ResolverRequest(req.(slotId := slotId)) == ResolverRequest(req);
  }

  /** A booking that created its slot leaves it unavailable, so the same request cannot book it again. */
  lemma BookedNewSlotIsTaken(db: Db, req: BookingRequest, f: Fresh, f2: Fresh)
    requires FreshFor(db, f)
    requires Resolve(db.slots, ResolverRequest(req), f.slotId).1.Created?
    requires FreshFor(Book(db, req, f).0, f2)
    ensures Book(Book(db, req, f).0, req, f2).1 == BookFailed(SLOT_NOT_AVAILABLE)
  {
    var (slots, res) := Resolve(db.slots, ResolverRequest(req), f.slotId);
    SetAvailabilityOfNewRow(db.slots, res.slot, false);
    RepeatAfterCreateIsRefused(db.slots, ResolverRequest(req), f.slotId, f2.slotId);
  }

  datatype CancelOutcome = Cancelled(appointment: Appointment) | CancelFailed(message: string)

  /** The decimal digits of `n`, most significant first (no leading zeros). */
  function NatToString(n: nat): (s: string)
    ensures |s| >= 1 && forall k :: 0 <= k < |s| ==> '0' <= s[k] <= '9'
    ensures n > 0 ==> s[0] != '0'
  {
    if n < 10 then ["0123456789"[n]] else NatToString(n / 10) + ["0123456789"[n % 10]]
  }

  /** The number a string of decimal digits denotes. */
  function ParseNat(s: string): nat
    requires forall k :: 0 <= k < |s| ==> '0' <= s[k] <= '9'
  {
    if s == [] then 0 else ParseNat(s[..|s| - 1]) * 10 + (s[|s| - 1] as int - '0' as int)
  }

  /** Reading back the digits gives the number: no two numbers print alike. */
  lemma {:induction false} ParseNatToString(n: nat)
    ensures ParseNat(NatToString(n)) == n
  {
    var s := NatToString(n);
    if n < 10 {
      DigitValue(n);
    } else {
      var d := n % 10;
      ParseNatToString(n / 10);
      assert s[..|s| - 1] == NatToString(n / 10);
      assert s[|s| - 1] == "0123456789"[d];
      DigitValue(d);
      assert n == n / 10 * 10 + d;
    }
  }

  /** The digit printed for `d` reads back as `d`. */
  lemma DigitValue(d: nat)
    requires d < 10
    ensures "0123456789"[d] as int - '0' as int == d
  {
  }

  /** A number in a template string: `${n}`. */
  function IntToString(n: int): (s: string)
    ensures |s| >= 1 && (s[0] == '-' <==> n < 0)
  {
    if n < 0 then "-" + NatToString(-n) else NatToString(n)
  }

  lemma NatToStringInjective(a: nat, b: nat)
    requires NatToString(a) == NatToString(b)
    ensures a == b
  {
    ParseNatToString(a);
    ParseNatToString(b);
  }

  lemma IntToStringInjective(m: int, n: int)
    requires IntToString(m) == IntToString(n)
    ensures m == n
  {
    if m < 0 {
      assert n < 0;
      assert NatToString(-m) == IntToString(m)[1..];
      assert NatToString(-n) == IntToString(n)[1..];
      NatToStringInjective(-m, -n);
    } else {
      assert n >= 0;
      NatToStringInjective(m, n);
    }
  }

  /** The error for a tracking id and email that match no appointment. */
  function NotFoundMessage(trackingId: int): (m: string)
    ensures var prefix := "Sorry, I couldn't find any appointment with tracking id ";
      |m| > |prefix| && m[..|prefix|] == prefix
  {
    "Sorry, I couldn't find any appointment with tracking id " + IntToString(trackingId)
  }

  /** The not-found message names the tracking id: different ids give different messages. */
  lemma NotFoundMessageNamesTheId(t1: int, t2: int)
    requires NotFoundMessage(t1) == NotFoundMessage(t2)
    ensures t1 == t2
  {
    var prefix := "Sorry, I couldn't find any appointment with tracking id ";
    assert NotFoundMessage(t1)[|prefix|..] == IntToString(t1);
    assert NotFoundMessage(t2)[|prefix|..] == IntToString(t2);
    IntToStringInjective(t1, t2);
  }

  /**
    `cancelAppointmentByTrackingId(trackingId, email)`: the appointment with
    this tracking id and exactly this email is deleted and its slot made
    available again; the deleted record is returned. Without a match the
    store is left alone and the error names the tracking id.
  */
  function Cancel(db: Db, trackingId: int, email: string): (r: (Db, CancelOutcome))
    ensures r.1.CancelFailed? <==> forall a :: a in db.appointments ==> !(a.trackingId == trackingId && a.email == email)
    ensures r.1.CancelFailed? ==> r.0 == db && r.1.message == NotFoundMessage(trackingId)
    ensures r.1.Cancelled? ==>
      var a := r.1.appointment;
      && a in db.appointments && a.trackingId == trackingId && a.email == email
      && (forall b :: b in r.0.appointments <==> b in db.appointments && b.id != a.id)
      && r.0.issued == db.issued
      && |r.0.slots| == |db.slots|
      && (forall k :: 0 <= k < |db.slots| && db.slots[k].id == a.slotId ==> r.0.slots[k] == db.slots[k].(isAvailable := true))
      && (forall k :: 0 <= k < |db.slots| && db.slots[k].id != a.slotId ==> r.0.slots[k] == db.slots[k])
  {
    match FirstAppointment(db.appointments, trackingId, email)
    case None => (db, CancelFailed(NotFoundMessage(trackingId)))
    case Some(a) =>
      var appointments := RemoveAppointment(db.appointments, a.id);
      var slots := SetAvailability(db.slots, a.slotId, true);
      (Db(slots, appointments, db.issued), Cancelled(a))
  }

  /** `cancelAppointmentByTrackingId` on the store: the lookup, then delete and release as one transaction. */
  method CancelAppointmentByTrackingId(store: Store, trackingId: int, email: string) returns (outcome: CancelOutcome)
    requires store.Valid()
    modifies store
    ensures store.Valid()
    ensures (store.State(), outcome) == Cancel(old(store.State()), trackingId, email)
  {
    var found := FirstAppointment(store.appointments, trackingId, email);
    if found.None? {
      return CancelFailed(NotFoundMessage(trackingId));
    }
    var appointment := found.value;
    store.DeleteAppointment(appointment);
    var _ := store.UpdateSlotAvailability(appointment.slotId, true);
    outcome := Cancelled(appointment);
  }

  /** Cancelling keeps the store valid. */
  lemma CancelKeepsValid(db: Db, trackingId: int, email: string)
    requires ValidDb(db)
    ensures ValidDb(Cancel(db, trackingId, email).0)
  {
    var (db', out) := Cancel(db, trackingId, email);
    if out.Cancelled? {
      var a := out.appointment;
      var k :| 0 <= k < |db.appointments| && db.appointments[k] == a;
      RemoveUniqueRow(db.appointments, k);
      ValidWithoutRow(db, k);
      ValidAfterSetAvailability(db.(appointments := db'.appointments), a.slotId, true);
    }
  }

  /**
    Cancelling what was just booked, with the tracking id and email of the
    booking, succeeds: the appointment table is back to what it was and the
    booked slot is available.
  */
  lemma CancelUndoesBook(db: Db, req: BookingRequest, f: Fresh)
    requires ValidDb(db) && FreshFor(db, f)
    requires Book(db, req, f).1.Booked?
    ensures var (db1, out) := Book(db, req, f);
      var (db2, res) := Cancel(db1, out.appointment.trackingId, out.appointment.email);
      && res == Cancelled(out.appointment)
      && db2.appointments == db.appointments
      && forall s :: s in db2.slots && s.id == out.appointment.slotId ==> s.isAvailable
  {
    var (db1, out) := Book(db, req, f);
    var a := out.appointment;
    BookOutcomes(db, req, f);
    BookKeepsValid(db, req, f);
    FirstAppointmentIsTheOne(db1, a);
    var k := |db.appointments|;
    assert db1.appointments[k] == a;
    RemoveUniqueRow(db1.appointments, k);
    assert db1.appointments[..k] + db1.appointments[k + 1..] == db.appointments;
    var db2 := Cancel(db1, a.trackingId, a.email).0;
    assert db2 == Db(SetAvailability(db1.slots, a.slotId, true), RemoveAppointment(db1.appointments, a.id), db1.issued);
    forall s | s in db2.slots && s.id == a.slotId ensures s.isAvailable {
      SetAvailabilityFlag(db1.slots, a.slotId, true, s);
    }
  }

  /** Cancelling a booking that created its slot leaves that slot at the end of the table, available again. */
  lemma CancelReleasesNewSlot(db: Db, req: BookingRequest, f: Fresh)
    requires ValidDb(db) && FreshFor(db, f)
    requires Resolve(db.slots, ResolverRequest(req), f.slotId).1.Created?
    ensures var s := Resolve(db.slots, ResolverRequest(req), f.slotId).1.slot;
      var (db1, out) := Book(db, req, f);
      var db2 := Cancel(db1, out.appointment.trackingId, out.appointment.email).0;
      db2.slots == db.slots + [s.(isAvailable := true)] && out.appointment.trackingId in db2.issued
  {
    var s := Resolve(db.slots, ResolverRequest(req), f.slotId).1.slot;
    ResolveOutcomes(db.slots, ResolverRequest(req), f.slotId);
    var (db1, out) := Book(db, req, f);
    var a := out.appointment;
    SetAvailabilityOfNewRow(db.slots, s, false);
    assert db1.slots == db.slots + [s];
    CancelUndoesBook(db, req, f);
    var db2 := Cancel(db1, a.trackingId, a.email).0;
    assert db2.slots == SetAvailability(db1.slots, s.id, true);
    SetAvailabilityOfNewRow(db.slots, s, true);
  }

  /**
    Booking, cancelling, and booking the same date and time again succeeds
    on the same slot, under a new tracking id: whether the first booking
    created its slot or reused a free stored one.
  */
  lemma RebookAfterCancel(db: Db, req: BookingRequest, f: Fresh, f2: Fresh)
    requires ValidDb(db) && FreshFor(db, f)
    requires Book(db, req, f).1.Booked?
    requires var (db1, out) := Book(db, req, f);
      FreshFor(Cancel(db1, out.appointment.trackingId, out.appointment.email).0, f2)
    ensures var (db1, out) := Book(db, req, f);
      var db2 := Cancel(db1, out.appointment.trackingId, out.appointment.email).0;
      var out3 := Book(db2, req, f2).1;
      && out3.Booked?
      && out3.appointment.slotId == out.appointment.slotId
      && out3.appointment.trackingId != out.appointment.trackingId
  {
    BookOutcomes(db, req, f);
    ResolveOutcomes(db.slots, ResolverRequest(req), f.slotId);
    var s := Resolve(db.slots, ResolverRequest(req), f.slotId).1.slot;
    var (db1, out) := Book(db, req, f);
    var db2 := Cancel(db1, out.appointment.trackingId, out.appointment.email).0;
    var w := RequestWindow(req.date.value, req.startTime.value);
    if Resolve(db.slots, ResolverRequest(req), f.slotId).1.Created? {
      CancelReleasesNewSlot(db, req, f);
      AppendedMatchIsFirst(db.slots, s.(isAvailable := true), w);
      BookReusesFreeMatch(db2, req, f2, s.(isAvailable := true));
    } else {
      BookReusesFreeMatch(db, req, f, s);
      CancelUndoesBook(db, req, f);
      assert db2.slots == SetAvailability(db.slots, s.id, true);
      FlagsKeepFirstMatch(db.slots, w, s.id, true, s);
      BookReusesFreeMatch(db2, req, f2, s);
    }
  }

  /** When the first slot in the requested window is available, the booking goes to that slot and leaves the table alone. */
  lemma BookReusesFreeMatch(db: Db, req: BookingRequest, f: Fresh, s: Slot)
    requires FreshFor(db, f) && req.date.Some? && req.startTime.Some?
    requires FindSlotIn(db.slots, RequestWindow(req.date.value, req.startTime.value)) == Some(s) && s.isAvailable
    ensures Book(db, req, f) ==
      (Db(db.slots, db.appointments + [Appointment(f.appointmentId, f.trackingId, s.id, req.name, req.email)], db.issued + [f.trackingId]),
       Booked(Appointment(f.appointmentId, f.trackingId, s.id, req.name, req.email)))
  {
    assert Resolve(db.slots, ResolverRequest(req), f.slotId) == (db.slots, Existing(s));
  }

  /**
    When no stored slot lies in the requested window, the booking appends
    the requested slot, unavailable, under the fresh slot id and puts the
    appointment on it.
  */
  lemma BookCreatesWhenNoMatch(db: Db, req: BookingRequest, f: Fresh)
    requires FreshFor(db, f) && req.date.Some? && req.startTime.Some?
    requires FindSlotIn(db.slots, RequestWindow(req.date.value, req.startTime.value)).None?
    ensures var (db', out) := Book(db, req, f);
      && out.Booked? && out.appointment.slotId == f.slotId
      && db'.slots == db.slots +
           [Slot(f.slotId, req.date.value, req.startTime.value, req.endTime.GetOr(req.startTime.value + DEFAULT_LENGTH), false)]
  {
    ResolveOutcomes(db.slots, ResolverRequest(req), f.slotId);
  }

  datatype RescheduleRequest =RescheduleRequest(trackingId: int, email: string, date: int, time: int)

  datatype RescheduleOutcome = Rescheduled(appointment: Appointment) | EmptyRecord | RescheduleFailed(message: string)

  const FAILED_TO_RESCHEDULE: string := "Failed to reschedule your appointment"

  /** The options `rescheduleAppointment` passes to the slot resolver. */
  function TargetRequest(req: RescheduleRequest): (r: SlotRequest)
    ensures !HasId(r) && r.date == Some(req.date) && r.startTime == Some(req.time) && r.endTime.None?
  {
    SlotRequest(None, Some(req.date), Some(req.time), None)
  }

  /**
    `rescheduleAppointment(req)`: find the appointment by tracking id and
    email, resolve the slot at the new date and time, release the old slot
    only when the new one was just created, and point the appointment at the
    new slot. The record returned is the one read before the update. Any
    failure rolls the transaction back and gives one generic message.
  */
  function Reschedule(db: Db, req: RescheduleRequest, newSlotId: SlotId): (r: (Db, RescheduleOutcome))
    requires newSlotId !in SlotIds(db.slots)
    ensures r.1.RescheduleFailed? ==> r.0 == db && r.1.message == FAILED_TO_RESCHEDULE
    ensures !r.1.EmptyRecord?
    ensures r.1.Rescheduled? ==>
      var a := r.1.appointment;
      && a in db.appointments && a.trackingId == req.trackingId && a.email == req.email
      && r.0.issued == db.issued
      && |r.0.appointments| == |db.appointments|
      && (forall k :: 0 <= k < |db.appointments| && db.appointments[k].id != a.id ==> r.0.appointments[k] == db.appointments[k])
      && exists id :: id in SlotIds(r.0.slots) &&
           forall k :: 0 <= k < |db.appointments| && db.appointments[k].id == a.id ==>
             r.0.appointments[k] == db.appointments[k].(slotId := id)
  {
    match FirstAppointment(db.appointments, req.trackingId, req.email)
    case None => (db, RescheduleFailed(FAILED_TO_RESCHEDULE))
    case Some(a) =>
      var (slots, res) := Resolve(db.slots, TargetRequest(req), newSlotId);
      if SlotOf(res).None? then (db, RescheduleFailed(FAILED_TO_RESCHEDULE))
      else
        var slot := SlotOf(res).value;
        var isNewSlot := res.Created?;
        var released := if isNewSlot then SetAvailability(slots, a.slotId, true) else slots;
        assert slot.id in SlotIds(released) by { assert slot in slots; }
        (Db(released, SetAppointmentSlot(db.appointments, a.id, slot.id), db.issued), Rescheduled(a))
  }

  /** `rescheduleAppointment` on the store. */
  method RescheduleAppointment(store: Store, req: RescheduleRequest) returns (outcome: RescheduleOutcome, ghost newSlotId: SlotId)
    requires store.Valid()
    modifies store
    ensures store.Valid()
    ensures newSlotId !in SlotIds(old(store.slots))
    ensures (store.State(), outcome) == Reschedule(old(store.State()), req, newSlotId)
  {
    var found := FirstAppointment(store.appointments, req.trackingId, req.email);
    if found.None? {
      newSlotId := UnusedString(SlotIds(store.slots));
      return RescheduleFailed(FAILED_TO_RESCHEDULE), newSlotId;
    }
    var appointment := found.value;
    var res;
    res, newSlotId := FindOrCreateSlot(store, TargetRequest(req));
    if SlotOf(res).None? {
      return RescheduleFailed(FAILED_TO_RESCHEDULE), newSlotId;
    }
    var slot := SlotOf(res).value;
    var isNewSlot := res.Created?;
    assert appointment.slotId in SlotIds(old(store.slots));
    assert slot in store.slots;
    if isNewSlot {
      var _ := store.UpdateSlotAvailability(appointment.slotId, true);
    }
    store.UpdateAppointmentSlot(appointment.id, slot.id);
    outcome := Rescheduled(appointment);
  }

  /**
    A reschedule fails exactly when no appointment has that tracking id and
    email, or when the first stored slot in the new window is unavailable.
  */
  lemma RescheduleFailsIff(db: Db, req: RescheduleRequest, newSlotId: SlotId)
    requires newSlotId !in SlotIds(db.slots)
    ensures var m := FindSlotIn(db.slots, RequestWindow(req.date, req.time));
      Reschedule(db, req, newSlotId).1.RescheduleFailed? <==>
        FirstAppointment(db.appointments, req.trackingId, req.email).None? || (m.Some? && !m.value.isAvailable)
  {
    var m := FindSlotIn(db.slots, RequestWindow(req.date, req.time));
    if m.Some? {
      ResolveFound(db.slots, TargetRequest(req), newSlotId, m.value);
    } else {
      ResolveCreates(db.slots, TargetRequest(req), newSlotId);
    }
  }

  /**
    When the first stored slot in the new window is available, the
    appointment is pointed at it and the slot table is left as it was: the
    target stays available and the old slot stays unavailable.
  */
  lemma RescheduleOntoStoredSlot(db: Db, req: RescheduleRequest, newSlotId: SlotId, a: Appointment, s: Slot)
    requires newSlotId !in SlotIds(db.slots)
    requires FirstAppointment(db.appointments, req.trackingId, req.email) == Some(a)
    requires FindSlotIn(db.slots, RequestWindow(req.date, req.time)) == Some(s) && s.isAvailable
    ensures Reschedule(db, req, newSlotId) ==
      (db.(appointments := SetAppointmentSlot(db.appointments, a.id, s.id)), Rescheduled(a))
  {
    ResolveFound(db.slots, TargetRequest(req), newSlotId, s);
  }

  /**
    When no stored slot is in the new window, a one-hour unavailable slot is
    appended under the fresh id, the appointment's old slot is made
    available, and the appointment is pointed at the new slot.
  */
  lemma RescheduleOntoNewSlot(db: Db, req: RescheduleRequest, newSlotId: SlotId, a: Appointment)
    requires newSlotId !in SlotIds(db.slots)
    requires FirstAppointment(db.appointments, req.trackingId, req.email) == Some(a)
    requires FindSlotIn(db.slots, RequestWindow(req.date, req.time)).None?
    ensures var t := Slot(newSlotId, req.date, req.time, req.time + DEFAULT_LENGTH, false);
      Reschedule(db, req, newSlotId) ==
        (Db(SetAvailability(db.slots + [t], a.slotId, true), SetAppointmentSlot(db.appointments, a.id, newSlotId), db.issued),
         Rescheduled(a))
  {
    var t := Slot(newSlotId, req.date, req.time, req.time + DEFAULT_LENGTH, false);
    ResolveCreates(db.slots, TargetRequest(req), newSlotId);
    assert Resolve(db.slots, TargetRequest(req), newSlotId) == (db.slots + [t], Created(t));
  }

  /** Rescheduling keeps the store valid. */
  lemma RescheduleKeepsValid(db: Db, req: RescheduleRequest, newSlotId: SlotId)
    requires ValidDb(db) && newSlotId !in SlotIds(db.slots)
    ensures ValidDb(Reschedule(db, req, newSlotId).0)
  {
    var (db', out) := Reschedule(db, req, newSlotId);
    if out.Rescheduled? {
      var a := out.appointment;
      var (slots, res) := Resolve(db.slots, TargetRequest(req), newSlotId);
      ResolveOutcomes(db.slots, TargetRequest(req), newSlotId);
      var mid := db.(slots := slots);
      if res.Created? {
        ValidAfterNewSlot(db, res.slot);
        ValidAfterSetAvailability(mid, a.slotId, true);
      }
      assert ValidDb(db'.(appointments := db.appointments));
      assert res.slot in db'.slots;
      ValidAfterSetAppointmentSlot(db'.(appointments := db.appointments), a.id, res.slot.id);
    }
  }

  /** The appointment keeps its tracking id, name and email; only its slot changes. */
  lemma RescheduleKeepsTrackingId(db: Db, req: RescheduleRequest, newSlotId: SlotId, b: Appointment)
    requires newSlotId !in SlotIds(db.slots)
    requires Reschedule(db, req, newSlotId).1.Rescheduled?
    requires b in Reschedule(db, req, newSlotId).0.appointments
    ensures exists old_b :: old_b in db.appointments && b == old_b.(slotId := b.slotId)
  {
    var appts := Reschedule(db, req, newSlotId).0.appointments;
    var k :| 0 <= k < |appts| && appts[k] == b;
    assert db.appointments[k] in db.appointments;
  }

  /** `rescheduleAppointment1`: an unfinished variant that touches nothing and reports an empty record. */
  function RescheduleAppointment1(db: Db, req: RescheduleRequest): (Db, RescheduleOutcome) {
    (db, EmptyRecord)
  }

  /**
    The unfinished variant never answers as `rescheduleAppointment` does: it
    reports an empty record, which the finished one never does, and leaves
    the store as it was.
  */
  lemma UnfinishedVariantNeverReschedules(db: Db, req: RescheduleRequest, newSlotId: SlotId)
    requires newSlotId !in SlotIds(db.slots)
    ensures RescheduleAppointment1(db, req).0 == db
    ensures RescheduleAppointment1(db, req).1.EmptyRecord?
    ensures RescheduleAppointment1(db, req).1 != Reschedule(db, req, newSlotId).1
  {
  }
}
