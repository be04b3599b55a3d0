/**
  The two tables the booking code reads and writes (slots and appointments)
  and the create/update/delete operations of the data store it calls.

  A table is a sequence of rows in the store's row order, so "the first row
  that matches" (findFirst, Array.find) is a definite row. Identifiers are
  opaque strings chosen by the store; a tracking id is an integer the store
  assigns from a sequence that never hands the same number out twice, so
  the store remembers every tracking id it has issued.
*/
module Store {
  import opened Wrappers

  type SlotId = string
  type AppointmentId = string

  /** A bookable time window; instants are milliseconds (see module Time). */
  datatype Slot = Slot(id: SlotId, date: int, startTime: int, endTime: int, isAvailable: bool)

  /** A booking: a patient's name and email against one slot. */
  datatype Appointment = Appointment(id: AppointmentId, trackingId: int, slotId: SlotId, name: string, email: string)

  /** The contents of the store. */
  datatype Db = Db(slots: seq<Slot>, appointments: seq<Appointment>, issued: seq<int>)

  function SlotIds(slots: seq<Slot>): set<SlotId> {
    set s | s in slots :: s.id
  }

  function AppointmentIds(appointments: seq<Appointment>): set<AppointmentId> {
    set a | a in appointments :: a.id
  }

  /** What the store's keys and its foreign key guarantee of any reachable state. */
  ghost predicate ValidDb(db: Db) {
    && (forall i, j :: 0 <= i < j < |db.slots| ==> db.slots[i].id != db.slots[j].id)
    && (forall i, j :: 0 <= i < j < |db.appointments| ==> db.appointments[i].id != db.appointments[j].id)
    && (forall i, j :: 0 <= i < j < |db.appointments| ==>
          db.appointments[i].trackingId != db.appointments[j].trackingId)
    && (forall a :: a in db.appointments ==> a.trackingId in db.issued)
    && (forall a :: a in db.appointments ==> a.slotId in SlotIds(db.slots))
  }

  /** `slot.update({ where: { id }, data: { isAvailable } })` on the slot table. */
  function SetAvailability(slots: seq<Slot>, id: SlotId, isAvailable: bool): (r: seq<Slot>)
    ensures |r| == |slots|
    ensures forall i :: 0 <= i < |slots| ==>
      r[i].id == slots[i].id && r[i].date == slots[i].date &&
      r[i].startTime == slots[i].startTime && r[i].endTime == slots[i].endTime
    ensures forall i :: 0 <= i < |slots| ==>
      r[i].isAvailable == (if slots[i].id == id then isAvailable else slots[i].isAvailable)
  {
    if slots == [] then []
    else
      var head := if slots[0].id == id then slots[0].(isAvailable := isAvailable) else slots[0];
      var tail := SetAvailability(slots[1..], id, isAvailable);
      assert slots == [slots[0]] + slots[1..];
      [head] + tail
  }

  /** The ids of a table with one more row in front. */
  lemma SlotIdsCons(s: Slot, slots: seq<Slot>)
    ensures SlotIds([s] + slots) == {s.id} + SlotIds(slots)
  {
    assert forall t :: t in [s] + slots <==> t == s || t in slots;
  }

  /** Every row carrying the id has the new flag after the update. */
  lemma SetAvailabilityFlag(slots: seq<Slot>, id: SlotId, isAvailable: bool, s: Slot)
    requires s in SetAvailability(slots, id, isAvailable) && s.id == id
    ensures s.isAvailable == isAvailable
  {
    var r := SetAvailability(slots, id, isAvailable);
    var k :| 0 <= k < |r| && r[k] == s;
    assert slots[k].id == id;
  }

  /** The update keeps the set of ids. */
  lemma SetAvailabilityKeepsIds(slots: seq<Slot>, id: SlotId, isAvailable: bool)
    ensures SlotIds(SetAvailability(slots, id, isAvailable)) == SlotIds(slots)
  {
    var r := SetAvailability(slots, id, isAvailable);
    forall x | x in SlotIds(r) ensures x in SlotIds(slots) {
      var k :| 0 <= k < |r| && r[k].id == x;
      assert slots[k] in slots;
    }
    forall x | x in SlotIds(slots) ensures x in SlotIds(r) {
      var k :| 0 <= k < |slots| && slots[k].id == x;
      assert r[k] in r;
    }
  }

  /** Setting the flag of a row just appended under an unused id changes that row alone. */
  lemma SetAvailabilityOfNewRow(slots: seq<Slot>, s: Slot, isAvailable: bool)
    requires s.id !in SlotIds(slots)
    ensures SetAvailability(slots + [s], s.id, isAvailable) == slots + [s.(isAvailable := isAvailable)]
  {
    var r := SetAvailability(slots + [s], s.id, isAvailable);
    forall i | 0 <= i < |slots| ensures r[i] == slots[i] {
      assert slots[i].id in SlotIds(slots);
      assert (slots + [s])[i] == slots[i];
    }
    assert (slots + [s])[|slots|] == s;
    assert r[|slots|] == s.(isAvailable := isAvailable);
  }

  /** The slot with a given id, if any (`slot.findFirst({ where: { id } })`). */
  function SlotById(slots: seq<Slot>, id: SlotId): (r: Option<Slot>)
    ensures r.Some? ==> r.value in slots && r.value.id == id
    ensures r.None? <==> id !in SlotIds(slots)
  {
    if slots == [] then None
    else if slots[0].id == id then Some(slots[0])
    else
      assert SlotIds(slots) == {slots[0].id} + SlotIds(slots[1..]) by {
        assert slots == [slots[0]] + slots[1..];
      }
      SlotById(slots[1..], id)
  }

  /** `appointment.delete({ where: { id } })`: every row with another id, in order. */
  function RemoveAppointment(appointments: seq<Appointment>, id: AppointmentId): (r: seq<Appointment>)
    ensures forall a :: a in r <==> a in appointments && a.id != id
    ensures |r| <= |appointments|
    ensures id in AppointmentIds(appointments) ==> |r| < |appointments|
  {
    if appointments == [] then []
    else
      var tail := RemoveAppointment(appointments[1..], id);
      assert AppointmentIds(appointments) == {appointments[0].id} + AppointmentIds(appointments[1..]) by {
        assert appointments == [appointments[0]] + appointments[1..];
      }
      if appointments[0].id == id then tail else [appointments[0]] + tail
  }

  /** `appointment.update({ where: { id }, data: { slotId } })`: only that row's slot id changes. */
  function SetAppointmentSlot(appointments: seq<Appointment>, id: AppointmentId, slotId: SlotId): (r: seq<Appointment>)
    ensures |r| == |appointments|
    ensures forall i :: 0 <= i < |appointments| ==>
      r[i].id == appointments[i].id && r[i].trackingId == appointments[i].trackingId &&
      r[i].name == appointments[i].name && r[i].email == appointments[i].email
    ensures forall i :: 0 <= i < |appointments| ==>
      r[i].slotId == (if appointments[i].id == id then slotId else appointments[i].slotId)
  {
    seq(|appointments|, i requires 0 <= i < |appointments| =>
      if appointments[i].id == id then appointments[i].(slotId := slotId) else appointments[i])
  }

  /** Moving an appointment to another slot keeps the set of appointment ids. */
  lemma SetAppointmentSlotKeepsIds(appointments: seq<Appointment>, id: AppointmentId, slotId: SlotId)
    ensures AppointmentIds(SetAppointmentSlot(appointments, id, slotId)) == AppointmentIds(appointments)
  {
    var r := SetAppointmentSlot(appointments, id, slotId);
    forall x | x in AppointmentIds(appointments) ensures x in AppointmentIds(r) {
      var k :| 0 <= k < |appointments| && appointments[k].id == x;
      assert r[k] in r;
    }
    forall x | x in AppointmentIds(r) ensures x in AppointmentIds(appointments) {
      var k :| 0 <= k < |r| && r[k].id == x;
      assert appointments[k] in appointments;
    }
  }

  /**
    The first appointment with this tracking id and exactly this email
    (`appointment.findFirst({ where: { trackingId, email: { equals: email } } })`).
  */
  function FirstAppointment(appointments: seq<Appointment>, trackingId: int, email: string): (r: Option<Appointment>)
    ensures r.Some? ==> r.value in appointments && r.value.trackingId == trackingId && r.value.email == email
    ensures r.None? ==> forall a :: a in appointments ==> !(a.trackingId == trackingId && a.email == email)
  {
    if appointments == [] then None
    else if appointments[0].trackingId == trackingId && appointments[0].email == email then Some(appointments[0])
    else FirstAppointment(appointments[1..], trackingId, email)
  }

  /** In a valid store a tracking id names at most one appointment, so the lookup finds that one. */
  lemma {:induction false} FirstAppointmentIsTheOne(db: Db, a: Appointment)
    requires ValidDb(db) && a in db.appointments
    ensures FirstAppointment(db.appointments, a.trackingId, a.email) == Some(a)
  {
    var r := FirstAppointment(db.appointments, a.trackingId, a.email);
    var i :| 0 <= i < |db.appointments| && db.appointments[i] == a;
    var j :| 0 <= j < |db.appointments| && db.appointments[j] == r.value;
    assert i == j;
  }

  /** A string that differs from every string in `used` (longer than all of them). */
  ghost function UnusedString(used: set<string>): (r: string)
    ensures r !in used
  {
    var n := LongestLength(used) + 1;
    seq(n, _ => 'x')
  }

  ghost function LongestLength(used: set<string>): (n: nat)
    ensures forall s :: s in used ==> |s| <= n
    decreases used
  {
    if used == {} then 0
    else
      var s :| s in used;
      var rest := LongestLength(used - {s});
      if |s| > rest then |s| else rest
  }

  /** An integer greater than every integer in `used`. */
  ghost function UnusedInt(used: seq<int>): (r: int)
    ensures forall x :: x in used ==> x < r
  {
    if used == [] then 0
    else
      var rest := UnusedInt(used[1..]);
      assert forall y :: y in used ==> y == used[0] || y in used[1..];
      if used[0] + 1 > rest then used[0] + 1 else rest
  }

  /** The data store, updated in place by the booking workflows. */
  class Store {
    var slots: seq<Slot>
    var appointments: seq<Appointment>
    var issued: seq<int>

    function State(): Db
      reads this
    {
      Db(slots, appointments, issued)
    }

    ghost predicate Valid()
      reads this
    {
      ValidDb(State())
    }

    /** A store holding any valid contents (rows written by the administrative screens, say). */
    constructor (init: Db)
      requires ValidDb(init)
      ensures Valid() && State() == init
    {
      slots, appointments, issued := init.slots, init.appointments, init.issued;
    }

    /** `slot.create(...)`: a new row with a fresh id, appended to the table. */
    method CreateSlot(date: int, startTime: int, endTime: int, isAvailable: bool) returns (s: Slot)
      requires Valid()
      modifies this
      ensures Valid()
      ensures s.id !in SlotIds(old(slots)) && s == Slot(s.id, date, startTime, endTime, isAvailable)
      ensures slots == old(slots) + [s] && appointments == old(appointments) && issued == old(issued)
    {
      assert UnusedString(SlotIds(slots)) !in SlotIds(slots);
      var id :| id !in SlotIds(slots);
      s := Slot(id, date, startTime, endTime, isAvailable);
      ValidAfterNewSlot(State(), s);
      slots := slots + [s];
    }

    /** `slot.update(...)` of the availability flag of an existing row. */
    method UpdateSlotAvailability(id: SlotId, isAvailable: bool) returns (s: Slot)
      requires Valid() && id in SlotIds(slots)
      modifies this
      ensures Valid()
      ensures slots == SetAvailability(old(slots), id, isAvailable)
      ensures appointments == old(appointments) && issued == old(issued)
      ensures s in slots && s.id == id && s.isAvailable == isAvailable
    {
      ValidAfterSetAvailability(State(), id, isAvailable);
      ghost var before := slots;
      slots := SetAvailability(slots, id, isAvailable);
      SetAvailabilityKeepsIds(before, id, isAvailable);
      s := SlotById(slots, id).value;
      SetAvailabilityFlag(before, id, isAvailable, s);
    }

    /** `appointment.create(...)`: a fresh id and a never-issued tracking id. */
    method CreateAppointment(slotId: SlotId, name: string, email: string) returns (a: Appointment)
      requires Valid() && slotId in SlotIds(slots)
      modifies this
      ensures Valid()
      ensures a.id !in AppointmentIds(old(appointments)) && a.trackingId !in old(issued)
      ensures a == Appointment(a.id, a.trackingId, slotId, name, email)
      ensures appointments == old(appointments) + [a] && issued == old(issued) + [a.trackingId]
      ensures slots == old(slots)
    {
      assert UnusedString(AppointmentIds(appointments)) !in AppointmentIds(appointments);
      var id :| id !in AppointmentIds(appointments);
      assert UnusedInt(issued) !in issued;
      var trackingId :| trackingId !in issued;
      a := Appointment(id, trackingId, slotId, name, email);
      ValidAfterNewAppointment(State(), a);
      appointments := appointments + [a];
      issued := issued + [trackingId];
    }

    /** `appointment.delete(...)` of an existing row; returns the deleted row. */
    method DeleteAppointment(a: Appointment)
      requires Valid() && a in appointments
      modifies this
      ensures Valid()
      ensures appointments == RemoveAppointment(old(appointments), a.id)
      ensures slots == old(slots) && issued == old(issued)
    {
      var k :| 0 <= k < |appointments| && appointments[k] == a;
      RemoveUniqueRow(appointments, k);
      ValidWithoutRow(State(), k);
      appointments := RemoveAppointment(appointments, a.id);
    }

    /** `appointment.update(...)` of an existing row's slot id. */
    method UpdateAppointmentSlot(id: AppointmentId, slotId: SlotId)
      requires Valid() && slotId in SlotIds(slots)
      modifies this
      ensures Valid()
      ensures appointments == SetAppointmentSlot(old(appointments), id, slotId)
      ensures slots == old(slots) && issued == old(issued)
    {
      ValidAfterSetAppointmentSlot(State(), id, slotId);
      appointments := SetAppointmentSlot(appointments, id, slotId);
    }
  }

  /** Dropping one appointment row keeps every key distinct and every reference in place. */
  lemma ValidWithoutRow(db: Db, k: int)
    requires ValidDb(db) && 0 <= k < |db.appointments|
    ensures ValidDb(db.(appointments := db.appointments[..k] + db.appointments[k + 1..]))
  {
    var r := db.appointments[..k] + db.appointments[k + 1..];
    assert forall i :: 0 <= i < |r| ==> r[i] == db.appointments[if i < k then i else i + 1];
    forall i, j | 0 <= i < j < |r|
      ensures r[i].id != r[j].id && r[i].trackingId != r[j].trackingId
    {
      var i', j' := if i < k then i else i + 1, if j < k then j else j + 1;
      assert r[i] == db.appointments[i'] && r[j] == db.appointments[j'] && i' < j';
    }
    forall a | a in r ensures a in db.appointments {
      var i :| 0 <= i < |r| && r[i] == a;
    }
  }

  /** With distinct ids, deleting by id removes exactly that one row and keeps the others in order. */
  lemma {:induction false} RemoveUniqueRow(appointments: seq<Appointment>, k: int)
    requires forall p, q :: 0 <= p < q < |appointments| ==> appointments[p].id != appointments[q].id
    requires 0 <= k < |appointments|
    ensures RemoveAppointment(appointments, appointments[k].id) == appointments[..k] + appointments[k + 1..]
  {
    var id := appointments[k].id;
    var tail := appointments[1..];
    if k == 0 {
      RemoveFirstRow(appointments);
    } else {
      assert tail[k - 1] == appointments[k];
      RemoveKeepsHead(appointments, id);
      RemoveUniqueRow(tail, k - 1);
      DropInside(appointments, k);
    }
  }

  /** Dropping element `k` of a sequence is keeping its head and dropping element `k - 1` of its tail. */
  lemma DropInside<T>(s: seq<T>, k: int)
    requires 0 < k < |s|
    ensures [s[0]] + (s[1..][..k - 1] + s[1..][k..]) == s[..k] + s[k + 1..]
  {
    assert s[1..][..k - 1] == s[1..k];
    assert s[1..][k..] == s[k + 1..];
    assert [s[0]] + s[1..k] == s[..k];
  }

  /** With distinct ids, deleting the first row's id leaves the rest. */
  lemma RemoveFirstRow(appointments: seq<Appointment>)
    requires forall p, q :: 0 <= p < q < |appointments| ==> appointments[p].id != appointments[q].id
    requires |appointments| > 0
    ensures RemoveAppointment(appointments, appointments[0].id) == appointments[1..]
  {
    var tail := appointments[1..];
    forall a | a in tail ensures a.id != appointments[0].id {
      var j :| 0 <= j < |tail| && tail[j] == a;
      assert appointments[j + 1] == a;
    }
    RemoveAbsent(tail, appointments[0].id);
  }

  /** A first row with another id stays in front. */
  lemma RemoveKeepsHead(appointments: seq<Appointment>, id: AppointmentId)
    requires |appointments| > 0 && appointments[0].id != id
    ensures RemoveAppointment(appointments, id) == [appointments[0]] + RemoveAppointment(appointments[1..], id)
  {
  }

  /** Deleting an id no row carries changes nothing. */
  lemma {:induction false} RemoveAbsent(appointments: seq<Appointment>, id: AppointmentId)
    requires forall a :: a in appointments ==> a.id != id
    ensures RemoveAppointment(appointments, id) == appointments
  {
    if appointments != [] {
      RemoveAbsent(appointments[1..], id);
    }
  }

  /** Changing a slot's availability keeps the store valid. */
  lemma ValidAfterSetAvailability(db: Db, id: SlotId, isAvailable: bool)
    requires ValidDb(db)
    ensures ValidDb(db.(slots := SetAvailability(db.slots, id, isAvailable)))
  {
    SetAvailabilityKeepsIds(db.slots, id, isAvailable);
  }

  /** Appending a slot with an unused id keeps the store valid. */
  lemma ValidAfterNewSlot(db: Db, s: Slot)
    requires ValidDb(db) && s.id !in SlotIds(db.slots)
    ensures ValidDb(db.(slots := db.slots + [s]))
  {
    var slots := db.slots + [s];
    assert SlotIds(slots) == SlotIds(db.slots) + {s.id} by {
      assert forall t :: t in slots <==> t in db.slots || t == s;
    }
    forall i, j | 0 <= i < j < |slots| ensures slots[i].id != slots[j].id {
      if j == |db.slots| { assert slots[i] in db.slots; }
    }
  }

  /** Appending an appointment with unused ids on an existing slot keeps the store valid. */
  lemma ValidAfterNewAppointment(db: Db, a: Appointment)
    requires ValidDb(db)
    requires a.id !in AppointmentIds(db.appointments) && a.trackingId !in db.issued && a.slotId in SlotIds(db.slots)
    ensures ValidDb(db.(appointments := db.appointments + [a], issued := db.issued + [a.trackingId]))
  {
    var appts := db.appointments + [a];
    forall i, j | 0 <= i < j < |appts|
      ensures appts[i].id != appts[j].id && appts[i].trackingId != appts[j].trackingId
    {
      if j == |db.appointments| { assert appts[i] in db.appointments; }
    }
  }

  /** Moving an appointment to an existing slot keeps the store valid. */
  lemma ValidAfterSetAppointmentSlot(db: Db, id: AppointmentId, slotId: SlotId)
    requires ValidDb(db) && slotId in SlotIds(db.slots)
    ensures ValidDb(db.(appointments := SetAppointmentSlot(db.appointments, id, slotId)))
  {
    var appts := SetAppointmentSlot(db.appointments, id, slotId);
    forall a | a in appts ensures a.trackingId in db.issued && a.slotId in SlotIds(db.slots) {
      var i :| 0 <= i < |appts| && appts[i] == a;
      assert db.appointments[i] in db.appointments;
    }
  }
}
