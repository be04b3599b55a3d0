/**
  `findOrCreateSlot`: turns a requested date and start time into a slot,
  reusing an available stored slot that starts within ten minutes of the
  request, refusing an unavailable one, and otherwise creating a new,
  already-unavailable slot.
*/
module SlotResolver {
  import opened Wrappers
  import opened Time
  import opened Store
  import opened SlotQueries

  /** The options object: every field may be absent. */
  datatype SlotRequest = SlotRequest(id: Option<SlotId>, date: Option<int>, startTime: Option<int>, endTime: Option<int>)

  /**
    What the call gives back: `{ slot }` for a reused slot, `{ slot, new: true }`
    for a created one, `{ error }`, or an exception (when an id is given
    without both a date and a start time, the creation step dereferences
    or validates a missing field and throws).
  */
  datatype Resolution = Existing(slot: Slot) | Created(slot: Slot) | Refused(error: string) | Threw

  const SLOT_NOT_AVAILABLE: string := "Slot not available."
  const INVALID_OPTIONS: string := "Invalid options"

  /** Length of a created slot when no end time is given: 60 minutes. */
  const DEFAULT_LENGTH: int := 60 * MINUTE

  /** `id` is truthy: present and not the empty string. */
  predicate HasId(req: SlotRequest) {
    req.id.Some? && req.id.value != ""
  }

  /** The `slot` field of the result. */
  function SlotOf(r: Resolution): Option<Slot> {
    if r.Existing? || r.Created? then Some(r.slot) else None
  }

  /** The `error` field of the result. */
  function ErrorOf(r: Resolution): Option<string> {
    if r.Refused? then Some(r.error) else None
  }

  /**
    The effect of `findOrCreateSlot(req)` on the slot table and its result,
    with `newId` the id the store gives a slot it creates.
  */
  function Resolve(slots: seq<Slot>, req: SlotRequest, newId: SlotId): (r: (seq<Slot>, Resolution))
    ensures r.1.Refused? || r.1.Existing? || r.1.Threw? ==> r.0 == slots
    ensures r.1 == Refused(INVALID_OPTIONS) <==> !HasId(req) && (req.date.None? || req.startTime.None?)
    ensures r.1.Threw? <==> HasId(req) && (req.date.None? || req.startTime.None?)
    ensures r.1.Refused? ==> r.1.error in {INVALID_OPTIONS, SLOT_NOT_AVAILABLE}
  {
    var existing :=
      if HasId(req) || req.date.None? || req.startTime.None? then None
      else FindSlotIn(slots, RequestWindow(req.date.value, req.startTime.value));
    if !HasId(req) && (req.date.None? || req.startTime.None?) then (slots, Refused(INVALID_OPTIONS))
    else if existing.Some? && !existing.value.isAvailable then (slots, Refused(SLOT_NOT_AVAILABLE))
    else if existing.Some? then (slots, Existing(existing.value))
    else if req.date.None? || req.startTime.None? then (slots, Threw)
    else
      var s := Slot(newId, req.date.value, req.startTime.value,
                    req.endTime.GetOr(req.startTime.value + DEFAULT_LENGTH), false);
      (slots + [s], Created(s))
  }

  /**
    What each outcome of `Resolve` means: a reused slot is a free stored slot
    in the request's window; a refusal for unavailability has an unavailable
    slot in that window; a created slot is the requested one, appended, and
    (without an id) no stored slot was in the window.
  */
  lemma ResolveOutcomes(slots: seq<Slot>, req: SlotRequest, newId: SlotId)
    ensures var (slots', r) := Resolve(slots, req, newId);
      r.Existing? ==>
        && !HasId(req) && r.slot in slots && r.slot.isAvailable
        && InWindow(r.slot, RequestWindow(req.date.value, req.startTime.value))
    ensures var (slots', r) := Resolve(slots, req, newId);
      r == Refused(SLOT_NOT_AVAILABLE) ==>
        && !HasId(req) && req.date.Some? && req.startTime.Some?
        && exists s :: s in slots && !s.isAvailable && InWindow(s, RequestWindow(req.date.value, req.startTime.value))
    ensures var (slots', r) := Resolve(slots, req, newId);
      r.Created? ==>
        && req.date.Some? && req.startTime.Some?
        && r.slot == Slot(newId, req.date.value, req.startTime.value,
                          req.endTime.GetOr(req.startTime.value + DEFAULT_LENGTH), false)
        && slots' == slots + [r.slot]
        && (!HasId(req) ==> forall s :: s in slots ==> !InWindow(s, RequestWindow(req.date.value, req.startTime.value)))
  {
  }

  /**
    `findOrCreateSlot(req)` on the store. The lookup gets copies of the
    caller's dates, so the request itself is not normalised; a created slot
    keeps the instants exactly as requested.
  */
  method FindOrCreateSlot(store: Store, req: SlotRequest) returns (r: Resolution, ghost newId: SlotId)
    requires store.Valid()
    modifies store
    ensures store.Valid()
    ensures newId !in SlotIds(old(store.slots))
    ensures (store.slots, r) == Resolve(old(store.slots), req, newId)
    ensures store.appointments == old(store.appointments) && store.issued == old(store.issued)
  {
    newId := UnusedString(SlotIds(store.slots));
    ghost var slots := store.slots;
    var slot: Option<Slot> := None;
    if !HasId(req) {
      if req.date.Some? && req.startTime.Some? {
        var existing := LookUpCopies(store.slots, req.date.value, req.startTime.value);
        if existing.Some? {
          if !existing.value.isAvailable {
            ResolveFound(slots, req, newId, existing.value);
            return Refused(SLOT_NOT_AVAILABLE), newId;
          }
          slot := existing;
        }
      } else {
        assert Resolve(slots, req, newId) == (slots, Refused(INVALID_OPTIONS));
        return Refused(INVALID_OPTIONS), newId;
      }
    }

    if slot.None? {
      if req.date.None? || req.startTime.None? {
        assert Resolve(slots, req, newId) == (slots, Threw);
        return Threw, newId;
      }
      var endTime := if req.endTime.Some? then req.endTime.value else req.startTime.value + DEFAULT_LENGTH;
      var s := CreateNewSlot(store, req.date.value, req.startTime.value, endTime);
      newId := s.id;
      ResolveCreates(slots, req, newId);
      return Created(s), newId;
    }
    r := Existing(slot.value);
    ResolveFound(slots, req, newId, slot.value);
  }

  /** With no id, a stored match decides the outcome: reused when free, refused otherwise. */
  lemma ResolveFound(slots: seq<Slot>, req: SlotRequest, newId: SlotId, s: Slot)
    requires !HasId(req) && req.date.Some? && req.startTime.Some?
    requires FindSlotIn(slots, RequestWindow(req.date.value, req.startTime.value)) == Some(s)
    ensures Resolve(slots, req, newId) == (slots, if s.isAvailable then Existing(s) else Refused(SLOT_NOT_AVAILABLE))
  {
  }

  /** Given both instants and nothing stored to reuse (or an id), the requested slot is appended under `newId`. */
  lemma ResolveCreates(slots: seq<Slot>, req: SlotRequest, newId: SlotId)
    requires req.date.Some? && req.startTime.Some?
    requires !HasId(req) ==> FindSlotIn(slots, RequestWindow(req.date.value, req.startTime.value)).None?
    ensures var s := Slot(newId, req.date.value, req.startTime.value,
                          req.endTime.GetOr(req.startTime.value + DEFAULT_LENGTH), false);
      Resolve(slots, req, newId) == (slots + [s], Created(s))
  {
  }

  /** The creation step: a new, unavailable slot appended under a fresh id. */
  method CreateNewSlot(store: Store, date: int, startTime: int, endTime: int) returns (s: Slot)
    requires store.Valid()
    modifies store
    ensures store.Valid()
    ensures s.id !in SlotIds(old(store.slots)) && s == Slot(s.id, date, startTime, endTime, false)
    ensures store.slots == old(store.slots) + [s]
    ensures store.appointments == old(store.appointments) && store.issued == old(store.issued)
  {
    s := store.CreateSlot(date, startTime, endTime, false);
  }

  /** `getSlotByDateAndTime(new Date(date), new Date(startTime))`: the lookup on copies, leaving the request alone. */
  method LookUpCopies(slots: seq<Slot>, date: int, startTime: int) returns (existing: Option<Slot>)
    ensures existing == FindSlotIn(slots, RequestWindow(date, startTime))
  {
    var dateCopy := new JsDate(date);
    var startCopy := new JsDate(startTime);
    existing := GetSlotByDateAndTime(slots, dateCopy, startCopy);
  }

  /** An id in the request is never looked up: with a date and a start time a new slot is always created. */
  lemma IdAlwaysCreates(slots: seq<Slot>, req: SlotRequest, newId: SlotId)
    requires HasId(req) && req.date.Some? && req.startTime.Some?
    ensures Resolve(slots, req, newId).1.Created?
  {
  }

  /** A slot is handed out only if it is free or brand new; a new slot starts out unavailable. */
  lemma HandsOutOnlyFreeOrNewSlots(slots: seq<Slot>, req: SlotRequest, newId: SlotId)
    requires newId !in SlotIds(slots)
    ensures var r := Resolve(slots, req, newId).1;
      (r.Existing? ==> r.slot.isAvailable && r.slot in slots)
      && (r.Created? ==> r.slot.id !in SlotIds(slots) && !r.slot.isAvailable)
  {
  }

  /** With no id, the first stored slot in the window decides: reused when free, refused otherwise. */
  lemma FirstMatchDecides(slots: seq<Slot>, req: SlotRequest, newId: SlotId, k: int)
    requires !HasId(req) && req.date.Some? && req.startTime.Some?
    requires 0 <= k < |slots| && InWindow(slots[k], RequestWindow(req.date.value, req.startTime.value))
    requires forall j :: 0 <= j < k ==> !InWindow(slots[j], RequestWindow(req.date.value, req.startTime.value))
    ensures Resolve(slots, req, newId) ==
      (slots, if slots[k].isAvailable then Existing(slots[k]) else Refused(SLOT_NOT_AVAILABLE))
  {
  }

  /** A row appended to a table with nothing in the window, itself in the window, is the first match there. */
  lemma {:induction false} AppendedMatchIsFirst(slots: seq<Slot>, s: Slot, w: Window)
    requires InWindow(s, w)
    requires forall t :: t in slots ==> !InWindow(t, w)
    ensures FindSlotIn(slots + [s], w) == Some(s)
  {
    if slots == [] {
      assert [s][0] == s;
    } else {
      AppendedMatchIsFirst(slots[1..], s, w);
      assert (slots + [s])[1..] == slots[1..] + [s];
      assert slots[0] in slots;
    }
  }

  /** A slot created for a request lies in that request's window and is the first stored slot there afterwards. */
  lemma CreatedSlotIsNextMatch(slots: seq<Slot>, req: SlotRequest, newId: SlotId)
    requires !HasId(req)
    requires Resolve(slots, req, newId).1.Created?
    ensures req.date.Some? && req.startTime.Some?
    ensures var (slots1, r) := Resolve(slots, req, newId);
      var w := RequestWindow(req.date.value, req.startTime.value);
      InWindow(r.slot, w) && FindSlotIn(slots1, w) == Some(r.slot)
  {
    var (slots1, r) := Resolve(slots, req, newId);
    ResolveOutcomes(slots, req, newId);
    var w := RequestWindow(req.date.value, req.startTime.value);
    RequestInOwnWindow(req.date.value, req.startTime.value, r.slot);
    AppendedMatchIsFirst(slots, r.slot, w);
  }

  /** Repeating a request that created a slot is refused: the new slot is the match, and it is unavailable. */
  lemma RepeatAfterCreateIsRefused(slots: seq<Slot>, req: SlotRequest, newId: SlotId, newId2: SlotId)
    requires !HasId(req)
    requires Resolve(slots, req, newId).1.Created?
    ensures Resolve(Resolve(slots, req, newId).0, req, newId2).1 == Refused(SLOT_NOT_AVAILABLE)
  {
    var (slots1, r) := Resolve(slots, req, newId);
    CreatedSlotIsNextMatch(slots, req, newId);
    ResolveFound(slots1, req, newId2, r.slot);
  }
}
