/**
  Read queries over the slot table: the date-range listing and the
  "slot at this date and time" lookup with its ten-minute tolerance.
*/
module SlotQueries {
  import opened Wrappers
  import opened Time
  import opened Store

  /** Keeps a row of the date-range listing: in range, and of the wanted availability when one is asked for. */
  predicate Listed(s: Slot, from: int, upTo: int, isAvailable: Option<bool>) {
    && (isAvailable.None? || s.isAvailable == isAvailable.value)
    && from <= s.date <= upTo
  }

  /**
    `getSlotsByDate(date, { till, isAvailable })`: the rows whose `date` lies
    in `[date, till]`, where a missing `till` means 23:59:59 of the same day
    (keeping the milliseconds of `date`), filtered by availability only when
    `isAvailable` is given. Rows keep their table order.
  */
  function SlotsByDate(rows: seq<Slot>, date: int, till: Option<int>, isAvailable: Option<bool>): (r: seq<Slot>)
    ensures |r| <= |rows|
    ensures forall s :: s in r <==> s in rows && Listed(s, date, till.GetOr(WithHours(date, 23, 59, 59)), isAvailable)
  {
    var upTo := till.GetOr(WithHours(date, 23, 59, 59));
    if rows == [] then []
    else
      var rest := SlotsByDate(rows[1..], date, till, isAvailable);
      assert forall s :: s in rows <==> s == rows[0] || s in rows[1..] by {
        assert rows == [rows[0]] + rows[1..];
      }
      if Listed(rows[0], date, upTo, isAvailable) then [rows[0]] + rest else rest
  }

  /** Without an explicit upper bound the listing stays within the calendar day of `date`. */
  lemma DefaultRangeIsOneDay(rows: seq<Slot>, date: int, isAvailable: Option<bool>, s: Slot)
    requires s in SlotsByDate(rows, date, None, isAvailable)
    ensures DayOf(s.date) == DayOf(date) && s.date >= date
  {
    var upTo := WithHours(date, 23, 59, 59);
    assert date <= s.date <= upTo;
    assert DayOf(upTo) == DayOf(date);
  }

  /** The bounds of a `findFirst` on a slot's `date` and `startTime` (both inclusive). */
  datatype Window = Window(dateFrom: int, dateTo: int, startFrom: int, startTo: int)

  predicate InWindow(s: Slot, w: Window) {
    w.dateFrom <= s.date <= w.dateTo && w.startFrom <= s.startTime <= w.startTo
  }

  /**
    The window `getSlotByDateAndTime(date, startTime)` searches, computed
    from the caller's instants: `date` with its hours, minutes and seconds
    set to zero (its milliseconds are left alone) up to 23:59:59 of that
    day, and `startTime` with seconds and milliseconds set to zero, up to
    ten minutes later.
  */
  function RequestWindow(date: int, startTime: int): (w: Window)
    ensures DayOf(w.dateFrom) == DayOf(date) && DayOf(w.dateTo) == DayOf(date)
    ensures w.dateFrom <= date <= w.dateTo
    ensures w.startFrom <= startTime < w.startFrom + MINUTE
    ensures Seconds(w.startFrom) == 0 && Millis(w.startFrom) == 0
    ensures w.startTo == w.startFrom + 10 * MINUTE
  {
    var dateFrom := WithHours(date, 0, 0, 0);
    var startFrom := WithSeconds(startTime, 0, 0);
    Decompose(date);
    Decompose(startTime);
    Decompose(startFrom);
    Window(dateFrom, WithHours(dateFrom, 23, 59, 59), startFrom, startFrom + 10 * MINUTE)
  }

  /** A slot matches the request only if it is on the requested day and starts within the tolerance. */
  lemma WindowBounds(date: int, startTime: int, s: Slot)
    requires InWindow(s, RequestWindow(date, startTime))
    ensures DayOf(s.date) == DayOf(date)
    ensures startTime - MINUTE < s.startTime <= startTime + 10 * MINUTE
  {
  }

  /** A slot dated and starting exactly at the requested instants is in the request's own window. */
  lemma RequestInOwnWindow(date: int, startTime: int, s: Slot)
    requires s.date == date && s.startTime == startTime
    ensures InWindow(s, RequestWindow(date, startTime))
  {
  }

  /**
    The date bound keeps the requested date's milliseconds, so a slot dated
    exactly midnight is not matched by a request whose date carries
    milliseconds, although it is on the same day.
  */
  lemma MidnightMissedWhenRequestHasMillis(date: int, startTime: int, s: Slot)
    requires Millis(date) > 0 && s.date == DayStart(date)
    ensures !InWindow(s, RequestWindow(date, startTime))
  {
    Decompose(date);
    var w := RequestWindow(date, startTime);
    assert w.dateFrom == DayStart(date) + Millis(date);
  }

  /** The index of the first row inside the window; `|rows|` when there is none. */
  function FirstInWindow(rows: seq<Slot>, w: Window): (i: nat)
    ensures i <= |rows|
    ensures i < |rows| ==> InWindow(rows[i], w)
    ensures forall j :: 0 <= j < i ==> !InWindow(rows[j], w)
  {
    if rows == [] then 0
    else if InWindow(rows[0], w) then 0
    else 1 + FirstInWindow(rows[1..], w)
  }

  /** `slot.findFirst({ where: { date: {gte, lte}, startTime: {gte, lte} } })`. */
  function FindSlotIn(rows: seq<Slot>, w: Window): (r: Option<Slot>)
    ensures r.None? <==> forall s :: s in rows ==> !InWindow(s, w)
    ensures r.Some? ==> r.value in rows && InWindow(r.value, w)
  {
    var i := FirstInWindow(rows, w);
    if i < |rows| then Some(rows[i]) else None
  }

  /** A row in the window with none before it is what the lookup finds. */
  lemma FirstMatchIs(rows: seq<Slot>, w: Window, i: int)
    requires 0 <= i < |rows| && InWindow(rows[i], w)
    requires forall j :: 0 <= j < i ==> !InWindow(rows[j], w)
    ensures FindSlotIn(rows, w) == Some(rows[i])
  {
    var first := FirstInWindow(rows, w);
    assert first <= i;
    assert !(first < i);
  }

  /**
    Changing availability flags moves no row in or out of a window, so the
    lookup finds the same row, with its new flag.
  */
  lemma FlagsKeepFirstMatch(rows: seq<Slot>, w: Window, id: SlotId, isAvailable: bool, s: Slot)
    requires FindSlotIn(rows, w) == Some(s)
    ensures FindSlotIn(SetAvailability(rows, id, isAvailable), w) == Some(if s.id == id then s.(isAvailable := isAvailable) else s)
  {
    var i := FirstInWindow(rows, w);
    var flagged := SetAvailability(rows, id, isAvailable);
    assert i < |rows| && rows[i] == s;
    assert flagged[i] == (if s.id == id then s.(isAvailable := isAvailable) else s);
    forall j | 0 <= j < i ensures !InWindow(flagged[j], w) {
      assert !InWindow(rows[j], w);
    }
    FirstMatchIs(flagged, w, i);
  }

  /**
    `getSlotByDateAndTime(date, startTime)`: normalises both of the caller's
    Date objects in place, then returns the first slot in the window.
  */
  method GetSlotByDateAndTime(rows: seq<Slot>, date: JsDate, startTime: JsDate) returns (slot: Option<Slot>)
    requires date != startTime
    modifies date, startTime
    ensures date.ms == WithHours(old(date.ms), 0, 0, 0)
    ensures startTime.ms == WithSeconds(old(startTime.ms), 0, 0)
    ensures slot == FindSlotIn(rows, RequestWindow(old(date.ms), old(startTime.ms)))
  {
    var _ := date.SetHours(0, 0, 0);
    var _ := startTime.SetSeconds(0, 0);
    var tillTime := startTime.ms + 10 * MINUTE;
    var dayEnd := new JsDate(date.ms);
    var dateTo := dayEnd.SetHours(23, 59, 59);
    slot := FindSlotIn(rows, Window(date.ms, dateTo, startTime.ms, tillTime));
  }
}
