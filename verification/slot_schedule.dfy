/**
  The day view of slots: eight canonical one-hour slots per day (09:00 to
  17:00), each replaced by a stored slot of that day starting at the same
  hour and minute, for every day of a range.
*/
module SlotSchedule {
  import opened Wrappers
  import opened Time
  import opened Store
  import opened SlotQueries

  /** Number of canonical slots in a day, and the hour the first one starts. */
  const SLOTS_PER_DAY: int := 8
  const FIRST_HOUR: int := 9

  /**
    A slot made up by the generator, not stored: it has no id, and its
    `date` is the Date object the generator mutates, shared by all eight.
  */
  datatype GeneratedSlot = GeneratedSlot(date: JsDate, startTime: int, endTime: int, isAvailable: bool)

  /** One entry of a day view: a stored row or a generated placeholder. */
  datatype DaySlot = Stored(row: Slot) | Generated(slot: GeneratedSlot)

  /** Start of the `k`-th canonical slot of `day`: (9 + k):00:00.000. */
  function SlotStart(day: int, k: int): (t: int)
    requires 0 <= k < SLOTS_PER_DAY
    ensures DayOf(t) == day && Hours(t) == FIRST_HOUR + k
    ensures Minutes(t) == 0 && Seconds(t) == 0 && Millis(t) == 0
  {
    Compose(day, FIRST_HOUR + k, 0, 0, 0);
    day * DAY + (FIRST_HOUR + k) * HOUR
  }

  /** Consecutive canonical slots touch: each ends where the next starts, and the last ends at 17:00. */
  lemma SlotsAreContiguous(day: int, k: int)
    requires 0 <= k < SLOTS_PER_DAY
    ensures k + 1 < SLOTS_PER_DAY ==> SlotStart(day, k) + HOUR == SlotStart(day, k + 1)
    ensures k + 1 == SLOTS_PER_DAY ==> SlotStart(day, k) + HOUR == day * DAY + 17 * HOUR
    ensures forall j :: 0 <= j < k ==> SlotStart(day, j) < SlotStart(day, k)
  {
  }

  /**
    `generate30MinSlots(date)`: despite the name, eight one-hour slots,
    09:00-10:00 up to 16:00-17:00 on the day of `date`, all available.
    Every slot's `date` is the caller's object itself, which the loop
    keeps moving and leaves at 17:00 of that day.
  */
  method Generate30MinSlots(date: JsDate) returns (slots: seq<GeneratedSlot>)
    modifies date
    ensures |slots| == SLOTS_PER_DAY
    ensures forall k :: 0 <= k < SLOTS_PER_DAY ==>
      var start := SlotStart(DayOf(old(date.ms)), k);
      slots[k] == GeneratedSlot(date, start, start + HOUR, true)
    ensures date.ms == DayStart(old(date.ms)) + 17 * HOUR
  {
    ghost var day := DayOf(date.ms);
    var _ := date.SetHoursMillis(9, 0, 0, 0);
    slots := [];
    for i := 9 to 17
      invariant |slots| == i - 9
      invariant date.ms == day * DAY + i * HOUR
      invariant forall k :: 0 <= k < i - 9 ==>
        slots[k] == GeneratedSlot(date, SlotStart(day, k), SlotStart(day, k) + HOUR, true)
    {
      Compose(day, i, 0, 0, 0);
      var startTime := date.SetHours(i, 0, 0);
      Compose(day, i + 1, 0, 0, 0);
      var endTime := date.SetHours(i + 1, 0, 0);
      assert startTime == SlotStart(day, i - 9);
      slots := slots + [GeneratedSlot(date, startTime, endTime, true)];
    }
  }

  /** The days (day numbers) that some row's `date` falls on. */
  function DaysOf(rows: seq<Slot>): set<int> {
    set s | s in rows :: DayOf(s.date)
  }

  /** The rows of one day, in table order (what the `reduce` collects under that day's key). */
  function Group(rows: seq<Slot>, day: int): (g: seq<Slot>)
    ensures |g| <= |rows|
    ensures forall s :: s in g <==> s in rows && DayOf(s.date) == day
  {
    if rows == [] then []
    else
      var last := rows[|rows| - 1];
      assert rows == rows[..|rows| - 1] + [last];
      Group(rows[..|rows| - 1], day) + (if DayOf(last.date) == day then [last] else [])
  }

  /** How many times the day loop runs: `from`, `from` + 1 day, ... while not after `until`. */
  function FillCount(from: int, until: int): nat {
    if until < from then 0 else (until - from) / 86400000 + 1
  }

  /** The loop runs the `n`-th time exactly when `from` + `n` days is not after `until`. */
  lemma FillCountBound(from: int, until: int, n: nat)
    ensures from + n * DAY <= until <==> n < FillCount(from, until)
  {
    if until >= from {
      var x := until - from;
      var q := x / 86400000;
      assert x == q * 86400000 + x % 86400000;
      if n <= q {
        assert n * 86400000 <= q * 86400000;
      } else {
        assert n * 86400000 >= (q + 1) * 86400000;
      }
    }
  }

  /** The `n` consecutive days starting at day `first`. */
  function DayRange(first: int, n: nat): (r: set<int>)
    ensures forall d :: d in r <==> first <= d < first + n
  {
    if n == 0 then {} else DayRange(first, n - 1) + {first + n - 1}
  }

  /** The days the day loop gives a key to, even when no row falls on them. */
  function FilledDays(from: int, until: int): set<int> {
    DayRange(DayOf(from), FillCount(from, until))
  }

  /** The filled days are exactly the days of `from` + `k` days, for each such instant not after `until`. */
  lemma FilledDaysAreStepsOfOneDay(from: int, until: int)
    ensures forall k: nat :: from + k * DAY <= until ==> DayOf(from + k * DAY) in FilledDays(from, until)
    ensures forall d :: d in FilledDays(from, until) ==>
      var k := d - DayOf(from); k >= 0 && from + k * DAY <= until && DayOf(from + k * DAY) == d
  {
    forall k: nat | from + k * DAY <= until
      ensures DayOf(from + k * DAY) in FilledDays(from, until)
    {
      FillCountBound(from, until, k);
      StepDay(from, k);
    }
    forall d | d in FilledDays(from, until)
      ensures var k := d - DayOf(from); k >= 0 && from + k * DAY <= until && DayOf(from + k * DAY) == d
    {
      FillCountBound(from, until, d - DayOf(from));
      StepDay(from, d - DayOf(from));
    }
  }

  /** The days rows fall on, each once, in the order of the first row on that day (the `reduce`'s key order). */
  function FirstSeenDays(rows: seq<Slot>): seq<int> {
    if rows == [] then []
    else
      var last := rows[|rows| - 1];
      var prefix := FirstSeenDays(rows[..|rows| - 1]);
      if DayOf(last.date) in prefix then prefix else prefix + [DayOf(last.date)]
  }

  /** Each day some row falls on is listed once. */
  lemma {:induction false} FirstSeenDaysOnceEach(rows: seq<Slot>)
    ensures forall d :: d in FirstSeenDays(rows) <==> d in DaysOf(rows)
    ensures forall i, j :: 0 <= i < j < |FirstSeenDays(rows)| ==> FirstSeenDays(rows)[i] != FirstSeenDays(rows)[j]
  {
    if rows != [] {
      var last := rows[|rows| - 1];
      var init := rows[..|rows| - 1];
      FirstSeenDaysOnceEach(init);
      assert forall s :: s in rows <==> s in init || s == last by {
        assert rows == init + [last];
      }
      var prefix := FirstSeenDays(init);
      var r := FirstSeenDays(rows);
      if DayOf(last.date) !in prefix {
        forall i, j | 0 <= i < j < |r| ensures r[i] != r[j] {
          if j == |prefix| {
            assert r[i] == prefix[i] && prefix[i] in prefix;
          } else {
            assert r[i] == prefix[i] && r[j] == prefix[j];
          }
        }
      }
    }
  }

  /** The keys the day loop adds in its first `n` steps: each day from `first` on that is not yet a key, in order. */
  function AddedDays(keys: seq<int>, first: int, n: nat): seq<int> {
    if n == 0 then []
    else AddedDays(keys, first, n - 1) + (if first + n - 1 in keys then [] else [first + n - 1])
  }

  /** The days added are the `n` days from `first` that were not keys already. */
  lemma {:induction false} AddedDaysMembers(keys: seq<int>, first: int, n: nat)
    ensures forall d :: d in AddedDays(keys, first, n) <==> d in DayRange(first, n) && d !in keys
  {
    if n > 0 {
      AddedDaysMembers(keys, first, n - 1);
    }
  }

  /** One more row: its day is added at the end unless an earlier row is on that day. */
  lemma FirstSeenSnoc(rows: seq<Slot>, s: Slot)
    ensures FirstSeenDays(rows + [s]) ==
      if DayOf(s.date) in FirstSeenDays(rows) then FirstSeenDays(rows) else FirstSeenDays(rows) + [DayOf(s.date)]
  {
    assert (rows + [s])[..|rows|] == rows;
  }

  /** The added days ascend strictly. */
  lemma {:induction false} AddedDaysAscend(keys: seq<int>, first: int, n: nat)
    ensures forall i, j :: 0 <= i < j < |AddedDays(keys, first, n)| ==> AddedDays(keys, first, n)[i] < AddedDays(keys, first, n)[j]
  {
    if n > 0 {
      AddedDaysAscend(keys, first, n - 1);
      AddedDaysMembers(keys, first, n - 1);
      var u := AddedDays(keys, first, n - 1);
      var r := AddedDays(keys, first, n);
      forall i, j | 0 <= i < j < |r| ensures r[i] < r[j] {
        if j < |u| {
          assert r[i] == u[i] && r[j] == u[j];
        } else {
          assert r[i] == u[i] && u[i] in u;
        }
      }
    }
  }

  /** Distinct keys followed by ascending keys not among them: no key twice. */
  lemma ConcatOnceEach(seen: seq<int>, added: seq<int>)
    requires forall i, j :: 0 <= i < j < |seen| ==> seen[i] != seen[j]
    requires forall i, j :: 0 <= i < j < |added| ==> added[i] < added[j]
    requires forall d :: d in added ==> d !in seen
    ensures forall i, j :: 0 <= i < j < |seen + added| ==> (seen + added)[i] != (seen + added)[j]
  {
    var keys := seen + added;
    forall i, j | 0 <= i < j < |keys| ensures keys[i] != keys[j] {
      if j < |seen| {
        assert keys[i] == seen[i] && keys[j] == seen[j];
      } else if |seen| <= i {
        assert keys[i] == added[i - |seen|] && keys[j] == added[j - |seen|];
      } else {
        assert keys[j] == added[j - |seen|] && added[j - |seen|] in added;
        assert keys[i] == seen[i] && seen[i] in seen;
      }
    }
  }

  /**
    The order of the days in the result: the rows' days in the order of their
    first row, then the days the loop adds, ascending, each day once.
  */
  lemma DayKeysOnceEach(rows: seq<Slot>, from: int, until: int)
    ensures var seen := FirstSeenDays(rows);
      var added := AddedDays(seen, DayOf(from), FillCount(from, until));
      && (forall i, j :: 0 <= i < j < |seen + added| ==> (seen + added)[i] != (seen + added)[j])
      && (forall i, j :: 0 <= i < j < |added| ==> added[i] < added[j])
      && (forall d :: d in seen + added <==> d in DaysOf(rows) + FilledDays(from, until))
  {
    var seen := FirstSeenDays(rows);
    var added := AddedDays(seen, DayOf(from), FillCount(from, until));
    FirstSeenDaysOnceEach(rows);
    AddedDaysMembers(seen, DayOf(from), FillCount(from, until));
    AddedDaysAscend(seen, DayOf(from), FillCount(from, until));
    ConcatOnceEach(seen, added);
  }

  /** Moving an instant by whole days moves its day by as many. */
  lemma StepDay(t: int, k: int)
    ensures DayOf(t + k * DAY) == DayOf(t) + k
  {
    assert t + k * DAY == (DayOf(t) + k) * 86400000 + t % 86400000;
  }

  /** The same hour and minute (`getHours()` and `getMinutes()` equal); seconds are not compared. */
  predicate SameClock(t: int, u: int) {
    Hours(t) == Hours(u) && Minutes(t) == Minutes(u)
  }

  /** The index of the first row starting at the same hour and minute as `t` (`Array.find`); `|rows|` if none. */
  function FirstSameClock(rows: seq<Slot>, t: int): (i: nat)
    ensures i <= |rows|
    ensures i < |rows| ==> SameClock(rows[i].startTime, t)
    ensures forall j :: 0 <= j < i ==> !SameClock(rows[j].startTime, t)
  {
    if rows == [] then 0
    else if SameClock(rows[0].startTime, t) then 0
    else 1 + FirstSameClock(rows[1..], t)
  }

  /**
    What the day view shows for the canonical slot starting at `t`: the
    first row of the day that starts at the same hour and minute, stored
    availability and all, or else an available generated slot `t`-`t`+1h.
  */
  predicate Shows(v: DaySlot, group: seq<Slot>, t: int) {
    var i := FirstSameClock(group, t);
    if i < |group| then v == Stored(group[i])
    else v.Generated? && v.slot.startTime == t && v.slot.endTime == t + HOUR && v.slot.isAvailable
  }

  /** The `map` of generated slots to `find` results over the day's rows. */
  function Overlay(generated: seq<GeneratedSlot>, group: seq<Slot>): (r: seq<DaySlot>)
    ensures |r| == |generated|
  {
    seq(|generated|, k requires 0 <= k < |generated| =>
      var i := FirstSameClock(group, generated[k].startTime);
      if i < |group| then Stored(group[i]) else Generated(generated[k]))
  }

  /** The complete eight-slot view of `day`; its placeholders share one date, left at 17:00 of that day. */
  ghost predicate ViewOf(view: seq<DaySlot>, group: seq<Slot>, day: int)
    reads set k | 0 <= k < |view| && view[k].Generated? :: view[k].slot.date
  {
    && |view| == SLOTS_PER_DAY
    && (forall k :: 0 <= k < SLOTS_PER_DAY ==> Shows(view[k], group, SlotStart(day, k)))
    && (forall j, k ::
          (0 <= j < SLOTS_PER_DAY && 0 <= k < SLOTS_PER_DAY && view[j].Generated? && view[k].Generated?) ==>
          view[j].slot.date == view[k].slot.date)
    && (forall k :: 0 <= k < SLOTS_PER_DAY && view[k].Generated? ==> view[k].slot.date.ms == day * DAY + 17 * HOUR)
  }

  /** Overlaying the rows of a day on the generated slots of that day gives the day's view. */
  lemma OverlayIsView(generated: seq<GeneratedSlot>, group: seq<Slot>, day: int, date: JsDate)
    requires |generated| == SLOTS_PER_DAY
    requires forall k :: 0 <= k < SLOTS_PER_DAY ==>
      var start := SlotStart(day, k);
      generated[k] == GeneratedSlot(date, start, start + HOUR, true)
    requires date.ms == day * DAY + 17 * HOUR
    ensures ViewOf(Overlay(generated, group), group, day)
  {
  }

  /**
    Only rows starting on the hour between 09:00 and 16:00 can appear: a row
    starting off the hour, or outside those hours, is dropped from its day's view.
  */
  lemma OffHourRowsDropped(view: seq<DaySlot>, group: seq<Slot>, day: int, row: Slot)
    requires |view| == SLOTS_PER_DAY
    requires forall k :: 0 <= k < SLOTS_PER_DAY ==> Shows(view[k], group, SlotStart(day, k))
    requires Minutes(row.startTime) != 0 || Hours(row.startTime) < FIRST_HOUR || Hours(row.startTime) >= FIRST_HOUR + SLOTS_PER_DAY
    ensures Stored(row) !in view
  {
    forall k | 0 <= k < SLOTS_PER_DAY ensures view[k] != Stored(row) {
      var t := SlotStart(day, k);
      var i := FirstSameClock(group, t);
      if i < |group| {
        assert SameClock(group[i].startTime, t);
      }
    }
  }

  /** The rows of a day no row falls on: none. */
  lemma GroupOfEmptyDay(rows: seq<Slot>, day: int)
    requires day !in DaysOf(rows)
    ensures Group(rows, day) == []
  {
  }

  /** Appending a row appends it to its own day's group and to no other. */
  lemma GroupSnoc(rows: seq<Slot>, s: Slot, day: int)
    ensures Group(rows + [s], day) == Group(rows, day) + (if DayOf(s.date) == day then [s] else [])
  {
    assert (rows + [s])[..|rows|] == rows;
  }

  /** Appending a row adds its day to the days of the rows. */
  lemma DaysSnoc(rows: seq<Slot>, s: Slot)
    ensures DaysOf(rows + [s]) == DaysOf(rows) + {DayOf(s.date)}
  {
    assert forall x :: x in rows + [s] <==> x in rows || x == s;
  }

  /** One step of the `reduce`: the row goes at the end of its day's list, which is created empty if missing. */
  lemma GroupStep(prefix: seq<Slot>, s: Slot, grouped: map<int, seq<Slot>>)
    requires grouped.Keys == DaysOf(prefix)
    requires forall d :: d in grouped ==> grouped[d] == Group(prefix, d)
    ensures var d := DayOf(s.date);
      var next := grouped[d := (if d in grouped then grouped[d] else []) + [s]];
      next.Keys == DaysOf(prefix + [s]) && forall e :: e in next ==> next[e] == Group(prefix + [s], e)
  {
    var d := DayOf(s.date);
    if d !in grouped { GroupOfEmptyDay(prefix, d); }
    GroupStepLists(prefix, s, grouped);
    DaysSnoc(prefix, s);
  }

  /** The lists after one step of the `reduce` are the groups of the longer prefix. */
  lemma GroupStepLists(prefix: seq<Slot>, s: Slot, grouped: map<int, seq<Slot>>)
    requires forall d :: d in grouped ==> grouped[d] == Group(prefix, d)
    requires DayOf(s.date) !in grouped ==> Group(prefix, DayOf(s.date)) == []
    ensures var d := DayOf(s.date);
      var next := grouped[d := (if d in grouped then grouped[d] else []) + [s]];
      forall e :: e in next ==> next[e] == Group(prefix + [s], e)
  {
    var d := DayOf(s.date);
    var next := grouped[d := (if d in grouped then grouped[d] else []) + [s]];
    forall e | e in next ensures next[e] == Group(prefix + [s], e) {
      GroupSnoc(prefix, s, e);
      if e == d {
        assert next[e] == Group(prefix, d) + [s];
      } else {
        assert next[e] == grouped[e] == Group(prefix, e);
      }
    }
  }

  /** What the `reduce` has built from `prefix`: each day's rows under its key, and the keys in first-row order. */
  predicate GroupedUpTo(prefix: seq<Slot>, grouped: map<int, seq<Slot>>, keys: seq<int>) {
    && grouped.Keys == DaysOf(prefix)
    && (forall d :: d in grouped ==> grouped[d] == Group(prefix, d))
    && keys == FirstSeenDays(prefix)
  }

  /** One step of the `reduce` extends what was built by one row. */
  lemma GroupRowStep(prefix: seq<Slot>, s: Slot, grouped: map<int, seq<Slot>>, keys: seq<int>)
    requires GroupedUpTo(prefix, grouped, keys)
    ensures var d := DayOf(s.date);
      GroupedUpTo(prefix + [s], grouped[d := (if d in grouped then grouped[d] else []) + [s]],
                  if d in grouped then keys else keys + [d])
  {
    GroupStep(prefix, s, grouped);
    FirstSeenSnoc(prefix, s);
    FirstSeenDaysOnceEach(prefix);
  }

  /** The `reduce`: rows grouped by day, and the day keys in the order they were first added. */
  method GroupByDay(rows: seq<Slot>) returns (grouped: map<int, seq<Slot>>, keys: seq<int>)
    ensures grouped.Keys == DaysOf(rows)
    ensures forall d :: d in grouped ==> grouped[d] == Group(rows, d)
    ensures forall d :: d in keys <==> d in grouped
    ensures keys == FirstSeenDays(rows)
  {
    grouped := map[];
    keys := [];
    var i := 0;
    while i < |rows|
      invariant 0 <= i <= |rows|
      invariant GroupedUpTo(rows[..i], grouped, keys)
    {
      var d := DayOf(rows[i].date);
      assert rows[..i + 1] == rows[..i] + [rows[i]];
      GroupRowStep(rows[..i], rows[i], grouped, keys);
      if d !in grouped {
        keys := keys + [d];
      }
      // `acc[date] = acc[date] ?? []`, then `acc[date].push(slot)`
      var list := if d in grouped then grouped[d] else [];
      grouped := grouped[d := list + [rows[i]]];
      i := i + 1;
    }
    assert rows[..|rows|] == rows;
    FirstSeenDaysOnceEach(rows);
  }

  /** `if (!groupedSlots[date]) groupedSlots[date] = []`: a new day gets an empty list, added as the last key. */
  method AddDay(grouped: map<int, seq<Slot>>, keys: seq<int>, d: int) returns (r: map<int, seq<Slot>>, rKeys: seq<int>)
    ensures r.Keys == grouped.Keys + {d}
    ensures forall e :: e in r ==> r[e] == (if e in grouped then grouped[e] else [])
    ensures rKeys == if d in grouped then keys else keys + [d]
  {
    r, rKeys := grouped, keys;
    if d !in grouped {
      r := grouped[d := []];
      rKeys := keys + [d];
    }
  }

  /** The key list after the loop's `n`-th day, from the list before it. */
  lemma NextDayKeys(keys: seq<int>, first: int, n: nat, before: seq<int>, after: seq<int>)
    requires before == keys + AddedDays(keys, first, n)
    requires after == if first + n in keys then before else before + [first + n]
    ensures after == keys + AddedDays(keys, first, n + 1)
  {
    if first + n !in keys {
      assert before + [first + n] == keys + (AddedDays(keys, first, n) + [first + n]);
    }
  }

  /**
    What the day loop has built after `n` days from day `first`: every visited
    day has a key (an empty list if new), the other lists are untouched, and the
    key list is the old one followed by the days added so far.
  */
  predicate FilledUpTo(grouped: map<int, seq<Slot>>, keys: seq<int>, first: int, n: nat,
                       filled: map<int, seq<Slot>>, filledKeys: seq<int>) {
    && filled.Keys == grouped.Keys + DayRange(first, n)
    && (forall d :: d in filled ==> filled[d] == (if d in grouped then grouped[d] else []))
    && filledKeys == keys + AddedDays(keys, first, n)
  }

  /** One step of the day loop: adding day `first + n` extends what was built to `n + 1` days. */
  lemma FillStep(grouped: map<int, seq<Slot>>, keys: seq<int>, first: int, n: nat,
                 filled: map<int, seq<Slot>>, filledKeys: seq<int>, next: map<int, seq<Slot>>, nextKeys: seq<int>)
    requires forall d :: d in keys <==> d in grouped
    requires FilledUpTo(grouped, keys, first, n, filled, filledKeys)
    requires next.Keys == filled.Keys + {first + n}
    requires forall e :: e in next ==> next[e] == (if e in filled then filled[e] else [])
    requires nextKeys == if first + n in filled then filledKeys else filledKeys + [first + n]
    ensures FilledUpTo(grouped, keys, first, n + 1, next, nextKeys)
  {
    var d := first + n;
    assert d !in DayRange(first, n);
    assert d in filled <==> d in keys;
    NextDayKeys(keys, first, n, filledKeys, nextKeys);
  }

  /** Once every day up to `until` is done, the map and its key list hold every visited day. */
  lemma FilledAll(grouped: map<int, seq<Slot>>, keys: seq<int>, from: int, until: int,
                  filled: map<int, seq<Slot>>, filledKeys: seq<int>)
    requires forall d :: d in keys <==> d in grouped
    requires FilledUpTo(grouped, keys, DayOf(from), FillCount(from, until), filled, filledKeys)
    ensures filled.Keys == grouped.Keys + FilledDays(from, until)
    ensures forall d :: d in filled ==> filled[d] == (if d in grouped then grouped[d] else [])
    ensures forall d :: d in filledKeys <==> d in filled
    ensures filledKeys == keys + AddedDays(keys, DayOf(from), FillCount(from, until))
  {
    AddedDaysMembers(keys, DayOf(from), FillCount(from, until));
  }

  /** The day loop: an empty list under every day from `from` while not after `until`, other keys untouched. */
  method FillDays(grouped: map<int, seq<Slot>>, keys: seq<int>, from: int, until: int)
    returns (filled: map<int, seq<Slot>>, filledKeys: seq<int>)
    requires forall d :: d in keys <==> d in grouped
    ensures filled.Keys == grouped.Keys + FilledDays(from, until)
    ensures forall d :: d in filled ==> filled[d] == (if d in grouped then grouped[d] else [])
    ensures forall d :: d in filledKeys <==> d in filled
    ensures filledKeys == keys + AddedDays(keys, DayOf(from), FillCount(from, until))
  {
    filled, filledKeys := grouped, keys;
    var currDate := new JsDate(from);
    ghost var n: nat := 0;
    while currDate.ms <= until
      invariant n <= FillCount(from, until)
      invariant currDate.ms == from + n * DAY
      invariant FilledUpTo(grouped, keys, DayOf(from), n, filled, filledKeys)
      decreases until - currDate.ms
    {
      assert n < FillCount(from, until) by { FillCountBound(from, until, n); }
      var d := DayOf(currDate.ms);
      assert d == DayOf(from) + n by { StepDay(from, n); }
      ghost var (before, beforeKeys) := (filled, filledKeys);
      filled, filledKeys := AddDay(filled, filledKeys, d);
      FillStep(grouped, keys, DayOf(from), n, before, beforeKeys, filled, filledKeys);
      currDate.AddOneDay();
      n := n + 1;
    }
    FillCountBound(from, until, n);
    FilledAll(grouped, keys, from, until, filled, filledKeys);
  }

  /** One day of the overlay: the generated grid for day `d` with that day's stored rows laid over it. */
  method OverlayDay(group: seq<Slot>, d: int) returns (view: seq<DaySlot>)
    ensures ViewOf(view, group, d)
  {
    var dayDate := new JsDate(d * DAY);
    Compose(d, 0, 0, 0, 0);
    var generated := Generate30MinSlots(dayDate);
    OverlayIsView(generated, group, d, dayDate);
    view := Overlay(generated, group);
  }

  /** The `forEach` over the keys: each day's list replaced by its view. */
  method OverlayDays(grouped: map<int, seq<Slot>>, keys: seq<int>) returns (r: map<int, seq<DaySlot>>)
    requires forall d :: d in keys <==> d in grouped
    ensures r.Keys == grouped.Keys
    ensures forall d :: d in r ==> ViewOf(r[d], grouped[d], d)
  {
    r := map d | d in grouped :: seq(|grouped[d]|, k requires 0 <= k < |grouped[d]| => Stored(grouped[d][k]));
    assert forall p :: 0 <= p < |keys| ==> keys[p] in keys;
    var e := 0;
    while e < |keys|
      invariant 0 <= e <= |keys|
      invariant r.Keys == grouped.Keys
      invariant forall p :: 0 <= p < e ==> keys[p] in grouped && ViewOf(r[keys[p]], grouped[keys[p]], keys[p])
    {
      var d := keys[e];
      ghost var before := r;
      var view := OverlayDay(grouped[d], d);
      r := r[d := view];
      forall p | 0 <= p <= e
        ensures keys[p] in grouped && ViewOf(r[keys[p]], grouped[keys[p]], keys[p])
      {
        if keys[p] != d {
          assert r[keys[p]] == before[keys[p]];
        }
      }
      e := e + 1;
    }
    forall d | d in r
      ensures ViewOf(r[d], grouped[d], d)
    {
      var p :| 0 <= p < |keys| && keys[p] == d;
    }
  }

  /**
    `getAllSlotsByDate({ from, to })`: the stored rows whose `date` lies in
    `[from, to]` (`until` here), grouped by day, with a key for every day the day loop
    visits, and each day's list replaced by its eight-slot view. The
    record's keys, in the order `Object.entries` lists them, are `keys`:
    the rows' days in the order of their first row, then the days the loop
    adds, ascending (`DayKeysOnceEach`).
  */
  method GetAllSlotsByDate(table: seq<Slot>, from: int, until: int) returns (r: map<int, seq<DaySlot>>, keys: seq<int>)
    ensures var rows := SlotsByDate(table, from, Some(until), None);
      r.Keys == DaysOf(rows) + FilledDays(from, until)
    ensures forall d :: d in keys <==> d in r
    ensures var seen := FirstSeenDays(SlotsByDate(table, from, Some(until), None));
      keys == seen + AddedDays(seen, DayOf(from), FillCount(from, until))
    ensures forall d :: d in r ==> |r[d]| == SLOTS_PER_DAY
    ensures var rows := SlotsByDate(table, from, Some(until), None);
      forall d, k :: d in r && 0 <= k < SLOTS_PER_DAY ==> Shows(r[d][k], Group(rows, d), SlotStart(d, k))
    ensures forall d, j, k ::
      (d in r && 0 <= j < SLOTS_PER_DAY && 0 <= k < SLOTS_PER_DAY && r[d][j].Generated? && r[d][k].Generated?) ==>
      r[d][j].slot.date == r[d][k].slot.date
    ensures forall d, k :: d in r && 0 <= k < SLOTS_PER_DAY && r[d][k].Generated? ==>
      r[d][k].slot.date.ms == d * DAY + 17 * HOUR
  {
    var rows := SlotsByDate(table, from, Some(until), None);
    var grouped;
    grouped, keys := GroupByDay(rows);
    grouped, keys := FillDays(grouped, keys, from, until);
    forall d | d in grouped
      ensures grouped[d] == Group(rows, d)
    {
      if d !in DaysOf(rows) { GroupOfEmptyDay(rows, d); }
    }

    r := OverlayDays(grouped, keys);
    forall d | d in r
      ensures ViewOf(r[d], Group(rows, d), d)
    {
    }
  }
}
