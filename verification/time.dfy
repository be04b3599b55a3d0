/**
  Instants and the parts of JavaScript's `Date` that the booking code uses.

  An instant is a whole number of milliseconds since the epoch, read in one
  fixed zone without daylight-saving shifts, so a calendar day is exactly
  86 400 000 ms and the local fields of an instant are plain divisions.
  Dafny's `/` and `%` with a positive divisor round towards minus infinity,
  which is how a calendar reads instants before the epoch as well.
*/
module Time {

  const SECOND: int := 1000
  const MINUTE: int := 60000
  const HOUR: int := 3600000
  const DAY: int := 86400000

  /** The calendar day (days since the epoch) an instant falls on. */
  function DayOf(t: int): int { t / 86400000 }

  /** Midnight of the day `t` falls on. */
  function DayStart(t: int): int { DayOf(t) * 86400000 }

  /** `getHours()`, `getMinutes()`, `getSeconds()`, `getMilliseconds()`. */
  function Hours(t: int): int { (t % 86400000) / 3600000 }
  function Minutes(t: int): int { (t % 3600000) / 60000 }
  function Seconds(t: int): int { (t % 60000) / 1000 }
  function Millis(t: int): int { t % 1000 }

  /** The local fields of an instant put it back together. */
  lemma Decompose(t: int)
    ensures 0 <= Hours(t) < 24 && 0 <= Minutes(t) < 60 && 0 <= Seconds(t) < 60 && 0 <= Millis(t) < 1000
    ensures t == DayStart(t) + Hours(t) * HOUR + Minutes(t) * MINUTE + Seconds(t) * SECOND + Millis(t)
  {
    var rem := t % DAY;
    var h, rem2 := rem / HOUR, rem % HOUR;
    var m, rem3 := rem2 / MINUTE, rem2 % MINUTE;
    var s, ms := rem3 / SECOND, rem3 % SECOND;
    assert t == DayOf(t) * DAY + h * HOUR + m * MINUTE + s * SECOND + ms;
    Compose(DayOf(t), h, m, s, ms);
  }

  /** Reading the fields of an instant built from in-range fields gives them back. */
  lemma Compose(day: int, h: int, m: int, s: int, ms: int)
    requires 0 <= h < 24 && 0 <= m < 60 && 0 <= s < 60 && 0 <= ms < 1000
    ensures var t := day * DAY + h * HOUR + m * MINUTE + s * SECOND + ms;
      DayOf(t) == day && Hours(t) == h && Minutes(t) == m && Seconds(t) == s && Millis(t) == ms
  {
    var sub := s * SECOND + ms;
    var rest := m * MINUTE + sub;
    var x := h * HOUR + rest;
    DivByDay(day, x);
    DivByHour(h, rest);
    DivByHour(day * 24 + h, rest);
    DivByMinute(m, sub);
    DivByMinute((day * 24 + h) * 60 + m, sub);
    DivBySecond(s, ms);
    DivBySecond(((day * 24 + h) * 60 + m) * 60 + s, ms);
  }

  // Quotient and remainder by each unit are determined by `q * unit + r` with `0 <= r < unit`.

  lemma DivByDay(q: int, r: int)
    requires 0 <= r < 86400000
    ensures (q * 86400000 + r) / 86400000 == q && (q * 86400000 + r) % 86400000 == r
  {
  }

  lemma DivByHour(q: int, r: int)
    requires 0 <= r < 3600000
    ensures (q * 3600000 + r) / 3600000 == q && (q * 3600000 + r) % 3600000 == r
  {
  }

  lemma DivByMinute(q: int, r: int)
    requires 0 <= r < 60000
    ensures (q * 60000 + r) / 60000 == q && (q * 60000 + r) % 60000 == r
  {
  }

  lemma DivBySecond(q: int, r: int)
    requires 0 <= r < 1000
    ensures (q * 1000 + r) / 1000 == q && (q * 1000 + r) % 1000 == r
  {
  }

  /**
    The instant `date.setHours(h, m, s)` produces: the same day and the
    same milliseconds, with the hours, minutes and seconds replaced.
    (Out-of-range arguments carry into the neighbouring units, which in a
    fixed zone is plain addition, so no argument is refused.)
  */
  function WithHours(t: int, h: int, m: int, s: int): (r: int)
    ensures 0 <= h < 24 && 0 <= m < 60 && 0 <= s < 60 ==>
      DayOf(r) == DayOf(t) && Hours(r) == h && Minutes(r) == m && Seconds(r) == s && Millis(r) == Millis(t)
  {
    var r := DayStart(t) + h * HOUR + m * MINUTE + s * SECOND + Millis(t);
    assert 0 <= h < 24 && 0 <= m < 60 && 0 <= s < 60 ==>
      DayOf(r) == DayOf(t) && Hours(r) == h && Minutes(r) == m && Seconds(r) == s && Millis(r) == Millis(t)
    by {
      if 0 <= h < 24 && 0 <= m < 60 && 0 <= s < 60 { Compose(DayOf(t), h, m, s, Millis(t)); }
    }
    r
  }

  /** The instant `date.setHours(h, m, s, ms)` produces: every time-of-day field replaced. */
  function WithHoursMillis(t: int, h: int, m: int, s: int, ms: int): (r: int)
    ensures 0 <= h < 24 && 0 <= m < 60 && 0 <= s < 60 && 0 <= ms < 1000 ==>
      DayOf(r) == DayOf(t) && Hours(r) == h && Minutes(r) == m && Seconds(r) == s && Millis(r) == ms
  {
    var r := DayStart(t) + h * HOUR + m * MINUTE + s * SECOND + ms;
    assert 0 <= h < 24 && 0 <= m < 60 && 0 <= s < 60 && 0 <= ms < 1000 ==>
      DayOf(r) == DayOf(t) && Hours(r) == h && Minutes(r) == m && Seconds(r) == s && Millis(r) == ms
    by {
      if 0 <= h < 24 && 0 <= m < 60 && 0 <= s < 60 && 0 <= ms < 1000 { Compose(DayOf(t), h, m, s, ms); }
    }
    r
  }

  /** The instant `date.setSeconds(s, ms)` produces: day, hours and minutes kept. */
  function WithSeconds(t: int, s: int, ms: int): (r: int)
    ensures 0 <= s < 60 && 0 <= ms < 1000 ==>
      DayOf(r) == DayOf(t) && Hours(r) == Hours(t) && Minutes(r) == Minutes(t) &&
      Seconds(r) == s && Millis(r) == ms
  {
    var r := t - t % MINUTE + s * SECOND + ms;
    assert 0 <= s < 60 && 0 <= ms < 1000 ==>
      DayOf(r) == DayOf(t) && Hours(r) == Hours(t) && Minutes(r) == Minutes(t) &&
      Seconds(r) == s && Millis(r) == ms
    by {
      if 0 <= s < 60 && 0 <= ms < 1000 {
        Decompose(t);
        var whole := (DayOf(t) * 24 + Hours(t)) * 60 + Minutes(t);
        DivByMinute(whole, Seconds(t) * SECOND + Millis(t));
        assert r == whole * MINUTE + s * SECOND + ms;
        Compose(DayOf(t), Hours(t), Minutes(t), s, ms);
      }
    }
    r
  }

  /** A mutable JavaScript `Date`: the booking code changes these in place. */
  class JsDate {
    var ms: int

    /** `new Date(ms)`, also `new Date(other)` (a copy of another date's instant). */
    constructor (ms: int)
      ensures this.ms == ms
    {
      this.ms := ms;
    }

    /** `date.setHours(h, m, s)`: updates the date and returns its new instant. */
    method SetHours(h: int, m: int, s: int) returns (t: int)
      modifies this
      ensures ms == WithHours(old(ms), h, m, s) && t == ms
    {
      ms := WithHours(ms, h, m, s);
      t := ms;
    }

    /** `date.setHours(h, m, s, milli)`. */
    method SetHoursMillis(h: int, m: int, s: int, milli: int) returns (t: int)
      modifies this
      ensures ms == WithHoursMillis(old(ms), h, m, s, milli) && t == ms
    {
      ms := WithHoursMillis(ms, h, m, s, milli);
      t := ms;
    }

    /** `date.setSeconds(s, milli)`. */
    method SetSeconds(s: int, milli: int) returns (t: int)
      modifies this
      ensures ms == WithSeconds(old(ms), s, milli) && t == ms
    {
      ms := WithSeconds(ms, s, milli);
      t := ms;
    }

    /** `date.setDate(date.getDate() + 1)`: the same time of day, one day later. */
    method AddOneDay()
      modifies this
      ensures ms == old(ms) + DAY
      ensures DayOf(ms) == DayOf(old(ms)) + 1
    {
      ms := ms + DAY;
    }
  }
}
