/** Time values of ECMA-262, 5th edition, sections 15.9.1.2 and 15.9.1.10 to 15.9.1.13:
    milliseconds from 1970-01-01T00:00, without time zone, leap second or NaN. */
module Clock {
  import opened Calendar

  function Day(t: int): int { t / MS_PER_DAY }
  function TimeInDay(t: int): int { t % MS_PER_DAY }
  function Hour(t: int): int { t / 3600000 % 24 }
  function Minute(t: int): int { t / 60000 % 60 }
  function Second(t: int): int { t / 1000 % 60 }
  function Milli(t: int): int { t % 1000 }

  /** MakeDate and MakeTime, sections 15.9.1.11 and 15.9.1.13. */
  function MakeDate(day: int, timeInDay: int): int { day * MS_PER_DAY + timeInDay }

  function MakeTime(h: int, mi: int, s: int, ms: int): int {
    h * 3600000 + mi * 60000 + s * 1000 + ms
  }

  predicate IsTime(h: int, mi: int, s: int, ms: int) {
    0 <= h < 24 && 0 <= mi < 60 && 0 <= s < 60 && 0 <= ms < 1000
  }

  lemma DayIs(t: int, day: int, inDay: int)
    requires t == MakeDate(day, inDay) && 0 <= inDay < MS_PER_DAY
    ensures Day(t) == day && TimeInDay(t) == inDay
  {
  }

  lemma DayParts(t: int)
    ensures t == MakeDate(Day(t), TimeInDay(t)) && 0 <= TimeInDay(t) < MS_PER_DAY
  {
  }

  lemma HourIs(t: int, day: int, h: int, rest: int)
    requires t == day * MS_PER_DAY + h * 3600000 + rest && 0 <= h < 24 && 0 <= rest < 3600000
    ensures Hour(t) == h
  {
    assert t == 3600000 * (24 * day + h) + rest;
    Floor(t, 24 * day + h, 3600000, rest);
  }

  lemma MinuteIs(t: int, hours: int, mi: int, rest: int)
    requires t == hours * 3600000 + mi * 60000 + rest && 0 <= mi < 60 && 0 <= rest < 60000
    ensures Minute(t) == mi
  {
    assert t == 60000 * (60 * hours + mi) + rest;
    Floor(t, 60 * hours + mi, 60000, rest);
  }

  lemma SecondIs(t: int, minutes: int, s: int, ms: int)
    requires t == minutes * 60000 + s * 1000 + ms && 0 <= s < 60 && 0 <= ms < 1000
    ensures Second(t) == s && Milli(t) == ms
  {
    assert t == 1000 * (60 * minutes + s) + ms;
    Floor(t, 60 * minutes + s, 1000, ms);
  }

  lemma Floor(t: int, q: int, k: int, r: int)
    requires k == 1000 || k == 60000 || k == 3600000
    requires t == k * q + r && 0 <= r < k
    ensures t / k == q && t % k == r
  {
  }

  /** The fields determine the time value ... */
  lemma FieldsOfTime(day: int, h: int, mi: int, s: int, ms: int)
    requires IsTime(h, mi, s, ms)
    ensures var t := MakeDate(day, MakeTime(h, mi, s, ms));
            && Day(t) == day && TimeInDay(t) == MakeTime(h, mi, s, ms)
            && Hour(t) == h && Minute(t) == mi && Second(t) == s && Milli(t) == ms
  {
    hide Day, TimeInDay, Hour, Minute, Second, Milli;
    var t := MakeDate(day, MakeTime(h, mi, s, ms));
    DayIs(t, day, MakeTime(h, mi, s, ms));
    HourIs(t, day, h, mi * 60000 + s * 1000 + ms);
    MinuteIs(t, 24 * day + h, mi, s * 1000 + ms);
    SecondIs(t, 60 * (24 * day + h) + mi, s, ms);
  }

  /** ... and every time value has fields. */
  lemma TimeHasFields(t: int)
    ensures IsTime(Hour(t), Minute(t), Second(t), Milli(t))
    ensures t == MakeDate(Day(t), MakeTime(Hour(t), Minute(t), Second(t), Milli(t)))
  {
    var d, h, mi, s := t / MS_PER_DAY, t / 3600000, t / 60000, t / 1000;
    Nested(t, mi, s, 1000, 60);
    Nested(t, h, mi, 60000, 60);
    Nested(t, d, h, 3600000, 24);
  }

  lemma Nested(t: int, outer: int, inner: int, k: int, n: int)
    requires (k == 1000 && n == 60) || (k == 60000 && n == 60) || (k == 3600000 && n == 24)
    requires inner == t / k && outer == t / (k * n)
    ensures inner == n * outer + inner % n
  {
    if k == 1000 {
      Quotient(t, 1000, inner);
      Quotient(t, 60000, outer);
      SixtyRemainder(inner, outer);
    } else if k == 60000 {
      Quotient(t, 60000, inner);
      Quotient(t, 3600000, outer);
      SixtyRemainder(inner, outer);
    } else {
      Quotient(t, 3600000, inner);
      Quotient(t, 86400000, outer);
      DayRemainder(inner, outer);
    }
  }

  lemma Quotient(t: int, k: int, q: int)
    requires (k == 1000 || k == 60000 || k == 3600000 || k == 86400000) && q == t / k
    ensures 0 <= t - k * q < k
  {
  }

  lemma SixtyRemainder(a: int, q: int)
    requires 0 <= a - 60 * q < 60
    ensures a % 60 == a - 60 * q
  {
  }

  lemma DayRemainder(a: int, q: int)
    requires 0 <= a - 24 * q < 24
    ensures a % 24 == a - 24 * q
  {
  }
}
