/** The mutating date methods: month clamping, `set`, week setting and weekday moves. */
module Dates {
  import opened Wrappers
  import opened Calendar
  import opened Clock
  import opened Week

  function Min(a: int, b: int): int { if a <= b then a else b }

  // ---- reference functions on time values ----

  function MonthCount(day: int): int { 12 * YearOf(day) + MonthOf(day) }

  /** The same time of day on the given calendar day. */
  function OnDay(t: int, day: int): int { MakeDate(day, TimeInDay(t)) }

  /** The day with the given month count whose date is `d`, or the month's last if it has no `d`. */
  function Clamped(count: int, d: int): int {
    MakeDay(count / 12, count % 12, Min(d, DaysInMonth(count / 12, count % 12)))
  }

  lemma ClampedFields(count: int, d: int)
    requires d >= 1
    ensures var day := Clamped(count, d);
            && YearOf(day) == count / 12 && MonthOf(day) == count % 12 && MonthCount(day) == count
            && DateOf(day) == Min(d, DaysInMonth(count / 12, count % 12))
  {
    hide MakeDay, YearOf, MonthOf, DateOf;
    FieldsOfMadeDay(count / 12, count % 12, Min(d, DaysInMonth(count / 12, count % 12)));
  }

  lemma CountParts(y: int, m: int)
    requires IsMonth(m)
    ensures (12 * y + m) / 12 == y && (12 * y + m) % 12 == m
  {
  }

  lemma OnDayParts(t: int, day: int)
    ensures Day(OnDay(t, day)) == day && TimeInDay(OnDay(t, day)) == TimeInDay(t)
  {
    DayParts(t);
    DayIs(OnDay(t, day), day, TimeInDay(t));
  }

  lemma SameDay(t: int)
    ensures OnDay(t, Day(t)) == t
  {
    DayParts(t);
  }

  /** `getWeek` of a day. */
  function WeekOfDay(day: int): int {
    WeekNumber(YearOf(day), MonthOf(day) + 1, DateOf(day))
  }

  /** The first day strictly after `day` that falls on weekday `w`. */
  predicate IsNext(day: int, w: int, r: int) {
    day < r <= day + 7 && WeekDay(r) == w
  }

  /** The last day strictly before `day` that falls on weekday `w`. */
  predicate IsPrevious(day: int, w: int, r: int) {
    day - 7 <= r < day && WeekDay(r) == w
  }

  function Following(day: int, w: int): (r: int)
    requires 0 <= w <= 6
    ensures IsNext(day, w, r)
  {
    WeekDayShift(day, day + 1 + (w - WeekDay(day) - 1) % 7, w);
    day + 1 + (w - WeekDay(day) - 1) % 7
  }

  lemma WeekDayShift(day: int, r: int, w: int)
    requires 0 <= w <= 6
    requires r == day + 1 + (w - WeekDay(day) - 1) % 7
    ensures WeekDay(r) == w
  {
    var q := (day + 4) / 7;
    var p := (w - WeekDay(day) - 1) / 7;
    assert r + 4 == 7 * (q - p) + w;
  }

  lemma SameWeekDay(a: int, b: int)
    ensures WeekDay(a) == WeekDay(b) <==> (b - a) % 7 == 0
  {
    var p, q := (a + 4) / 7, (b + 4) / 7;
    var d := (b - a) / 7;
    assert b - a == 7 * (q - p) + WeekDay(b) - WeekDay(a);
  }

  // ---- what `set` is asked to do ----

  datatype Field = MillisecondField | SecondField | MinuteField | HourField | MonthField | YearField | DayField | WeekField

  datatype Outcome = Done | RangeError(field: Field)

  datatype Config = Config(millisecond: Option<int>, second: Option<int>, minute: Option<int>, hour: Option<int>,
                           month: Option<int>, year: Option<int>, day: Option<int>, week: Option<int>)
  {
    predicate Within(field: Option<int>, low: int, high: int) {
      field.Some? ==> low <= field.value <= high
    }

    /** The first clock field, in the source's order, whose validation throws. */
    function FirstBadClock(): (r: Option<Field>)
      ensures r.Some? ==> r.value.MillisecondField? || r.value.SecondField? || r.value.MinuteField? || r.value.HourField?
    {
      if !Within(millisecond, 0, 999) then Some(MillisecondField)
      else if !Within(second, 0, 59) then Some(SecondField)
      else if !Within(minute, 0, 59) then Some(MinuteField)
      else if !Within(hour, 0, 23) then Some(HourField)
      else None
    }

    /** The first field of all that throws, for a date in year `y0` and month `m0`. */
    function FirstBad(y0: int, m0: int): Option<Field>
      requires IsMonth(m0)
    {
      if FirstBadClock() != None then FirstBadClock()
      else if !Within(month, 0, 11) then Some(MonthField)
      else if !Within(year, 0, 9999) then Some(YearField)
      else if !Within(day, 1, DaysInMonth(year.Or(y0), month.Or(m0))) then Some(DayField)
      else if week != Some(0) && !Within(week, 0, 53) then Some(WeekField)
      else None
    }

    /** The part of the request that comes before a field. */
    function Before(f: Field): Config {
      var blank := Config(None, None, None, None, None, None, None, None);
      match f
      case MillisecondField => blank
      case SecondField => blank.(millisecond := millisecond)
      case MinuteField => blank.(millisecond := millisecond, second := second)
      case HourField => blank.(millisecond := millisecond, second := second, minute := minute)
      case MonthField => blank.(millisecond := millisecond, second := second, minute := minute, hour := hour)
      case YearField => this.(year := None, day := None, week := None)
      case DayField => this.(day := None, week := None)
      case WeekField => this.(week := None)
    }
  }

  /** The time of day `set` asks for; fields not given stay. */
  function NewTime(t: int, c: Config): int {
    MakeTime(c.hour.Or(Hour(t)), c.minute.Or(Minute(t)), c.second.Or(Second(t)), c.millisecond.Or(Milli(t)))
  }

  /** The date kept when no day is given: clamped once for the month and once more for the year. */
  function KeptDate(y0: int, m0: int, d0: int, c: Config): int
    requires IsMonth(m0) && (c.month.Some? ==> IsMonth(c.month.value))
  {
    var d1 := if c.month.Some? then Min(d0, DaysInMonth(y0, c.month.value)) else d0;
    if c.year.Some? then Min(d1, DaysInMonth(c.year.value, c.month.Or(m0))) else d1
  }

  /** The calendar day `set` asks for. */
  function NewDay(y0: int, m0: int, d0: int, c: Config): int
    requires IsMonth(m0) && (c.month.Some? ==> IsMonth(c.month.value))
  {
    MakeDay(c.year.Or(y0), c.month.Or(m0), c.day.Or(KeptDate(y0, m0, d0, c)))
  }

  function Target(t: int, c: Config): int
    requires c.month.Some? ==> IsMonth(c.month.value)
  {
    MakeDate(NewDay(YearOf(Day(t)), MonthOf(Day(t)), DateOf(Day(t)), c), NewTime(t, c))
  }

  /** A complete valid request gives exactly that date, whatever the starting date:
      neither of the two clamps on the way can be seen. */
  lemma SetIsExact(t: int, c: Config)
    requires c.millisecond.Some? && c.second.Some? && c.minute.Some? && c.hour.Some?
    requires c.month.Some? && c.year.Some? && c.day.Some?
    requires c.FirstBad(YearOf(Day(t)), MonthOf(Day(t))) == None
    ensures var r := Target(t, c);
            && YearOf(Day(r)) == c.year.value && MonthOf(Day(r)) == c.month.value && DateOf(Day(r)) == c.day.value
            && Hour(r) == c.hour.value && Minute(r) == c.minute.value
            && Second(r) == c.second.value && Milli(r) == c.millisecond.value
  {
    hide MakeDay, YearOf, MonthOf, DateOf, Day, Hour, Minute, Second, Milli, MakeTime, MakeDate, TimeInDay;
    FieldsOfMadeDay(c.year.value, c.month.value, c.day.value);
    FieldsOfTime(MakeDay(c.year.value, c.month.value, c.day.value),
                 c.hour.value, c.minute.value, c.second.value, c.millisecond.value);
  }

  /** With no day in the request the old date should survive up to the length of the target
      month.  It does, unless a move to February is clamped by the old, common year on the way
      to a leap year. */
  lemma ClampLeaks(y0: int, m0: int, d0: int, c: Config)
    requires IsDate(y0, m0, d0) && (c.month.Some? ==> IsMonth(c.month.value))
    ensures KeptDate(y0, m0, d0, c) == Min(d0, DaysInMonth(c.year.Or(y0), c.month.Or(m0)))
            <==> !(c.month == Some(1) && c.year.Some? && d0 >= 29 && !IsLeapYear(y0) && IsLeapYear(c.year.value))
  {
    hide IsLeapYear;
  }

  lemma TargetDay(t: int, c: Config)
    requires c.FirstBadClock() == None && (c.month.Some? ==> IsMonth(c.month.value))
    ensures Day(Target(t, c)) == NewDay(YearOf(Day(t)), MonthOf(Day(t)), DateOf(Day(t)), c)
  {
    TimeHasFields(t);
    hide YearOf, MonthOf, DateOf, Day, Hour, Minute, Second, Milli, MakeTime, TimeInDay, NewDay, MakeDate;
    FieldsOfTime(NewDay(YearOf(Day(t)), MonthOf(Day(t)), DateOf(Day(t)), c),
                 c.hour.Or(Hour(t)), c.minute.Or(Minute(t)), c.second.Or(Second(t)), c.millisecond.Or(Milli(t)));
  }

  /** Every valid request, with any fields missing: the fields that are given come out as given, and
      the others stay, but for a date that the new month does not have or that `ClampLeaks` cuts. */
  lemma SetKeeps(t: int, c: Config)
    requires c.FirstBad(YearOf(Day(t)), MonthOf(Day(t))) == None
    ensures var r := Target(t, c);
            && Hour(r) == (if c.hour.Some? then c.hour.value else Hour(t))
            && Minute(r) == (if c.minute.Some? then c.minute.value else Minute(t))
            && Second(r) == (if c.second.Some? then c.second.value else Second(t))
            && Milli(r) == (if c.millisecond.Some? then c.millisecond.value else Milli(t))
    ensures var r := Day(Target(t, c)); var y0 := YearOf(Day(t));
            && YearOf(r) == (if c.year.Some? then c.year.value else y0)
            && MonthOf(r) == (if c.month.Some? then c.month.value else MonthOf(Day(t)))
            && (c.day.Some? ==> DateOf(r) == c.day.value)
            && (c.day.None? ==>
                  var d0 := DateOf(Day(t));
                  if c.month == Some(1) && c.year.Some? && d0 >= 29 && !IsLeapYear(y0) && IsLeapYear(c.year.value) then DateOf(r) == 28
                  else DateOf(r) == Min(d0, DaysInMonth(YearOf(r), MonthOf(r))))
  {
    SetKeepsTime(t, c);
    SetKeepsDay(t, c);
  }

  lemma SetKeepsTime(t: int, c: Config)
    requires c.FirstBadClock() == None && (c.month.Some? ==> IsMonth(c.month.value))
    ensures var r := Target(t, c);
            && Day(r) == NewDay(YearOf(Day(t)), MonthOf(Day(t)), DateOf(Day(t)), c)
            && Hour(r) == c.hour.Or(Hour(t)) && Minute(r) == c.minute.Or(Minute(t))
            && Second(r) == c.second.Or(Second(t)) && Milli(r) == c.millisecond.Or(Milli(t))
  {
    TimeHasFields(t);
    hide YearOf, MonthOf, DateOf, Day, Hour, Minute, Second, Milli, MakeTime, TimeInDay, NewDay, MakeDate;
    FieldsOfTime(NewDay(YearOf(Day(t)), MonthOf(Day(t)), DateOf(Day(t)), c),
                 c.hour.Or(Hour(t)), c.minute.Or(Minute(t)), c.second.Or(Second(t)), c.millisecond.Or(Milli(t)));
  }

  lemma SetKeepsDay(t: int, c: Config)
    requires c.FirstBad(YearOf(Day(t)), MonthOf(Day(t))) == None
    ensures var r := Day(Target(t, c)); var y0 := YearOf(Day(t));
            && YearOf(r) == c.year.Or(y0) && MonthOf(r) == c.month.Or(MonthOf(Day(t)))
            && (c.day.Some? ==> DateOf(r) == c.day.value)
            && (c.day.None? ==>
                  var d0 := DateOf(Day(t));
                  if c.month == Some(1) && c.year.Some? && d0 >= 29 && !IsLeapYear(y0) && IsLeapYear(c.year.value) then DateOf(r) == 28
                  else DateOf(r) == Min(d0, DaysInMonth(YearOf(r), MonthOf(r))))
  {
    hide YearOf, MonthOf, DateOf, Day, Target, MakeDay, IsLeapYear, DaysInMonth;
    TargetDay(t, c);
    MadeDayOfFields(Day(t));
    var y0, m0, d0 := YearOf(Day(t)), MonthOf(Day(t)), DateOf(Day(t));
    ClampLeaks(y0, m0, d0, c);
    KeptIsDate(y0, m0, d0, c);
    var y, m := c.year.Or(y0), c.month.Or(m0);
    FieldsOfMadeDay(y, m, c.day.Or(KeptDate(y0, m0, d0, c)));
  }

  lemma KeptIsDate(y0: int, m0: int, d0: int, c: Config)
    requires IsDate(y0, m0, d0) && (c.month.Some? ==> IsMonth(c.month.value))
    ensures IsDate(c.year.Or(y0), c.month.Or(m0), KeptDate(y0, m0, d0, c))
    ensures c.month == Some(1) && c.year.Some? && d0 >= 29 && !IsLeapYear(y0) && IsLeapYear(c.year.value) ==> KeptDate(y0, m0, d0, c) == 28
  {
    hide IsLeapYear;
  }

  // ---- which requests are refused, and where ----

  /** The order in which `set` looks at its fields. */
  function Rank(f: Field): nat {
    match f
    case MillisecondField => 0
    case SecondField => 1
    case MinuteField => 2
    case HourField => 3
    case MonthField => 4
    case YearField => 5
    case DayField => 6
    case WeekField => 7
  }

  function Given(c: Config, f: Field): Option<int> {
    match f
    case MillisecondField => c.millisecond
    case SecondField => c.second
    case MinuteField => c.minute
    case HourField => c.hour
    case MonthField => c.month
    case YearField => c.year
    case DayField => c.day
    case WeekField => c.week
  }

  /** The value may stand there; a day is judged by the month and year that the request leads to. */
  predicate Allowed(c: Config, y0: int, m0: int, f: Field)
    requires IsMonth(m0)
  {
    Given(c, f).Some? ==>
      var n := Given(c, f).value;
      match f
      case MillisecondField => 0 <= n <= 999
      case SecondField => 0 <= n <= 59
      case MinuteField => 0 <= n <= 59
      case HourField => 0 <= n <= 23
      case MonthField => IsMonth(n)
      case YearField => 0 <= n <= 9999
      case DayField => IsMonth(c.month.Or(m0)) ==> IsDate(c.year.Or(y0), c.month.Or(m0), n)
      case WeekField => 0 <= n <= 53
  }

  /** `set` refuses a request at the first field, in its order, whose value may not stand there. */
  lemma FirstBadExactly(c: Config, y0: int, m0: int)
    requires IsMonth(m0)
    ensures c.FirstBad(y0, m0) == None <==> forall f :: Allowed(c, y0, m0, f)
    ensures forall f :: c.FirstBad(y0, m0) == Some(f)
                        <==> !Allowed(c, y0, m0, f) && forall g :: Rank(g) < Rank(f) ==> Allowed(c, y0, m0, g)
  {
    hide DaysInMonth;
    var bad := c.FirstBad(y0, m0);
    if bad.Some? {
      assert !Allowed(c, y0, m0, bad.value);
      forall g | Rank(g) < Rank(bad.value) ensures Allowed(c, y0, m0, g) { }
    } else {
      forall f ensures Allowed(c, y0, m0, f) { }
    }
    forall f, g ensures Rank(f) < Rank(g) || Rank(g) < Rank(f) || f == g { }
    hide Allowed, Rank;
  }

  /** The fields applied before an error are exactly those that come earlier in the order. */
  lemma BeforeExactly(c: Config, f: Field, g: Field)
    ensures Given(c.Before(f), g) == if Rank(g) < Rank(f) then Given(c, g) else None
  {
  }

  const FEBRUARY_2012 := Config(None, None, None, None, Some(1), Some(2012), None, None)

  lemma ClampedTwice()
    ensures KeptDate(2011, 0, 31, FEBRUARY_2012) == 28 && DaysInMonth(2012, 1) == 29
  {
  }

  lemma FebruaryDay()
    ensures NewDay(2011, 0, 31, FEBRUARY_2012) == MakeDay(2012, 1, 28)
  {
    ClampedTwice();
    hide KeptDate, MakeDay;
  }

  /** 31 January 2011, set to February 2012: the 28th, though that February has a 29th. */
  lemma ClampLeaksInFebruary(t: int)
    requires YearOf(Day(t)) == 2011 && MonthOf(Day(t)) == 0 && DateOf(Day(t)) == 31
    ensures var r := Day(Target(t, FEBRUARY_2012));
            YearOf(r) == 2012 && MonthOf(r) == 1 && DateOf(r) == 28 && DaysInMonth(2012, 1) == 29
  {
    hide MakeDay, YearOf, MonthOf, DateOf, Day, NewDay, DaysInMonth, Target;
    TargetDay(t, FEBRUARY_2012);
    FebruaryDay();
    ClampedTwice();
    FieldsOfMadeDay(2012, 1, 28);
  }

  // ---- the date object ----

  /** What a weekday word of the sugar layer answers: it tests, it moves, or it throws. */
  datatype Spoken = Is(answer: bool) | Moved | NoSuchDay

  class JsDate {
    var time: int
    // state of the fluent sugar
    var orient: int
    var nth: Option<int>
    var isTest: bool
    var isSecond: bool

    constructor (t: int)
      ensures time == t && orient == 1 && nth == None && !isTest && !isSecond
    {
      time, orient, nth, isTest, isSecond := t, 1, None, false, false;
    }

    // setDate and setMonth, sections 15.9.5.36 and 15.9.5.38

    method SetDate(d: int)
      modifies this`time
      ensures time == OnDay(old(time), MakeDay(YearOf(Day(old(time))), MonthOf(Day(old(time))), d))
    {
      time := MakeDate(MakeDay(YearOf(Day(time)), MonthOf(Day(time)), d), TimeInDay(time));
    }

    method SetMonth(m: int)
      modifies this`time
      ensures time == OnDay(old(time), MakeDay(YearOf(Day(old(time))), m, DateOf(Day(old(time)))))
    {
      time := MakeDate(MakeDay(YearOf(Day(time)), m, DateOf(Day(time))), TimeInDay(time));
    }

    /** setMilliseconds, section 15.9.5.28. */
    method SetMilliseconds(ms: int)
      modifies this`time
      ensures time == old(time) + ms - Milli(old(time))
    {
      TimeHasFields(time);
      time := MakeDate(Day(time), MakeTime(Hour(time), Minute(time), Second(time), ms));
    }

    method AddMilliseconds(v: int)
      modifies this`time
      ensures time == old(time) + v
    {
      SetMilliseconds(Milli(time) + v);
    }

    method AddSeconds(v: int)
      modifies this`time
      ensures time == old(time) + 1000 * v
    {
      AddMilliseconds(v * 1000);
    }

    method AddMinutes(v: int)
      modifies this`time
      ensures time == old(time) + 60000 * v
    {
      AddMilliseconds(v * 60000);
    }

    method AddHours(v: int)
      modifies this`time
      ensures time == old(time) + 3600000 * v
    {
      AddMilliseconds(v * 3600000);
    }

    method AddDays(v: int)
      modifies this`time
      ensures time == OnDay(old(time), Day(old(time)) + v)
    {
      ghost var day := Day(time);
      MadeDayOfFields(day);
      MakeDayOfMonth(YearOf(day), MonthOf(day), DateOf(day));
      MakeDayOfMonth(YearOf(day), MonthOf(day), DateOf(day) + v);
      hide MakeDay, YearOf, MonthOf, DateOf, Day, TimeInDay;
      SetDate(DateOf(Day(time)) + v);
    }

    method AddWeeks(v: int)
      modifies this`time
      ensures time == OnDay(old(time), Day(old(time)) + 7 * v)
    {
      AddDays(v * 7);
    }

    /** Moves the month count by exactly `v`; the date stays or becomes the last of a shorter month. */
    method AddMonths(v: int)
      modifies this`time
      ensures time == OnDay(old(time), Clamped(MonthCount(Day(old(time))) + v, DateOf(Day(old(time)))))
    {
      hide MakeDay, YearOf, MonthOf, DateOf, Day, TimeInDay, DaysInMonth, MakeDate;
      ghost var day := Day(time);
      ghost var y, m := YearOf(day), MonthOf(day);
      ghost var count := MonthCount(day) + v;
      ghost var y', m' := count / 12, count % 12;
      var n := DateOf(Day(time));
      SetDate(1);
      ghost var t1 := time;
      OnDayParts(old(time), MakeDay(y, m, 1));
      FieldsOfMadeDay(y, m, 1);
      SetMonth(MonthOf(Day(time)) + v);
      OnDayParts(t1, MakeDay(y, m + v, 1));
      MakeDayByMonthCount(y, m + v, 1, y', m');
      FieldsOfMadeDay(y', m', 1);
      ghost var t2 := time;
      assert Day(t2) == MakeDay(y', m', 1) && TimeInDay(t2) == TimeInDay(old(time));
      SetDate(Min(n, DaysInMonth(YearOf(Day(time)), MonthOf(Day(time)))));
      SameTimeOfDay(t2, old(time), Clamped(count, n));
    }

    static lemma SameTimeOfDay(t: int, u: int, day: int)
      requires TimeInDay(t) == TimeInDay(u)
      ensures OnDay(t, day) == OnDay(u, day)
    {
    }

    method AddYears(v: int)
      modifies this`time
      ensures time == OnDay(old(time), Clamped(MonthCount(Day(old(time))) + 12 * v, DateOf(Day(old(time)))))
    {
      AddMonths(v * 12);
    }

    /** The clock fields of `set`, in the source's order. */
    method SetClock(c: Config) returns (r: Outcome)
      modifies this`time
      ensures var bad := c.FirstBadClock();
              if bad == None
              then r == Done && time == MakeDate(Day(old(time)), NewTime(old(time), c))
              else r == RangeError(bad.value) && time == MakeDate(Day(old(time)), NewTime(old(time), c.Before(bad.value)))
    {
      ghost var t := time;
      ghost var day, h, mi, s, ms := Day(t), Hour(t), Minute(t), Second(t), Milli(t);
      TimeHasFields(t);
      hide Day, Hour, Minute, Second, Milli, TimeInDay;
      if c.millisecond.Some? {
        if !(0 <= c.millisecond.value <= 999) { return RangeError(MillisecondField); }
        AddMilliseconds(c.millisecond.value - Milli(time));
        ms := c.millisecond.value;
      }
      assert time == MakeDate(day, MakeTime(h, mi, s, ms));
      FieldsOfTime(day, h, mi, s, ms);
      if c.second.Some? {
        if !(0 <= c.second.value <= 59) { return RangeError(SecondField); }
        AddSeconds(c.second.value - Second(time));
        s := c.second.value;
      }
      assert time == MakeDate(day, MakeTime(h, mi, s, ms));
      FieldsOfTime(day, h, mi, s, ms);
      if c.minute.Some? {
        if !(0 <= c.minute.value <= 59) { return RangeError(MinuteField); }
        AddMinutes(c.minute.value - Minute(time));
        mi := c.minute.value;
      }
      assert time == MakeDate(day, MakeTime(h, mi, s, ms));
      FieldsOfTime(day, h, mi, s, ms);
      if c.hour.Some? {
        if !(0 <= c.hour.value <= 23) { return RangeError(HourField); }
        AddHours(c.hour.value - Hour(time));
      }
      return Done;
    }

    /** The calendar fields of `set`, in the source's order. */
    method SetCalendar(c: Config) returns (r: Outcome)
      modifies this`time
      ensures var y, m, d := YearOf(Day(old(time))), MonthOf(Day(old(time))), DateOf(Day(old(time)));
              if !c.Within(c.month, 0, 11)
              then r == RangeError(MonthField) && time == old(time)
              else if !c.Within(c.year, 0, 9999)
              then r == RangeError(YearField) && time == OnDay(old(time), NewDay(y, m, d, c.Before(YearField)))
              else if !c.Within(c.day, 1, DaysInMonth(c.year.Or(y), c.month.Or(m)))
              then r == RangeError(DayField) && time == OnDay(old(time), NewDay(y, m, d, c.Before(DayField)))
              else r == Done && time == OnDay(old(time), NewDay(y, m, d, c))
    {
      ghost var t := time;
      ghost var y, m, d := YearOf(Day(t)), MonthOf(Day(t)), DateOf(Day(t));
      MadeDayOfFields(Day(t));
      SameDay(t);
      hide MakeDay, YearOf, MonthOf, DateOf, Day, TimeInDay, DaysInMonth, OnDay, MakeDate;
      if c.month.Some? {
        if !(0 <= c.month.value <= 11) { return RangeError(MonthField); }
        AddMonths(c.month.value - MonthOf(Day(time)));
        MovedToCount(t, t, y, c.month.value, d);
        m, d := c.month.value, Min(d, DaysInMonth(y, c.month.value));
      }
      assert FieldsAre(time, t, y, m, d);
      if c.year.Some? {
        if !(0 <= c.year.value <= 9999) { return RangeError(YearField); }
        ghost var t1 := time;
        AddYears(c.year.value - YearOf(Day(time)));
        MovedToCount(t1, t, c.year.value, m, d);
        y, d := c.year.value, Min(d, DaysInMonth(c.year.value, m));
      }
      assert FieldsAre(time, t, y, m, d);
      if c.day.Some? {
        if !(1 <= c.day.value <= DaysInMonth(YearOf(Day(time)), MonthOf(Day(time)))) { return RangeError(DayField); }
        ghost var t2 := time;
        AddDays(c.day.value - DateOf(Day(time)));
        MakeDayOfMonth(y, m, d);
        MakeDayOfMonth(y, m, c.day.value);
        MovedInMonth(t2, t, MakeDay(y, m, c.day.value));
      }
      return Done;
    }

    /** `t` has the time of day of `from` and the given calendar fields. */
    static ghost predicate FieldsAre(t: int, from: int, y: int, m: int, d: int) {
      && t == OnDay(from, MakeDay(y, m, d)) && Day(t) == MakeDay(y, m, d) && TimeInDay(t) == TimeInDay(from)
      && YearOf(Day(t)) == y && MonthOf(Day(t)) == m && DateOf(Day(t)) == d && IsDate(y, m, d)
    }

    static lemma MovedToCount(t: int, from: int, y: int, m: int, d: int)
      requires IsMonth(m) && d >= 1 && TimeInDay(t) == TimeInDay(from)
      ensures FieldsAre(OnDay(t, Clamped(12 * y + m, d)), from, y, m, Min(d, DaysInMonth(y, m)))
    {
      hide MakeDay, YearOf, MonthOf, DateOf, Day, TimeInDay, DaysInMonth;
      CountParts(y, m);
      ClampedFields(12 * y + m, d);
      OnDayParts(t, Clamped(12 * y + m, d));
      SameTimeOfDay(t, from, Clamped(12 * y + m, d));
    }

    static lemma MovedInMonth(t: int, from: int, day: int)
      requires TimeInDay(t) == TimeInDay(from)
      ensures OnDay(t, day) == OnDay(from, day)
    {
    }

    /** `set`.  On an error the fields before the bad one have been applied. */
    method Set(c: Config) returns (r: Outcome)
      modifies this`time
      ensures var bad := c.FirstBad(YearOf(Day(old(time))), MonthOf(Day(old(time))));
              if bad == None
              then r == Done && time == (if c.week.Or(0) == 0 then Target(old(time), c)
                                         else WeekMonday(Target(old(time), c), c.week.value))
              else r == RangeError(bad.value) && time == Target(old(time), c.Before(bad.value))
    {
      hide Day, YearOf, MonthOf, DateOf, NewTime, MakeDate, OnDay, DaysInMonth, MakeDay, Config.FirstBadClock, WeekMonday;
      ghost var t := time;
      r := SetClock(c);
      if r != Done {
        ClockOnly(t, c.Before(r.field));
        return;
      }
      ghost var t1 := time;
      SameTime(t, t1, c);
      ClockOnly(t, c.Before(MonthField));
      r := SetCalendar(c);
      if r != Done { return; }
      if c.week.Some? && c.week.value != 0 {
        if !(0 <= c.week.value <= 53) { return RangeError(WeekField); }
        SetWeek(c.week.value);
      }
    }

    static lemma ClockOnly(t: int, c: Config)
      requires c.month == None && c.year == None && c.day == None
      ensures Target(t, c) == MakeDate(Day(t), NewTime(t, c))
    {
      hide Day, YearOf, MonthOf, DateOf, NewTime, MakeDate, MakeDay;
      MadeDayOfFields(Day(t));
    }

    /** After the clock part the calendar is the old one and the time of day is the new one. */
    static lemma SameTime(t: int, t1: int, c: Config)
      requires c.FirstBadClock() == None && t1 == MakeDate(Day(t), NewTime(t, c))
      ensures Day(t1) == Day(t)
      ensures forall day :: OnDay(t1, day) == MakeDate(day, NewTime(t, c))
      ensures forall f :: f in {MonthField, YearField, DayField, WeekField} ==> NewTime(t, c.Before(f)) == NewTime(t, c)
    {
      TimeHasFields(t);
      hide Day, Hour, Minute, Second, Milli;
      DayIs(t1, Day(t), NewTime(t, c));
    }

    // ---- weekdays and weeks ----

    /** `moveToDayOfWeek` for the two directions the library uses. */
    method MoveToDayOfWeek(w: int, orientation: int)
      requires 0 <= w <= 6 && (orientation == 1 || orientation == -1)
      modifies this`time
      ensures time == OnDay(old(time), Day(time))
      ensures if orientation == 1 then IsNext(Day(old(time)), w, Day(time)) else IsPrevious(Day(old(time)), w, Day(time))
    {
      var diff := Rem(w - WeekDay(Day(time)) + 7 * orientation, 7);
      if diff == 0 { diff := diff + 7 * orientation; }
      ghost var r := Day(time) + diff;
      DiffLands(Day(time), w, orientation, diff);
      OnDayParts(time, r);
      hide Day, WeekDay, OnDay;
      AddDays(diff);
    }

    static lemma DiffLands(day: int, w: int, orientation: int, diff: int)
      requires 0 <= w <= 6 && (orientation == 1 || orientation == -1)
      requires var d := Rem(w - WeekDay(day) + 7 * orientation, 7);
               diff == if d == 0 then 7 * orientation else d
      ensures if orientation == 1 then IsNext(day, w, day + diff) else IsPrevious(day, w, day + diff)
    {
      var a := w - WeekDay(day);
      assert Rem(a + 7 * orientation, 7) == if orientation == 1 then (if a >= 0 then a else a + 7)
                                            else if a > 0 then a - 7 else a;
      hide Rem;
      assert (w - WeekDay(day) - diff) % 7 == 0 by {
        assert diff == a || diff == a + 7 || diff == a - 7;
      }
      LandsOn(day, w, diff);
    }

    static lemma LandsOn(day: int, w: int, diff: int)
      requires 0 <= w <= 6
      requires diff == w - WeekDay(day) || diff == w - WeekDay(day) + 7 || diff == w - WeekDay(day) - 7
      ensures WeekDay(day + diff) == w
    {
      var q := (day + 4) / 7;
      var k := if diff < w - WeekDay(day) then q - 1 else if diff == w - WeekDay(day) then q else q + 1;
      assert day + diff + 4 == 7 * k + w;
    }

    /** `getWeek` on this object's date. */
    function GetWeek(): int
      reads this`time
    {
      WeekOfDay(Day(time))
    }

    /** `setWeek`: to the Monday strictly after, then by whole weeks to the asked number. */
    method SetWeek(n: int)
      modifies this`time
      ensures time == WeekMonday(old(time), n)
    {
      ghost var t := time;
      ghost var monday := Following(Day(t), 1);
      MoveToDayOfWeek(1, 1);
      OneNext(Day(t), 1, monday, Day(time));
      assert time == OnDay(t, monday);
      OnDayParts(t, monday);
      hide Day, WeekDay, OnDay, WeekOfDay;
      ghost var t1 := time;
      AddWeeks(n - GetWeek());
      MovedInMonth(t1, t, monday + 7 * (n - WeekOfDay(monday)));
    }

    static lemma OneNext(day: int, w: int, r: int, r': int)
      requires IsNext(day, w, r) && IsNext(day, w, r')
      ensures r == r'
    {
      SameWeekDay(r, r');
    }

    // ---- the nth weekday of a month ----

    method MoveToFirstDayOfMonth()
      modifies this`time
      ensures time == OnDay(old(time), MonthStart(Day(old(time))))
    {
      MoveToDate(1);
    }

    method MoveToLastDayOfMonth()
      modifies this`time
      ensures time == OnDay(old(time), MonthEnd(Day(old(time))))
    {
      ghost var day := Day(time);
      MakeDayOfMonth(YearOf(day), MonthOf(day), 1);
      MakeDayOfMonth(YearOf(day), MonthOf(day), DaysInMonth(YearOf(day), MonthOf(day)));
      hide MakeDay, YearOf, MonthOf, DateOf, Day, TimeInDay, DaysInMonth, OnDay;
      MoveToDate(DaysInMonth(YearOf(Day(time)), MonthOf(Day(time))));
    }

    /** `set` with a valid day of the current month only. */
    method MoveToDate(d: int)
      requires 1 <= d <= DaysInMonth(YearOf(Day(time)), MonthOf(Day(time)))
      modifies this`time
      ensures time == OnDay(old(time), MakeDay(YearOf(Day(old(time))), MonthOf(Day(old(time))), d))
    {
      TimeHasFields(time);
      DayParts(time);
      hide MakeDay, YearOf, MonthOf, DateOf, Day, TimeInDay, DaysInMonth, Hour, Minute, Second, Milli, MakeTime;
      var r := Set(Config(None, None, None, None, None, None, Some(d), None));
    }

    method MoveToNthOccurrence(w: int, occurrence: int)
      requires 0 <= w <= 6
      modifies this`time
      ensures time == OnDay(old(time), Occurrence(Day(old(time)), w, occurrence))
    {
      ghost var t := time;
      ghost var day := Day(t);
      hide Day, WeekDay, OnDay, MonthStart, MonthEnd;
      var shift := 0;
      if occurrence > 0 {
        shift := occurrence - 1;
      } else if occurrence == -1 {
        MoveToLastDayOfMonth();
        OnDayParts(t, MonthEnd(day));
        if WeekDay(Day(time)) != w {
          ghost var t1 := time;
          MoveToDayOfWeek(w, -1);
          MovedInMonth(t1, t, Day(time));
        }
        OnlyLast(MonthEnd(day), w, Day(time));
        return;
      }
      MoveToFirstDayOfMonth();
      OnDayParts(t, MonthStart(day));
      ghost var t1 := time;
      AddDays(-1);
      OnDayParts(t1, MonthStart(day) - 1);
      ghost var t2 := time;
      MoveToDayOfWeek(w, 1);
      OneNext(MonthStart(day) - 1, w, Day(time), Following(MonthStart(day) - 1, w));
      ghost var t3 := time;
      OnDayParts(t2, Day(t3));
      AddWeeks(shift);
      MovedInMonth(t3, t, Following(MonthStart(day) - 1, w) + 7 * shift);
    }

    static lemma OnlyLast(end: int, w: int, r: int)
      requires 0 <= w <= 6
      requires if WeekDay(end) == w then r == end else IsPrevious(end, w, r)
      ensures r == Following(end - 7, w)
    {
      if WeekDay(end) != w {
        assert r != end - 7 by { SameWeekDay(end - 7, end); }
      }
      OneNext(end - 7, w, r, Following(end - 7, w));
    }

    // ---- the fluent sugar ----

    /** `first()` ... `fifth()` and `final()` (-1), without an argument. */
    method SayNth(n: int)
      modifies this`time, this`nth, this`isSecond
      ensures nth == Some(n)
      ensures isSecond == (old(isSecond) || n == 2)
      ensures time == old(time) + if n == 2 then 1000 * orient else 0
    {
      nth := Some(n);
      if n == 2 {
        isSecond := true;
        AddSeconds(orient);
      }
    }

    /** `sunday()` (0) ... `saturday()` (6). */
    method SayWeekday(w: int) returns (r: Spoken)
      requires 0 <= w <= 6 && (orient == 1 || orient == -1)
      modifies this`time, this`nth, this`isSecond, this`isTest
      ensures old(isTest) ==>
                && r == Is(WeekDay(Day(old(time))) == w)
                && time == old(time) && nth == old(nth) && isSecond == old(isSecond) && !isTest
      ensures !old(isTest) && old(nth).Some? ==>
                var t := old(time) - if old(isSecond) then 1000 * orient else 0;
                var landing := Occurrence(Day(t), w, old(nth).value);
                && time == OnDay(t, landing)
                && r == (if landing > MonthEnd(Day(t)) then NoSuchDay else Moved)
                && nth == None && !isSecond && !isTest
      ensures !old(isTest) && old(nth).None? ==>
                && r == Moved && time == OnDay(old(time), Day(time))
                && (if orient == 1 then IsNext(Day(old(time)), w, Day(time)) else IsPrevious(Day(old(time)), w, Day(time)))
                && nth == None && isSecond == old(isSecond) && !isTest
    {
      hide Day, WeekDay, OnDay, Occurrence, MonthEnd;
      if isTest {
        isTest := false;
        return Is(WeekDay(Day(time)) == w);
      }
      if nth.Some? {
        if isSecond {
          AddSeconds(orient * -1);
        }
        isSecond := false;
        var n := nth.value;
        nth := None;
        ghost var t := time;
        var temp := new JsDate(time);
        temp.MoveToLastDayOfMonth();
        MoveToNthOccurrence(w, n);
        LaterDay(t, Occurrence(Day(t), w, n), MonthEnd(Day(t)));
        if time > temp.time {
          return NoSuchDay;
        }
        return Moved;
      }
      MoveToDayOfWeek(w, orient);
      return Moved;
    }

    static lemma LaterDay(t: int, a: int, b: int)
      ensures OnDay(t, a) > OnDay(t, b) <==> a > b
    {
      DayParts(t);
    }

    /** A phrase like `second().monday()`: the second added by `second()` is taken back, so the
        outcome is that of the plain move from where the phrase started. */
    method SayNthWeekday(n: int, w: int) returns (r: Spoken)
      requires 0 <= w <= 6 && (orient == 1 || orient == -1) && !isTest && !isSecond
      modifies this`time, this`nth, this`isSecond, this`isTest
      ensures time == OnDay(old(time), Occurrence(Day(old(time)), w, n))
      ensures r == if Occurrence(Day(old(time)), w, n) > MonthEnd(Day(old(time))) then NoSuchDay else Moved
      ensures nth == None && !isSecond && !isTest
    {
      hide Day, WeekDay, OnDay, Occurrence, MonthEnd, IsNext, IsPrevious;
      SayNth(n);
      r := SayWeekday(w);
    }
  }

  // ---- what the moves mean ----

  function MonthStart(day: int): int { MakeDay(YearOf(day), MonthOf(day), 1) }

  function MonthEnd(day: int): int { MonthStart(day) + DaysInMonth(YearOf(day), MonthOf(day)) - 1 }

  /** The first and the last day of the month. */
  lemma MonthEnds(day: int)
    ensures var r := MonthStart(day); YearOf(r) == YearOf(day) && MonthOf(r) == MonthOf(day) && DateOf(r) == 1
    ensures var r := MonthEnd(day);
            YearOf(r) == YearOf(day) && MonthOf(r) == MonthOf(day) && DateOf(r) == DaysInMonth(YearOf(day), MonthOf(day))
  {
    hide YearOf, MonthOf, DateOf, DaysInMonth, DayFromYear, DaysBeforeMonth;
    var y, m := YearOf(day), MonthOf(day);
    FieldsOfMadeDay(y, m, 1);
    FieldsOfMadeDay(y, m, DaysInMonth(y, m));
    MakeDayOfMonth(y, m, 1);
    MakeDayOfMonth(y, m, DaysInMonth(y, m));
  }

  /** Where `moveToNthOccurrence` goes: counted from the month's first such weekday, or its last
      for -1; any other number below 1 acts like 1. */
  function Occurrence(day: int, w: int, n: int): int
    requires 0 <= w <= 6
  {
    if n == -1 then Following(MonthEnd(day) - 7, w)
    else Following(MonthStart(day) - 1, w) + 7 * (if n > 0 then n - 1 else 0)
  }

  /** How many days in `[from, end)` fall on weekday `w`. */
  function CountDays(from: int, end: int, w: int): (n: nat)
    decreases if from < end then end - from else 0
  {
    if from >= end then 0 else CountDays(from, end - 1, w) + if WeekDay(end - 1) == w then 1 else 0
  }

  lemma {:induction false} NoneBefore(from: int, end: int, w: int)
    requires forall d :: from <= d < end ==> WeekDay(d) != w
    ensures CountDays(from, end, w) == 0
    decreases if from < end then end - from else 0
  {
    if from < end { NoneBefore(from, end - 1, w); }
  }

  lemma {:induction false} CountJoins(from: int, mid: int, end: int, w: int)
    requires from <= mid <= end
    ensures CountDays(from, end, w) == CountDays(from, mid, w) + CountDays(mid, end, w)
    decreases end - mid
  {
    if mid < end { CountJoins(from, mid, end - 1, w); }
  }

  /** Between two consecutive such weekdays lie no others. */
  lemma OnePerWeek(day: int, w: int)
    requires WeekDay(day) == w
    ensures forall d :: day < d < day + 7 ==> WeekDay(d) != w
    ensures WeekDay(day + 7) == w
  {
    forall d | day < d < day + 7 ensures WeekDay(d) != w { SameWeekDay(day, d); }
    SameWeekDay(day, day + 7);
  }

  /** Stepping `k` weeks on from the first such weekday passes exactly `k` of them. */
  lemma {:induction false} CountWeeks(from: int, w: int, k: nat)
    requires 0 <= w <= 6
    ensures var r := Following(from - 1, w) + 7 * k;
            CountDays(from, r, w) == k && WeekDay(r) == w
    decreases k
  {
    hide WeekDay;
    var r := Following(from - 1, w) + 7 * k;
    if k == 0 {
      forall d | from <= d < r ensures WeekDay(d) != w {
        if WeekDay(d) == w { JsDate.OneNext(from - 1, w, d, r); }
      }
      NoneBefore(from, r, w);
    } else {
      CountWeeks(from, w, k - 1);
      var p := r - 7;
      OnePerWeek(p, w);
      NoneBefore(p + 1, r, w);
      assert CountDays(p, p + 1, w) == 1 + CountDays(p, p, w);
      CountJoins(from, p, p + 1, w);
      CountJoins(from, p + 1, r, w);
    }
  }

  /** The nth move lands on the weekday with exactly n-1 of them before it in the month, and
      leaves the month exactly when the month has fewer than n, which is exactly when the
      sugar call throws. */
  lemma NthIsNth(day: int, w: int, n: int)
    requires 0 <= w <= 6 && n >= 1
    ensures var start := MonthStart(day); var r := Occurrence(day, w, n);
            && start <= r && WeekDay(r) == w && CountDays(start, r, w) == n - 1
            && (r > MonthEnd(day) <==> CountDays(start, MonthEnd(day) + 1, w) < n)
  {
    hide WeekDay, MonthStart, MonthEnd, CountDays, Following;
    var start, r, end := MonthStart(day), Occurrence(day, w, n), MonthEnd(day);
    StartBeforeEnd(day);
    CountWeeks(start, w, n - 1);
    if r > end {
      CountJoins(start, end + 1, r, w);
      CountIsNat(end + 1, r, w);
    } else {
      CountJoins(start, r, end + 1, w);
      CountJoins(r, r + 1, end + 1, w);
      CountOne(r, w);
      CountIsNat(r + 1, end + 1, w);
    }
  }

  lemma StartBeforeEnd(day: int)
    ensures MonthStart(day) <= MonthEnd(day)
  {
  }

  lemma CountIsNat(from: int, end: int, w: int)
    ensures CountDays(from, end, w) >= 0
  {
  }

  lemma CountOne(day: int, w: int)
    requires WeekDay(day) == w
    ensures CountDays(day, day + 1, w) == 1
  {
    hide WeekDay;
    assert CountDays(day, day, w) == 0;
  }

  /** -1 finds the month's last such weekday, which every month has. */
  lemma LastIsLast(day: int, w: int)
    requires 0 <= w <= 6
    ensures var r := Occurrence(day, w, -1);
            && MonthStart(day) <= r <= MonthEnd(day) && WeekDay(r) == w
            && CountDays(r + 1, MonthEnd(day) + 1, w) == 0
  {
    hide WeekDay, MonthStart;
    var r, end := Occurrence(day, w, -1), MonthEnd(day);
    OnePerWeek(r, w);
    NoneBefore(r + 1, end + 1, w);
  }

  /** Any other number moves like 1. */
  lemma OtherOccurrences(day: int, w: int, n: int)
    requires 0 <= w <= 6 && n <= 0 && n != -1
    ensures var r := Occurrence(day, w, n);
            MonthStart(day) <= r && WeekDay(r) == w && CountDays(MonthStart(day), r, w) == 0
  {
    hide WeekDay, MonthStart, Following;
    NthIsNth(day, w, 1);
    assert Occurrence(day, w, n) == Occurrence(day, w, 1);
  }

  /** The time `setWeek(n)` moves to. */
  function WeekMonday(t: int, n: int): int {
    var monday := Following(Day(t), 1);
    OnDay(t, monday + 7 * (n - WeekOfDay(monday)))
  }

  lemma FirstMonday(y: int)
    ensures WeekDay(FirstThursday(y) - 3) == 1
    ensures YearOf(FirstThursday(y)) == y
  {
    ThursdayIsThursday(DayFromYear(y));
    YearLength(y);
    YearIs(FirstThursday(y), y);
    hide DayFromYear, ThursdayFrom, YearOf;
    SameWeekDay(FirstThursday(y) - 3, FirstThursday(y));
    MondayBefore(FirstThursday(y));
  }

  lemma MondayBefore(day: int)
    requires WeekDay(day) == 4
    ensures WeekDay(day - 3) == 1
  {
  }

  lemma WeekOfMonday(day: int)
    requires WeekDay(day) == 1 && YearOf(day) >= 0
    ensures WeekOfDay(day) == IsoWeek(day)
  {
    MadeDayOfFields(day);
    hide WeekDay, MakeDay, IsoWeek, YearOf, MonthOf, DateOf, WeekNumber;
    WeekNumberExact(YearOf(day), MonthOf(day) + 1, DateOf(day));
    if YearOf(day) == 0 && MonthOf(day) == 0 && DateOf(day) == 1 { YearZeroStart(day); }
  }

  lemma YearZeroStart(day: int)
    requires day == MakeDay(0, 0, 1)
    ensures WeekDay(day) == 6
  {
    MakeDayOfMonth(0, 0, 1);
    assert DayFromYear(0) == -719528;
    hide MakeDay, DayFromYear;
  }

  /** A Monday is in week `w` of `wy` exactly when it is the wth Monday of that ISO year. */
  lemma MondayOfWeek(day: int, wy: int, w: int)
    requires WeekDay(day) == 1
    ensures wy == IsoYear(day) && w == IsoWeek(day)
            <==> day == FirstThursday(wy) - 3 + 7 * (w - 1) && 1 <= w <= WeeksIn(wy)
  {
    FirstMonday(wy);
    WeeksInYear(wy);
    IsoWeekIsTheWeek(day, wy, w);
    SameWeekDay(FirstThursday(wy) - 3, day);
    hide WeekDay, FirstThursday, WeeksIn, IsoYear, IsoWeek;
    WholeWeeks(FirstThursday(wy) - 3, day, w, WeeksIn(wy));
  }

  /** A Monday lies in week `w` exactly if it begins it. */
  lemma WholeWeeks(monday: int, day: int, w: int, weeks: int)
    requires (day - monday) % 7 == 0
    ensures 1 <= w && monday + 7 * (w - 1) <= day < monday + 7 * w && day < monday + 7 * weeks
            <==> day == monday + 7 * (w - 1) && 1 <= w <= weeks
  {
    var k := (day - monday) / 7;
    assert day == monday + 7 * k;
  }

  /** After `setWeek(n)` the date is the nth Monday of the ISO year of the Monday strictly after
      the old date, and `getWeek` answers `n` exactly when that ISO year has a week `n`. */
  lemma SetWeekLands(t: int, n: int)
    requires YearOf(Following(Day(t), 1)) >= 0
    ensures var wy := IsoYear(Following(Day(t), 1)); var r := Day(WeekMonday(t, n));
            && WeekDay(r) == 1 && r == FirstThursday(wy) - 3 + 7 * (n - 1)
            && TimeInDay(WeekMonday(t, n)) == TimeInDay(t)
            && (YearOf(r) >= 0 ==> (WeekOfDay(r) == n <==> 1 <= n <= WeeksIn(wy)))
  {
    hide *;
    var monday := Following(Day(t), 1);
    var wy, r := IsoYear(monday), Day(WeekMonday(t, n));
    FollowingMonday(Day(t));
    WeekOfMonday(monday);
    WeekMondayDay(t, n);
    MondayMoved(monday, n, r);
    if YearOf(r) >= 0 {
      WeekOfMonday(r);
      NthMonday(r, wy, n);
    }
  }

  lemma FollowingMonday(day: int)
    ensures WeekDay(Following(day, 1)) == 1
  {
  }

  lemma WeekMondayDay(t: int, n: int)
    ensures var monday := Following(Day(t), 1);
            Day(WeekMonday(t, n)) == monday + 7 * (n - WeekOfDay(monday))
    ensures TimeInDay(WeekMonday(t, n)) == TimeInDay(t)
  {
    hide Day, OnDay, TimeInDay, WeekOfDay, Following;
    var monday := Following(Day(t), 1);
    OnDayParts(t, monday + 7 * (n - WeekOfDay(monday)));
  }

  /** From the Monday of one week by whole weeks to the nth Monday of its year. */
  lemma MondayMoved(monday: int, n: int, r: int)
    requires WeekDay(monday) == 1 && r == monday + 7 * (n - IsoWeek(monday))
    ensures WeekDay(r) == 1 && r == FirstThursday(IsoYear(monday)) - 3 + 7 * (n - 1)
  {
    hide WeekDay, FirstThursday, WeeksIn, IsoYear, IsoWeek;
    MondayOfWeek(monday, IsoYear(monday), IsoWeek(monday));
    SameWeekDay(monday, r);
  }

  lemma NthMonday(r: int, wy: int, n: int)
    requires WeekDay(r) == 1 && r == FirstThursday(wy) - 3 + 7 * (n - 1)
    ensures IsoWeek(r) == n <==> 1 <= n <= WeeksIn(wy)
  {
    MondayOfWeek(r, wy, n);
    MondayOfWeek(r, IsoYear(r), IsoWeek(r));
    FirstMonday(wy);
    FirstMonday(IsoYear(r));
    hide WeekDay, FirstThursday, WeeksIn, IsoYear, IsoWeek, YearOf;
  }
}
