/** The day-number calendar of ECMA-262, 5th edition, sections 15.9.1.2 to 15.9.1.6 and
    15.9.1.12, on which every date method of the library rests.  A day number counts days
    from 1970-01-01, months run from 0 to 11, and there is no time zone. */
module Calendar {

  const MS_PER_DAY := 86400000

  /** Section 15.9.1.3.  Dafny's division by a positive constant is the floor. */
  function DayFromYear(y: int): int {
    365 * (y - 1970) + (y - 1969) / 4 - (y - 1901) / 100 + (y - 1601) / 400
  }

  predicate IsLeapYear(y: int) {
    (y % 4 == 0 && y % 100 != 0) || y % 400 == 0
  }

  function LeapDay(y: int): int {
    if IsLeapYear(y) then 1 else 0
  }

  predicate IsMonth(m: int) { 0 <= m <= 11 }

  /** The library's own table of month lengths. */
  function DaysInMonth(y: int, m: int): (n: int)
    requires IsMonth(m)
    ensures 28 <= n <= 31
  {
    [31, 28 + LeapDay(y), 31, 30, 31, 30, 31, 31, 30, 31, 30, 31][m]
  }

  /** Days of year `y` that precede month `m`. */
  function DaysBeforeMonth(y: int, m: int): int
    requires 0 <= m <= 12
  {
    [0, 31, 59, 90, 120, 151, 181, 212, 243, 273, 304, 334, 365][m] + if m < 2 then 0 else LeapDay(y)
  }

  predicate IsDate(y: int, m: int, d: int) {
    IsMonth(m) && 1 <= d <= DaysInMonth(y, m)
  }

  /** Section 15.9.1.12 (MakeDay): any month and any date, both may overflow. */
  function MakeDay(y: int, m: int, d: int): int {
    DayFromYear(y + m / 12) + DaysBeforeMonth(y + m / 12, m % 12) + d - 1
  }

  /** Section 15.9.1.6, with 0 for Sunday. */
  function WeekDay(day: int): (w: int)
    ensures 0 <= w <= 6
  {
    (day + 4) % 7
  }

  lemma YearLength(y: int)
    ensures DayFromYear(y + 1) == DayFromYear(y) + 365 + LeapDay(y)
  {
    Floors(y);
    Floors(y + 1);
    LeapByFloors(y);
    hide LeapDay;
  }

  /** The three floors of `DayFromYear`, brought to the multiples that decide leap years. */
  lemma Floors(y: int)
    ensures (y - 1969) / 4 == (y - 1) / 4 - 492
    ensures (y - 1901) / 100 == (y - 1) / 100 - 19
    ensures (y - 1601) / 400 == (y - 1) / 400 - 4
  {
  }

  lemma LeapByFloors(y: int)
    ensures LeapDay(y) == y / 4 - (y - 1) / 4 - (y / 100 - (y - 1) / 100) + (y / 400 - (y - 1) / 400)
  {
    FloorStep(y - 1, 4);
    FloorStep(y - 1, 100);
    FloorStep(y - 1, 400);
    Multiples(y);
  }

  lemma Multiples(y: int)
    ensures y % 100 == 0 ==> y % 4 == 0
    ensures y % 400 == 0 ==> y % 100 == 0
  {
    if y % 100 == 0 { FourTimes(y, 25 * (y / 100)); }
    if y % 400 == 0 { HundredTimes(y, 4 * (y / 400)); }
  }

  lemma FourTimes(y: int, q: int)
    requires y == 4 * q
    ensures y % 4 == 0
  {
  }

  lemma HundredTimes(y: int, q: int)
    requires y == 100 * q
    ensures y % 100 == 0
  {
  }

  /** A floor division steps up exactly when the next number is a multiple. */
  lemma FloorStep(a: int, k: int)
    requires k == 4 || k == 100 || k == 400
    ensures (a + 1) / k == a / k + if (a + 1) % k == 0 then 1 else 0
  {
  }

  lemma {:induction false} YearsGrow(y: int, z: int)
    requires y <= z
    ensures DayFromYear(y) + 365 * (z - y) <= DayFromYear(z) <= DayFromYear(y) + 366 * (z - y)
    decreases z - y
  {
    if y < z {
      YearLength(y);
      YearsGrow(y + 1, z);
    }
  }

  /** Section 15.9.1.3: the largest year that has begun by `day`, found by counting up. */
  function YearSearch(day: int, y: int): (r: int)
    requires DayFromYear(y) <= day
    ensures DayFromYear(r) <= day < DayFromYear(r + 1)
    decreases day - DayFromYear(y)
  {
    YearLength(y);
    if day < DayFromYear(y + 1) then y else YearSearch(day, y + 1)
  }

  function YearOf(day: int): (r: int)
    ensures DayFromYear(r) <= day < DayFromYear(r + 1)
  {
    var low := 1970 + if day < 0 then day / 365 else day / 366;
    assert DayFromYear(low) <= day by {
      if day < 0 { YearsGrow(low, 1970); } else { YearsGrow(1970, low); }
    }
    YearSearch(day, low)
  }

  lemma YearIs(day: int, y: int)
    requires DayFromYear(y) <= day < DayFromYear(y + 1)
    ensures YearOf(day) == y
  {
    hide DayFromYear;
    var r := YearOf(day);
    if r < y { YearsGrow(r + 1, y); }
    if y < r { YearsGrow(y + 1, r); }
  }

  function DayWithinYear(day: int): (r: int)
    ensures 0 <= r < 365 + LeapDay(YearOf(day))
  {
    YearLength(YearOf(day));
    day - DayFromYear(YearOf(day))
  }

  function MonthSearch(y: int, yd: int, m: int): (r: int)
    requires IsMonth(m) && DaysBeforeMonth(y, m) <= yd < 365 + LeapDay(y)
    ensures IsMonth(r) && DaysBeforeMonth(y, r) <= yd < DaysBeforeMonth(y, r + 1)
    decreases 12 - m
  {
    if yd < DaysBeforeMonth(y, m + 1) then m else MonthSearch(y, yd, m + 1)
  }

  function MonthOf(day: int): (m: int)
    ensures IsMonth(m)
    ensures DaysBeforeMonth(YearOf(day), m) <= DayWithinYear(day) < DaysBeforeMonth(YearOf(day), m + 1)
  {
    MonthSearch(YearOf(day), DayWithinYear(day), 0)
  }

  lemma MonthLength(y: int, m: int)
    requires IsMonth(m)
    ensures DaysBeforeMonth(y, m + 1) == DaysBeforeMonth(y, m) + DaysInMonth(y, m)
    ensures DaysBeforeMonth(y, 12) == 365 + LeapDay(y)
  {
  }

  lemma {:induction false} MonthsGrow(y: int, m: int, n: int)
    requires 0 <= m <= n <= 12
    ensures DaysBeforeMonth(y, m) + 28 * (n - m) <= DaysBeforeMonth(y, n)
    decreases n - m
  {
    if m < n {
      MonthLength(y, m);
      MonthsGrow(y, m + 1, n);
    }
  }

  function DateOf(day: int): (d: int)
    ensures 1 <= d <= DaysInMonth(YearOf(day), MonthOf(day))
  {
    MonthLength(YearOf(day), MonthOf(day));
    DayWithinYear(day) - DaysBeforeMonth(YearOf(day), MonthOf(day)) + 1
  }

  lemma MakeDayOfMonth(y: int, m: int, d: int)
    requires IsMonth(m)
    ensures MakeDay(y, m, d) == DayFromYear(y) + DaysBeforeMonth(y, m) + d - 1
  {
  }

  lemma MonthIs(day: int, m: int)
    requires IsMonth(m)
    requires DaysBeforeMonth(YearOf(day), m) <= DayWithinYear(day) < DaysBeforeMonth(YearOf(day), m + 1)
    ensures MonthOf(day) == m
  {
    hide DaysBeforeMonth, DayWithinYear, YearOf;
    var y := YearOf(day);
    if MonthOf(day) < m { MonthsGrow(y, MonthOf(day) + 1, m); }
    if m < MonthOf(day) { MonthsGrow(y, m + 1, MonthOf(day)); }
  }

  /** Reading the fields of a day and making a day from them are inverse: first half. */
  lemma FieldsOfMadeDay(y: int, m: int, d: int)
    requires IsDate(y, m, d)
    ensures var day := MakeDay(y, m, d); YearOf(day) == y && MonthOf(day) == m && DateOf(day) == d
  {
    MadeDayInYear(y, m, d);
    MakeDayOfMonth(y, m, d);
    MonthLength(y, m);
    hide DayFromYear, LeapDay, MakeDay, DaysBeforeMonth, YearOf, DaysInMonth;
    var day := MakeDay(y, m, d);
    YearIs(day, y);
    MonthIs(day, m);
  }

  lemma MadeDayInYear(y: int, m: int, d: int)
    requires IsDate(y, m, d)
    ensures DayFromYear(y) <= MakeDay(y, m, d) < DayFromYear(y + 1)
  {
    MakeDayOfMonth(y, m, d);
    MonthLength(y, m);
    MonthsGrow(y, 0, m);
    MonthsGrow(y, m + 1, 12);
    YearLength(y);
    assert DaysBeforeMonth(y, 0) == 0;
    hide DayFromYear, LeapDay, MakeDay, DaysBeforeMonth, DaysInMonth;
  }

  /** Second half. */
  lemma MadeDayOfFields(day: int)
    ensures IsDate(YearOf(day), MonthOf(day), DateOf(day))
    ensures MakeDay(YearOf(day), MonthOf(day), DateOf(day)) == day
  {
    var y, m := YearOf(day), MonthOf(day);
    MakeDayOfMonth(y, m, DateOf(day));
  }

  /** Month arithmetic goes through one linear month count. */
  lemma MakeDayByMonthCount(y: int, m: int, d: int, y': int, m': int)
    requires 12 * y + m == 12 * y' + m' && IsMonth(m')
    ensures MakeDay(y, m, d) == MakeDay(y', m', d)
  {
    assert y + m / 12 == y' && m % 12 == m';
  }

  /** Day 0 is 1970-01-01, a Thursday. */
  lemma Epoch(y: int, m: int, d: int)
    requires y == 1970 && m == 0 && d == 1
    ensures YearOf(0) == y && MonthOf(0) == m && DateOf(0) == d && WeekDay(0) == 4
  {
    hide YearOf, MonthOf, DateOf, MakeDay;
    FieldsOfMadeDay(y, m, d);
    MakeDayOfMonth(y, m, d);
    assert DayFromYear(y) == 0;
  }
}
