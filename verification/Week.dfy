/** ISO week numbers: the closed formula of `getWeek` against the definition in
    section 2.2.10 of ISO 8601:2004. */
module Week {
  import opened Calendar

  // ---- the standard's definition ----

  /** Position of a day in its calendar week, which starts on Monday (0). */
  function MondayIndex(day: int): (i: int)
    ensures 0 <= i <= 6
  {
    (day + 3) % 7
  }

  function Thursday(day: int): int {
    day - MondayIndex(day) + 3
  }

  /** The first Thursday on or after a day. */
  function ThursdayFrom(day: int): (t: int)
    ensures day <= t < day + 7
  {
    var i := MondayIndex(day);
    if i <= 3 then day + 3 - i else day + 10 - i
  }

  function FirstThursday(y: int): int {
    ThursdayFrom(DayFromYear(y))
  }

  /** `day` lies in calendar week `w` of `wy`: weeks run Monday to Sunday, week 1 of a year
      includes its first Thursday, and the year lasts until week 1 of the next one begins. */
  predicate InWeek(day: int, wy: int, w: int) {
    var monday := FirstThursday(wy) - 3;
    && 1 <= w
    && monday + 7 * (w - 1) <= day < monday + 7 * w
    && day < FirstThursday(wy + 1) - 3
  }

  function IsoYear(day: int): int {
    YearOf(Thursday(day))
  }

  function IsoWeek(day: int): int {
    WeeksBetween(DayFromYear(IsoYear(day)), Thursday(day)) + 1
  }

  /** Whole weeks from one day to another. */
  function WeeksBetween(from: int, to: int): int {
    (to - from) / 7
  }

  /** Number of weeks in an ISO year. */
  function WeeksIn(wy: int): int {
    WeeksBetween(FirstThursday(wy), FirstThursday(wy + 1))
  }

  // ---- weekday arithmetic, with the quotients named ----

  lemma MondayQuotient(day: int) returns (q: int)
    ensures day + 3 == 7 * q + MondayIndex(day)
    ensures Thursday(day) == 7 * q
  {
    q := (day + 3) / 7;
  }

  lemma MondayIs(day: int, q: int, r: int)
    requires day + 3 == 7 * q + r && 0 <= r < 7
    ensures MondayIndex(day) == r
  {
  }

  lemma WeekDayByMonday(day: int)
    ensures WeekDay(day) == if MondayIndex(day) == 6 then 0 else MondayIndex(day) + 1
  {
    var q := MondayQuotient(day);
    hide MondayIndex;
  }

  lemma WeeksAre(from: int, to: int, q: int)
    requires 7 * q <= to - from < 7 * q + 7
    ensures WeeksBetween(from, to) == q
  {
  }

  lemma ThursdayQuotient(day: int) returns (q: int)
    ensures ThursdayFrom(day) == 7 * q
  {
    q := MondayQuotient(day);
    if MondayIndex(day) > 3 { q := q + 1; }
    hide MondayIndex;
  }

  lemma ThursdayIsThursday(day: int)
    ensures WeekDay(ThursdayFrom(day)) == 4
  {
    var q := ThursdayQuotient(day);
    hide ThursdayFrom;
  }

  // ---- the Thursday rule is the standard's numbering ----

  lemma WeeksInYear(wy: int)
    ensures WeeksIn(wy) == 52 || WeeksIn(wy) == 53
    ensures FirstThursday(wy + 1) == FirstThursday(wy) + 7 * WeeksIn(wy)
  {
    YearLength(wy);
    var p := ThursdayQuotient(DayFromYear(wy));
    var q := ThursdayQuotient(DayFromYear(wy + 1));
    hide DayFromYear, ThursdayFrom, WeeksBetween;
    WeeksAre(FirstThursday(wy), FirstThursday(wy + 1), q - p);
  }

  lemma WeekByThursday(day: int, j: int, k: int, w: int)
    requires j + 7 <= k
    ensures var monday := ThursdayFrom(j) - 3;
            && 1 <= w
            && monday + 7 * (w - 1) <= day < monday + 7 * w
            && day < ThursdayFrom(k) - 3
            <==> j <= Thursday(day) < k && w == WeeksBetween(j, Thursday(day)) + 1
  {
    var q := MondayQuotient(day);
    var qj := ThursdayQuotient(j);
    var qk := ThursdayQuotient(k);
    WeeksAre(j, Thursday(day), q - qj);
    hide Thursday, ThursdayFrom, WeeksBetween;
    hide MondayIndex;
  }

  /** Every day is in exactly one week of one ISO year, the ones the Thursday rule names. */
  lemma IsoWeekIsTheWeek(day: int, wy: int, w: int)
    ensures InWeek(day, wy, w) <==> wy == IsoYear(day) && w == IsoWeek(day)
  {
    YearLength(wy);
    hide DayFromYear;
    WeekByThursday(day, DayFromYear(wy), DayFromYear(wy + 1), w);
    hide Thursday, ThursdayFrom, WeeksBetween, YearOf;
    if DayFromYear(wy) <= Thursday(day) < DayFromYear(wy + 1) {
      YearIs(Thursday(day), wy);
    }
  }

  // ---- the formula ----

  /** `x | 0` for a quotient: JavaScript truncates toward zero. */
  function Trunc(a: int, b: int): int
    requires b > 0
  {
    if a >= 0 then a / b else -((-a) / b)
  }

  /** JavaScript's `%`: the remainder has the sign of the dividend. */
  function Rem(a: int, b: int): int
    requires b > 0
  {
    if a >= 0 then a % b else -((-a) % b)
  }

  function LeapCount(a: int): int {
    Trunc(a, 4) - Trunc(a, 100) + Trunc(a, 400)
  }

  /** The intermediate values of `getWeek`.  `f5` and `d5` are the source's `f` and `d` in
      fifths, because its `(153*(m-3)+2)/5` is never rounded; `n` is rounded once. */
  datatype Terms = Terms(s: int, g: int, f5: int, d5: int, n: int)

  /** The body of `getWeek` up to `n`, for a month counted from 1. */
  function WeekTerms(y: int, m: int, d: int): Terms
    requires 1 <= m <= 12
  {
    var a := if m <= 2 then y - 1 else y;
    var b := LeapCount(a);
    var c := LeapCount(a - 1);
    var s := b - c;
    var e := if m <= 2 then 0 else s + 1;
    var f5 := if m <= 2 then 5 * (d - 1 + 31 * (m - 1))
              else 5 * d + (153 * (m - 3) + 2) + 5 * (58 + s);
    var g := Rem(a + b, 7);
    WithWeekday(s, g, f5, e)
  }

  /** The last two steps: the weekday, and the position of the week's Thursday, cut off to an integer. */
  function WithWeekday(s: int, g: int, f5: int, e: int): Terms {
    var d5 := Rem(f5 + 5 * g - 5 * e, 35);
    Terms(s, g, f5, d5, Trunc(f5 + 15 - d5, 5))
  }

  /** The three branches that turn `n` into a week. */
  function Number(t: Terms): int {
    if t.n < 0 then 53 - Trunc(t.g - t.s, 5)
    else if t.n > 364 + t.s then 1
    else Trunc(t.n, 7) + 1
  }

  function WeekNumber(y: int, m: int, d: int): int
    requires 1 <= m <= 12
  {
    Number(WeekTerms(y, m, d))
  }

  // ---- JavaScript's operators, with the quotients named ----

  lemma RemWeek(n: int, q: int, r: int)
    requires n >= 0 && n == 7 * q + r && 0 <= r < 7
    ensures Rem(n, 7) == r && Trunc(n, 7) == q
  {
  }

  lemma RemFifths(n: int, q: int, r: int)
    requires n >= 0 && n == 35 * q + r && 0 <= r < 35
    ensures Rem(n, 35) == r
  {
  }

  lemma TruncFifths(n: int)
    ensures Trunc(5 * n, 5) == n
  {
  }

  lemma TruncWeeks(from: int, to: int)
    requires from <= to
    ensures Trunc(to - from, 7) == WeeksBetween(from, to)
  {
  }

  lemma TruncSmall(a: int, b: int)
    requires b == 4 || b == 5 || b == 7 || b == 100 || b == 400
    requires -b < a < b
    ensures Trunc(a, b) == 0 && Rem(a, b) == a
  {
  }

  lemma LeapCountFloors(a: int)
    requires a >= 0
    ensures LeapCount(a) == a / 4 - a / 100 + a / 400 && LeapCount(a) >= 0
  {
  }

  lemma LeapCountStep(a: int)
    requires a >= 1
    ensures LeapCount(a) - LeapCount(a - 1) == LeapDay(a)
  {
    LeapCountFloors(a);
    LeapCountFloors(a - 1);
    LeapByFloors(a);
    hide LeapCount, LeapDay;
  }

  /** `g` is the position in the week of the January 1 that follows year `a`. */
  lemma JanuaryFirst(a: int)
    requires a >= 0
    ensures Rem(a + LeapCount(a), 7) == MondayIndex(DayFromYear(a + 1))
  {
    LeapCountFloors(a);
    Floors(a + 1);
    assert DayFromYear(a + 1) == 365 * a + LeapCount(a) - 719162;
    hide LeapCount, DayFromYear;
    var q := MondayQuotient(DayFromYear(a + 1));
    hide MondayIndex, Rem;
    RemWeek(a + LeapCount(a), q - 52 * a + 102737, MondayIndex(DayFromYear(a + 1)));
  }

  /** What the unrounded month term has left over, in fifths. */
  function Fraction(m: int): (phi: int)
    ensures 0 <= phi < 5
  {
    (153 * (m - 3) + 2) % 5
  }

  lemma FifthsAreMonths(y: int, m: int)
    requires 3 <= m <= 12
    ensures 153 * (m - 3) + 2 + 295 == 5 * (DaysBeforeMonth(y, m - 1) - LeapDay(y)) + Fraction(m)
  {
  }

  // ---- the formula's terms ----

  lemma EarlyShape(y: int, m: int, d: int)
    requires 1 <= m <= 2
    ensures var s := LeapCount(y - 1) - LeapCount(y - 2); var g := Rem(y - 1 + LeapCount(y - 1), 7);
            WeekTerms(y, m, d) == WithWeekday(s, g, 5 * (d - 1 + DaysBeforeMonth(y, m - 1)), 0)
  {
    assert DaysBeforeMonth(y, m - 1) == 31 * (m - 1);
    hide WithWeekday, LeapCount, Rem, DaysBeforeMonth;
  }

  lemma LateShape(y: int, m: int, d: int)
    requires 2 < m <= 12
    ensures var s := LeapCount(y) - LeapCount(y - 1); var g := Rem(y + LeapCount(y), 7);
            var f := d - 1 + DaysBeforeMonth(y, m - 1) - LeapDay(y) + s;
            WeekTerms(y, m, d) == WithWeekday(s, g, 5 * f + Fraction(m), s + 1)
  {
    hide WithWeekday, LeapCount, Rem, DaysBeforeMonth, LeapDay, Fraction, Trunc;
    FifthsAreMonths(y, m);
  }

  /** The unrounded fraction cancels: `f+3-d` is a whole number, so the last rounding is exact,
      and it is the distance of the week's Thursday from the day where `f` starts. */
  lemma FractionCancels(day: int, start: int, phi: int, g: int, k: int, t: Terms)
    requires 0 <= phi < 5 && start <= day && day - start + g >= 0
    requires t.f5 == 5 * (day - start) + phi && t.d5 == Rem(t.f5 + 5 * g, 35)
    requires t.n == Trunc(t.f5 + 15 - t.d5, 5)
    requires MondayIndex(start) == g + 7 * k
    ensures t.f5 + 15 - t.d5 == 5 * t.n && t.n == Thursday(day) - start
  {
    var i := MondayIndex(day);
    var p := MondayQuotient(start);
    var q := MondayQuotient(day);
    hide MondayIndex, Rem, Trunc;
    RemFifths(t.f5 + 5 * g, q - p - k, 5 * i + phi);
    TruncFifths(day - start + 3 - i);
  }

  lemma NextJanuary(jan1: int, s: int)
    requires 0 <= s <= 1
    ensures var g := MondayIndex(jan1 + 365 + s) - s - 1;
            MondayIndex(jan1) == g || MondayIndex(jan1) == g + 7
  {
    var q := MondayQuotient(jan1);
    var i := MondayIndex(jan1) + 1 + s;
    hide MondayIndex;
    if i < 7 { MondayIs(jan1 + 365 + s, q + 52, i); } else { MondayIs(jan1 + 365 + s, q + 53, i - 7); }
  }

  lemma EarlyParts(y: int, m: int, d: int)
    requires y >= 1 && m <= 2 && IsDate(y, m - 1, d)
    ensures var jan1 := DayFromYear(y); var day := MakeDay(y, m - 1, d);
            && jan1 <= day
            && WeekTerms(y, m, d)
               == WithWeekday(if y > 1 then LeapDay(y - 1) else 0, MondayIndex(jan1), 5 * (day - jan1), 0)
  {
    hide LeapCount, DayFromYear, Rem, MondayIndex, MakeDay, WithWeekday, LeapDay, DaysBeforeMonth, WeekTerms;
    JanuaryFirst(y - 1);
    if y > 1 {
      LeapCountStep(y - 1);
    } else {
      SmallLeapCount(y - 1);
      SmallLeapCount(y - 2);
    }
    EarlyShape(y, m, d);
    MakeDayOfMonth(y, m - 1, d);
    MadeDayInYear(y, m - 1, d);
  }

  /** January and February. */
  lemma EarlyTerms(y: int, m: int, d: int)
    requires y >= 1 && m <= 2 && IsDate(y, m - 1, d)
    ensures var t := WeekTerms(y, m, d);
            && t.g == MondayIndex(DayFromYear(y))
            && t.s == (if y > 1 then LeapDay(y - 1) else 0)
            && t.n == Thursday(MakeDay(y, m - 1, d)) - DayFromYear(y)
            && t.f5 + 15 - t.d5 == 5 * t.n
  {
    hide DayFromYear, MakeDay, MondayIndex, WeekTerms, WithWeekday, Thursday, LeapDay, DaysInMonth;
    EarlyParts(y, m, d);
    CancelEarly(MakeDay(y, m - 1, d), DayFromYear(y), if y > 1 then LeapDay(y - 1) else 0);
  }

  lemma CancelEarly(day: int, jan1: int, s: int)
    requires jan1 <= day
    ensures var t := WithWeekday(s, MondayIndex(jan1), 5 * (day - jan1), 0);
            && t.g == MondayIndex(jan1) && t.s == s
            && t.n == Thursday(day) - jan1 && t.f5 + 15 - t.d5 == 5 * t.n
  {
    hide Rem, Trunc, MondayIndex, Thursday;
    FractionCancels(day, jan1, 0, MondayIndex(jan1), 0, WithWeekday(s, MondayIndex(jan1), 5 * (day - jan1), 0));
  }

  lemma SmallLeapCount(a: int)
    requires -4 < a < 4
    ensures LeapCount(a) == 0
  {
    TruncSmall(a, 4);
    TruncSmall(a, 100);
    TruncSmall(a, 400);
    hide Trunc;
  }

  lemma LateParts(y: int, m: int, d: int)
    requires y >= 1 && m > 2 && IsDate(y, m - 1, d)
    ensures var jan1 := DayFromYear(y); var day := MakeDay(y, m - 1, d); var s := LeapDay(y);
            && jan1 + 59 <= day
            && WeekTerms(y, m, d)
               == WithWeekday(s, MondayIndex(jan1 + 365 + s), 5 * (day - jan1) + Fraction(m), s + 1)
  {
    JanuaryFirst(y);
    YearLength(y);
    LeapCountStep(y);
    LateShape(y, m, d);
    MakeDayOfMonth(y, m - 1, d);
    MarchFirst(y, m, d);
    assert LeapDay(y) >= 0;
    hide *;
  }

  /** March to December. */
  lemma LateTerms(y: int, m: int, d: int)
    requires y >= 1 && m > 2 && IsDate(y, m - 1, d)
    ensures var t := WeekTerms(y, m, d);
            && t.s == LeapDay(y)
            && t.n == Thursday(MakeDay(y, m - 1, d)) - DayFromYear(y)
            && t.f5 + 15 - t.d5 == 5 * t.n
  {
    LateParts(y, m, d);
    assert 0 <= LeapDay(y) <= 1;
    hide *;
    CancelLate(MakeDay(y, m - 1, d), DayFromYear(y), LeapDay(y), Fraction(m));
  }

  lemma CancelLate(day: int, jan1: int, s: int, phi: int)
    requires jan1 + 59 <= day && 0 <= s <= 1 && 0 <= phi < 5
    ensures var t := WithWeekday(s, MondayIndex(jan1 + 365 + s), 5 * (day - jan1) + phi, s + 1);
            t.s == s && t.n == Thursday(day) - jan1 && t.f5 + 15 - t.d5 == 5 * t.n
  {
    NextJanuary(jan1, s);
    hide Rem, Trunc, MondayIndex, Thursday;
    var g := MondayIndex(jan1 + 365 + s) - s - 1;
    var t := WithWeekday(s, MondayIndex(jan1 + 365 + s), 5 * (day - jan1) + phi, s + 1);
    FractionCancels(day, jan1, phi, g, if g == MondayIndex(jan1) then 0 else 1, t);
  }

  lemma MarchFirst(y: int, m: int, d: int)
    requires IsDate(y, m - 1, d)
    ensures m > 2 ==> DaysBeforeMonth(y, m - 1) + d >= 60 + LeapDay(y)
    ensures m <= 2 ==> DaysBeforeMonth(y, m - 1) + d <= 60
  {
  }

  // ---- the three branches ----

  /** The branch `n<0`: the day falls in the last week of the year before, 52 or 53. */
  lemma LastWeek(day: int, jan1: int, before: int, s: int)
    requires Thursday(day) < jan1 <= day && jan1 - before == 365 + s && 0 <= s <= 1
    ensures before <= Thursday(day)
    ensures 53 - Trunc(MondayIndex(jan1) - s, 5) == WeeksBetween(before, Thursday(day)) + 1
  {
    var i := MondayIndex(jan1);
    var p := MondayQuotient(jan1);
    var q := MondayQuotient(day);
    assert q == p && Thursday(day) == jan1 + 3 - i && i > 3;
    hide Thursday, MondayIndex, Trunc, WeeksBetween;
    if i - s < 5 {
      TruncSmall(i - s, 5);
      WeeksAre(before, Thursday(day), 52);
    } else {
      TruncNear(i - s);
      WeeksAre(before, Thursday(day), 51);
    }
  }

  lemma TruncNear(a: int)
    requires 5 <= a < 10
    ensures Trunc(a, 5) == 1
  {
  }

  lemma EarlyNumber(day: int, jan1: int, before: int, t: Terms)
    requires jan1 <= day < jan1 + 60 && t.g == MondayIndex(jan1)
    requires t.n == Thursday(day) - jan1 && 0 <= t.s <= 1
    requires t.n < 0 ==> jan1 - before == 365 + t.s
    ensures var from := if t.n < 0 then before else jan1;
            from <= Thursday(day) < jan1 + 64 && Number(t) == WeeksBetween(from, Thursday(day)) + 1
  {
    if t.n < 0 {
      LastWeek(day, jan1, before, t.s);
    } else {
      TruncWeeks(jan1, Thursday(day));
    }
    hide MondayIndex, Trunc, WeeksBetween;
  }

  lemma LateNumber(day: int, jan1: int, next: int, t: Terms)
    requires jan1 + 59 <= day < next && next - jan1 == 365 + t.s && t.n == Thursday(day) - jan1
    ensures var from := if t.n > 364 + t.s then next else jan1;
            from <= Thursday(day) < next + 4 && Number(t) == WeeksBetween(from, Thursday(day)) + 1
  {
    hide MondayIndex, Trunc, WeeksBetween;
    TruncWeeks(jan1, Thursday(day));
    if t.n > 364 + t.s { WeeksAre(next, Thursday(day), 0); }
  }

  // ---- the formula meets the definition ----

  lemma IsoWeekFrom(day: int, z: int)
    requires DayFromYear(z) <= Thursday(day) < DayFromYear(z + 1)
    ensures IsoWeek(day) == WeeksBetween(DayFromYear(z), Thursday(day)) + 1
  {
    YearIs(Thursday(day), z);
    hide DayFromYear, Thursday, WeeksBetween;
  }

  lemma NumberOfTerms(y: int, m: int, d: int)
    requires 1 <= m <= 12
    ensures WeekNumber(y, m, d) == Number(WeekTerms(y, m, d))
  {
  }

  lemma EarlyWeekIsIso(y: int, m: int, d: int)
    requires y >= 1 && m <= 2 && IsDate(y, m - 1, d)
    ensures WeekNumber(y, m, d) == IsoWeek(MakeDay(y, m - 1, d))
  {
    hide LeapCount, DayFromYear, MondayIndex, MakeDay, WithWeekday, DaysBeforeMonth, WeekTerms, Thursday, Number, WeeksBetween, IsoWeek;
    EarlyTerms(y, m, d);
    MakeDayOfMonth(y, m - 1, d);
    MarchFirst(y, m, d);
    MadeDayInYear(y, m - 1, d);
    YearLength(y - 1);
    YearLength(y);
    var t := WeekTerms(y, m, d);
    var day := MakeDay(y, m - 1, d);
    if y == 1 { FirstYear(day); }
    assert 0 <= LeapDay(y) <= 1 && 0 <= t.s <= 1;
    hide *;
    NumberOfTerms(y, m, d);
    EarlyNumber(day, DayFromYear(y), DayFromYear(y - 1), t);
    IsoWeekFrom(day, if t.n < 0 then y - 1 else y);
  }

  lemma FirstYear(day: int)
    requires DayFromYear(1) <= day
    ensures DayFromYear(1) <= Thursday(day)
  {
    assert DayFromYear(1) + 3 == 7 * -102737;
    var q := MondayQuotient(day);
    hide DayFromYear, MondayIndex;
  }

  lemma LateWeekIsIso(y: int, m: int, d: int)
    requires y >= 1 && m > 2 && IsDate(y, m - 1, d)
    ensures WeekNumber(y, m, d) == IsoWeek(MakeDay(y, m - 1, d))
  {
    hide LeapCount, DayFromYear, MondayIndex, MakeDay, WithWeekday, DaysBeforeMonth, WeekTerms, Thursday, Number, WeeksBetween, IsoWeek;
    LateTerms(y, m, d);
    MakeDayOfMonth(y, m - 1, d);
    MarchFirst(y, m, d);
    MadeDayInYear(y, m - 1, d);
    YearLength(y);
    YearLength(y + 1);
    var t := WeekTerms(y, m, d);
    var day := MakeDay(y, m - 1, d);
    assert LeapDay(y) >= 0 && LeapDay(y + 1) >= 0;
    hide *;
    NumberOfTerms(y, m, d);
    LateNumber(day, DayFromYear(y), DayFromYear(y + 1), t);
    IsoWeekFrom(day, if t.n > 364 + t.s then y + 1 else y);
  }

  /** From year 1 on, `getWeek` is the ISO week. */
  lemma WeekNumberIsIso(y: int, m: int, d: int)
    requires y >= 1 && IsDate(y, m - 1, d)
    ensures WeekNumber(y, m, d) == IsoWeek(MakeDay(y, m - 1, d))
  {
    hide MakeDay, WeekNumber, IsoWeek;
    if m <= 2 { EarlyWeekIsIso(y, m, d); } else { LateWeekIsIso(y, m, d); }
  }

  // ---- year 0, which the library's own year check admits ----

  /** January and February of year 0: the truncated divisions leave the weekday of year 0's
      first day one short, so weeks begin on Sunday there, and January 1 counts as week 1. */
  predicate YearZeroMiss(y: int, m: int, d: int) {
    y == 0 && m <= 2 && (WeekDay(MakeDay(y, m - 1, d)) == 0 || (m == 1 && d == 1))
  }

  lemma YearZero(y: int)
    requires y == 0
    ensures DayFromYear(y - 1) == -719893 && DayFromYear(y) == -719528 && DayFromYear(y + 1) == -719162
    ensures LeapDay(y) == 1 && DayFromYear(y + 2) == -718797
    ensures LeapCount(y - 2) == LeapCount(y - 1) == LeapCount(y) == 0 && Rem(y - 1, 7) == -1 && Rem(y, 7) == 0
  {
    hide LeapCount, Rem;
    SmallLeapCount(y - 2);
    SmallLeapCount(y - 1);
    SmallLeapCount(y);
    TruncSmall(y - 1, 7);
    TruncSmall(y, 7);
  }

  lemma ZeroMonday(f: int) returns (q: int)
    ensures f - 719525 == 7 * (q - 102789) + MondayIndex(f - 719528)
  {
    q := MondayQuotient(f - 719528);
    q := q + 102789;
  }

  /** In the early part of year 0, `n` is off from the Thursday by the Sunday-based week. */
  lemma EarlyZeroTerm(f: int, day: int, t: Terms)
    requires 0 <= f && day == f - 719528 && t == WithWeekday(0, -1, 5 * f, 0)
    ensures t.n == if f == 0 then 4 else f + 3 - WeekDay(day)
  {
    hide Rem, Trunc, WeekDay, MondayIndex;
    WeekDayByMonday(day);
    var q := ZeroMonday(f);
    var i := MondayIndex(day);
    if f == 0 {
      TruncMinusFive(5 * f - 5);
    } else if i == 6 {
      RemFifths(5 * f - 5, q + 1, 0);
    } else {
      RemFifths(5 * f - 5, q, 5 * (i + 1));
    }
    TruncFifths(if f == 0 then 4 else f + 3 - WeekDay(day));
  }

  lemma TruncMinusFive(a: int)
    requires a == -5
    ensures Rem(a, 35) == -5
  {
  }

  lemma EarlyZeroNumber(f: int, day: int, t: Terms)
    requires 0 <= f < 60 && day == f - 719528 && t == WithWeekday(0, -1, 5 * f, 0)
    ensures var jan1 := if f <= 1 then -719893 else -719528;
            && jan1 <= Thursday(day) < jan1 + 365
            && (Number(t) == WeeksBetween(jan1, Thursday(day)) + 1 <==> f != 0 && WeekDay(day) != 0)
  {
    hide Rem, Trunc, WeekDay, MondayIndex, WeeksBetween;
    assert t.s == 0 && t.g == -1;
    EarlyZeroTerm(f, day, t);
    WeekDayByMonday(day);
    var q := ZeroMonday(f);
    var i := MondayIndex(day);
    if f <= 1 {
      TruncWeeks(0, 4);
      WeeksAre(0, 4, 0);
      WeeksAre(-719893, Thursday(day), 51);
    } else {
      TruncWeeks(0, t.n);
      WeeksAre(0, t.n, if i == 6 then q + 1 else q);
      WeeksAre(-719528, Thursday(day), q);
    }
  }

  lemma EarlyZero(y: int, m: int, d: int)
    requires y == 0 && m <= 2 && IsDate(y, m - 1, d)
    ensures WeekNumber(y, m, d) == IsoWeek(MakeDay(y, m - 1, d)) <==> !YearZeroMiss(y, m, d)
  {
    hide LeapCount, DayFromYear, MondayIndex, MakeDay, WithWeekday, WeekTerms, Thursday, Number, WeeksBetween, IsoWeek;
    hide Rem, WeekDay, LeapDay;
    YearZero(y);
    EarlyShape(y, m, d);
    MakeDayOfMonth(y, m - 1, d);
    MarchFirst(y, m, d);
    NumberOfTerms(y, m, d);
    var day := MakeDay(y, m - 1, d);
    var f := day + 719528;
    assert DaysBeforeMonth(y, m - 1) == 31 * (m - 1);
    hide DaysBeforeMonth, WeekNumber;
    EarlyZeroNumber(f, day, WeekTerms(y, m, d));
    IsoWeekFrom(day, if f <= 1 then y - 1 else y);
  }

  lemma LateZeroTerm(f: int, phi: int, day: int, t: Terms)
    requires 59 <= f && 0 <= phi < 5 && day == f - 719527 && t == WithWeekday(0, 0, 5 * f + phi, 1)
    ensures t.n == Thursday(day) + 719527
  {
    hide Rem, Trunc, MondayIndex;
    var q := ZeroMonday(f + 1);
    RemFifths(5 * f + phi - 5, q, 5 * MondayIndex(day) + phi);
    TruncFifths(f + 3 - MondayIndex(day));
  }

  lemma LateZeroNumber(f: int, phi: int, day: int, t: Terms)
    requires 59 <= f < 365 && 0 <= phi < 5 && day == f - 719527 && t == WithWeekday(0, 0, 5 * f + phi, 1)
    ensures var jan1 := if t.n > 364 then -719162 else -719528;
            && jan1 <= Thursday(day) < jan1 + (if t.n > 364 then 365 else 366)
            && Number(t) == WeeksBetween(jan1, Thursday(day)) + 1
  {
    hide Rem, Trunc, MondayIndex, WeeksBetween;
    assert t.s == 0;
    LateZeroTerm(f, phi, day, t);
    var q := ZeroMonday(f + 1);
    TruncWeeks(0, t.n);
    WeeksAre(0, t.n, q);
    if t.n > 364 { WeeksAre(-719162, Thursday(day), 0); } else { WeeksAre(-719528, Thursday(day), q); }
  }

  lemma LateZero(y: int, m: int, d: int)
    requires y == 0 && m > 2 && IsDate(y, m - 1, d)
    ensures WeekNumber(y, m, d) == IsoWeek(MakeDay(y, m - 1, d))
  {
    hide LeapCount, DayFromYear, MondayIndex, MakeDay, WithWeekday, WeekTerms, Thursday, Number, WeeksBetween, IsoWeek;
    hide Rem, LeapDay, DaysBeforeMonth, WeekNumber;
    YearZero(y);
    LateShape(y, m, d);
    MakeDayOfMonth(y, m - 1, d);
    MadeDayInYear(y, m - 1, d);
    MarchFirst(y, m, d);
    NumberOfTerms(y, m, d);
    var day := MakeDay(y, m - 1, d);
    var t := WeekTerms(y, m, d);
    LateZeroNumber(day + 719527, Fraction(m), day, t);
    IsoWeekFrom(day, if t.n > 364 then y + 1 else y);
  }

  /** The exact reach of `getWeek` over year 0 and everything after it. */
  lemma WeekNumberExact(y: int, m: int, d: int)
    requires y >= 0 && IsDate(y, m - 1, d)
    ensures WeekNumber(y, m, d) == IsoWeek(MakeDay(y, m - 1, d)) <==> !YearZeroMiss(y, m, d)
  {
    hide MakeDay, WeekNumber, IsoWeek, IsDate, WeekDay;
    assert 1 <= m <= 12 by { MonthInRange(y, m, d); }
    if y >= 1 { WeekNumberIsIso(y, m, d); }
    else if m <= 2 { EarlyZero(y, m, d); }
    else { LateZero(y, m, d); }
  }

  /** January 1 of year 0 lies in week 52 of the year before; `getWeek` says 1. */
  lemma YearZeroFails(y: int, m: int, d: int)
    requires y == 0 && m == 1 && d == 1
    ensures WeekNumber(y, m, d) == 1 && IsoWeek(MakeDay(y, m - 1, d)) == 52
  {
    hide DayFromYear, IsoWeek, MakeDay, LeapCount, Rem, Trunc, WithWeekday, WeekTerms, WeekNumber, Number;
    NumberOfTerms(y, m, d);
    ZeroTerms(y, m, d);
    ZeroNumber(WeekTerms(y, m, d));
    ZeroDay(y, m, d);
    YearZeroIso(y, MakeDay(y, m - 1, d));
  }

  lemma ZeroDay(y: int, m: int, d: int)
    requires m == 1 && d == 1
    ensures MakeDay(y, m - 1, d) == DayFromYear(y)
  {
    MakeDayOfMonth(y, m - 1, d);
    hide DayFromYear, MakeDay;
    assert DaysBeforeMonth(y, m - 1) == 0;
  }

  lemma ZeroTerms(y: int, m: int, d: int)
    requires y == 0 && m == 1 && d == 1
    ensures WeekTerms(y, m, d) == WithWeekday(0, -1, 0, 0)
  {
    hide DayFromYear, Rem, WithWeekday, LeapCount, WeekTerms;
    YearZero(y);
    EarlyShape(y, m, d);
  }

  lemma ZeroNumber(t: Terms)
    requires t == WithWeekday(0, -1, 0, 0)
    ensures Number(t) == 1
  {
    TruncMinusFive(-5);
    TruncFifths(4);
    TruncSmall(4, 7);
    hide Rem, Trunc;
  }

  lemma YearZeroIso(y: int, day: int)
    requires y == 0 && day == DayFromYear(y)
    ensures IsoWeek(day) == 52
  {
    YearZero(y);
    hide DayFromYear, LeapCount, Rem, Trunc, IsoWeek;
    MondayIs(day, -102790, 5);
    assert Thursday(day) == -719530;
    hide Thursday;
    WeeksAre(-719893, -719530, 51);
    IsoWeekFrom(day, y - 1);
  }

  lemma MonthInRange(y: int, m: int, d: int)
    requires IsDate(y, m - 1, d)
    ensures 1 <= m <= 12
  {
  }
}
