/** Formats in which not all of the six fields occur: what `finishExact` fills in. */
module PartialFormats {
  import opened Wrappers
  import opened Calendar
  import opened Clock
  import opened Format
  import opened Grammar

  // ---- what is filled in ----

  /** Seen from `finishExact`, hours or minutes without a date: no day, and neither month nor year
      other than zero, which January and a year 0 are. */
  predicate TimeAlone(ps: seq<Piece>, t: int) {
    && !Has(ps, DayField)
    && ((Has(ps, HourField) && Hour(t) != 0) || (Has(ps, MinuteField) && Minute(t) != 0))
    && !(Has(ps, MonthField) && MonthAt(t) != 0)
    && !(Has(ps, YearField) && Shown(YearField, t) != 0)
  }

  function YearFor(ps: seq<Piece>, t: int, now: int): int {
    if Has(ps, YearField) && Shown(YearField, t) != 0 then Shown(YearField, t) else YearAt(now)
  }

  function MonthFor(ps: seq<Piece>, t: int, now: int): (m: int)
    ensures IsMonth(m)
  {
    if Has(ps, MonthField) then MonthAt(t) else MonthAt(now)
  }

  function DateFor(ps: seq<Piece>, t: int, now: int): int {
    if Has(ps, DayField) then DateAt(t) else if TimeAlone(ps, t) then DateAt(now) else 1
  }

  /** The fields of a printed date, as far as the format shows them. */
  ghost predicate ShownIn(ps: seq<Piece>, t: int, m: Fields) {
    forall f :: (f in m <==> Has(ps, f)) && (f in m ==> m[f] == Shown(f, t))
  }

  lemma TruthyShown(ps: seq<Piece>, t: int, m: Fields)
    requires ShownIn(ps, t, m)
    ensures forall f :: Truthy(m, f) <==> Has(ps, f) && Shown(f, t) != 0
  {
    hide Has, Shown;
  }

  lemma DefaultIs(m: Fields, f: Field, n: int)
    ensures var r := Default(m, f, n);
            && f in r && r[f] == (if Truthy(m, f) then m[f] else n)
            && forall g :: g != f ==> (g in r <==> g in m) && (g in m ==> r[g] == m[g]) && (Truthy(r, g) <==> Truthy(m, g))
  {
  }

  /** Hours or minutes, and nothing of a date that counts. */
  predicate Alone(m: Fields) {
    (Truthy(m, HourField) || Truthy(m, MinuteField)) && !Truthy(m, MonthField) && !Truthy(m, YearField) && !Truthy(m, DayField)
  }

  predicate SameAt(r: Fields, m: Fields, f: Field) {
    (Truthy(r, f) <==> Truthy(m, f)) && (Truthy(r, f) ==> f in r && f in m && r[f] == m[f])
  }

  lemma DateFilled(m: Fields, now: int)
    requires DateAt(now) != 0
    ensures var r := FillDate(m, now);
            && r[YearField] == (if Truthy(m, YearField) then m[YearField] else YearAt(now))
            && r[MonthField] == (if MonthField in m then m[MonthField] else MonthAt(now))
            && (Truthy(r, DayField) <==> Truthy(m, DayField) || Alone(m))
            && (Truthy(r, DayField) ==> r[DayField] == if Truthy(m, DayField) then m[DayField] else DateAt(now))
            && SameAt(r, m, HourField) && SameAt(r, m, MinuteField) && SameAt(r, m, SecondField)
  {
    var m1 := if Alone(m) then m[DayField := DateAt(now)] else m;
    TodayIs(m, now, Alone(m));
    InTruthy(m);
    InTruthy(m1);
    hide Truthy, Default, YearAt, MonthAt, DateAt;
    var m2 := Default(m1, YearField, YearAt(now));
    DefaultIs(m1, YearField, YearAt(now));
    MonthIsSet(m2, now);
    assert FillDate(m, now) == if MonthField in m2 then m2 else m2[MonthField := MonthAt(now)];
  }

  lemma InTruthy(m: Fields)
    ensures forall f :: Truthy(m, f) ==> f in m
  {
  }

  /** What is filled in, field by field. */
  lemma Filled(m: Fields, now: int)
    requires DateAt(now) != 0
    ensures var r := FillIn(m, now);
            && r[YearField] == (if Truthy(m, YearField) then m[YearField] else YearAt(now))
            && r[MonthField] == (if MonthField in m then m[MonthField] else MonthAt(now))
            && r[DayField] == (if Truthy(m, DayField) then m[DayField] else if Alone(m) then DateAt(now) else 1)
            && r[HourField] == (if Truthy(m, HourField) then m[HourField] else 0)
            && r[MinuteField] == (if Truthy(m, MinuteField) then m[MinuteField] else 0)
            && r[SecondField] == (if Truthy(m, SecondField) then m[SecondField] else 0)
  {
    hide Truthy, Default, FillDate, YearAt, MonthAt, DateAt, Alone;
    DateFilled(m, now);
    InTruthy(m);
    var m3 := FillDate(m, now);
    InTruthy(m3);
    var m4 := Default(m3, DayField, 1);
    var m5 := Default(m4, HourField, 0);
    var m6 := Default(m5, MinuteField, 0);
    DefaultIs(m3, DayField, 1);
    DefaultIs(m4, HourField, 0);
    DefaultIs(m5, MinuteField, 0);
    DefaultIs(m6, SecondField, 0);
    assert FillIn(m, now) == Default(m6, SecondField, 0);
  }

  lemma TodayIs(m: Fields, now: int, alone: bool)
    requires DateAt(now) != 0
    ensures var r := if alone then m[DayField := DateAt(now)] else m;
            && (alone ==> Truthy(r, DayField) && r[DayField] == DateAt(now))
            && forall g :: g != DayField ==> (g in r <==> g in m) && (g in m ==> r[g] == m[g]) && (Truthy(r, g) <==> Truthy(m, g))
  {
    hide DateAt;
  }

  lemma MonthIsSet(m: Fields, now: int)
    ensures var r := if MonthField in m then m else m[MonthField := MonthAt(now)];
            forall g :: g != MonthField ==> (g in r <==> g in m) && (g in m ==> r[g] == m[g]) && (Truthy(r, g) <==> Truthy(m, g))
  {
    hide MonthAt;
  }

  lemma ShownValues(t: int)
    ensures Shown(MonthField, t) == MonthAt(t) && Shown(DayField, t) == DateAt(t) && DateAt(t) >= 1
    ensures Shown(HourField, t) == Hour(t) && Shown(MinuteField, t) == Minute(t) && Shown(SecondField, t) == Second(t)
  {
    FieldRanges(t);
    hide YearAt, MonthAt, DateAt, Hour, Minute, Second;
  }

  lemma FilledShown(ps: seq<Piece>, t: int, m: Fields, now: int)
    requires ShownIn(ps, t, m)
    ensures var r := FillIn(m, now);
            && r[YearField] == YearFor(ps, t, now) && r[MonthField] == MonthFor(ps, t, now)
            && r[DayField] == DateFor(ps, t, now)
            && r[HourField] == (if Has(ps, HourField) then Hour(t) else 0)
            && r[MinuteField] == (if Has(ps, MinuteField) then Minute(t) else 0)
            && r[SecondField] == (if Has(ps, SecondField) then Second(t) else 0)
  {
    hide FillIn, Truthy, Has, Shown, YearAt, MonthAt, DateAt, Hour, Minute, Second;
    ShownValues(t);
    ShownValues(now);
    TruthyShown(ps, t, m);
    Filled(m, now);
  }

  // ---- what comes back ----

  lemma ReadShown(fmt: string, t: int, text: string -> string, rules: Rules)
    requires SixPieces(Pieces(fmt)) && AsWritten(rules)
    ensures var r := FieldsRead(Print(fmt, t, text), fmt, rules);
            if Has(Pieces(fmt), YearField) && !YearShows(t) then r == None
            else r.Some? && ShownIn(Pieces(fmt), t, r.value)
  {
    hide Pieces, Print, PiecesText, ParsePieces, Setters, Apply, Shown, YearShows, AsWritten, Has;
    var ps := Pieces(fmt);
    SixIsShared(fmt);
    TokenizersAgree(fmt, t, text);
    PiecesBack(ps, t, text, rules);
    if !(Has(ps, YearField) && !YearShows(t)) { SettersSet(ps, t, map[]); }
  }

  lemma NewDateIs(y: int, m: int, d: int, h: int, mi: int, s: int)
    requires y != 0 && IsDate(y, m, d) && IsTime(h, mi, s, 0)
    ensures var r := NewDate(y, m, d, h, mi, s); YearAt(r) == Century(y) && MonthAt(r) == m && DateAt(r) == d
  {
    if 1 <= y <= 99 { SameFebruary(y, m); }
    hide DaysInMonth, YearOf, MonthOf, DateOf, Day, MakeDay, MakeTime, MakeDate;
    FieldsOfMadeDay(Century(y), m, d);
    FieldsOfTime(MakeDay(Century(y), m, d), h, mi, s, 0);
  }

  lemma NewDateTime(y: int, m: int, d: int, h: int, mi: int, s: int)
    requires IsTime(h, mi, s, 0)
    ensures var r := NewDate(y, m, d, h, mi, s); Hour(r) == h && Minute(r) == mi && Second(r) == s && Milli(r) == 0
  {
    hide Hour, Minute, Second, Milli, Day, TimeInDay, MakeDay, MakeTime, MakeDate, Century;
    FieldsOfTime(MakeDay(Century(y), m, d), h, mi, s, 0);
  }

  lemma FinishedIs(fields: Fields, now: int, y: int, m: int, d: int)
    requires IsMonth(m) && d >= 1
    requires var r := FillIn(fields, now);
             && r[YearField] == y && r[MonthField] == m && r[DayField] == d
             && IsTime(r[HourField], r[MinuteField], r[SecondField], 0)
    ensures var f := FillIn(fields, now); var r := FinishExact(fields, now);
            if d > DaysInMonth(y, m) then r == None
            else && r.Some? && Hour(r.value) == f[HourField] && Minute(r.value) == f[MinuteField]
                 && Second(r.value) == f[SecondField] && Milli(r.value) == 0
                 && (y != 0 ==> YearAt(r.value) == Century(y) && MonthAt(r.value) == m && DateAt(r.value) == d)
  {
    hide FillIn, NewDate, YearAt, MonthAt, DateAt, Hour, Minute, Second, Milli, DaysInMonth, Century;
    var r := FillIn(fields, now);
    NewDateTime(y, m, d, r[HourField], r[MinuteField], r[SecondField]);
    if d <= DaysInMonth(y, m) && y != 0 { NewDateIs(y, m, d, r[HourField], r[MinuteField], r[SecondField]); }
  }

  lemma ForRanges(ps: seq<Piece>, t: int, now: int)
    ensures IsMonth(MonthFor(ps, t, now)) && DateFor(ps, t, now) >= 1
  {
    FieldRanges(t);
    FieldRanges(now);
    hide Has, YearAt, MonthAt, DateAt, TimeAlone;
  }

  /** The result of parsing what shows the fields `ps` of `t`. */
  ghost predicate IsPartial(ps: seq<Piece>, t: int, now: int, r: Option<int>) {
    var y, m, d := YearFor(ps, t, now), MonthFor(ps, t, now), DateFor(ps, t, now);
    if d > DaysInMonth(y, m) then r == None
    else && r.Some?
         && Hour(r.value) == (if Has(ps, HourField) then Hour(t) else 0)
         && Minute(r.value) == (if Has(ps, MinuteField) then Minute(t) else 0)
         && Second(r.value) == (if Has(ps, SecondField) then Second(t) else 0) && Milli(r.value) == 0
         && (y != 0 ==> YearAt(r.value) == Century(y) && MonthAt(r.value) == m && DateAt(r.value) == d)
  }

  lemma ShownFinishes(ps: seq<Piece>, t: int, fields: Fields, now: int)
    requires ShownIn(ps, t, fields)
    ensures IsPartial(ps, t, now, FinishExact(fields, now))
  {
    FieldRanges(t);
    hide Has, Shown, YearAt, MonthAt, DateAt, Hour, Minute, Second, Milli, FillIn, DaysInMonth, ShownIn, Century, FinishExact,
         YearFor, MonthFor, DateFor;
    FilledShown(ps, t, fields, now);
    ForRanges(ps, t, now);
    FinishedIs(fields, now, YearFor(ps, t, now), MonthFor(ps, t, now), DateFor(ps, t, now));
  }

  /** Printing a date by any format of separators and some of the six tokens and parsing it back
      gives the fields shown.  A missing hour, minute or second is 0, a missing year or month is
      that of `now`, and a missing day is 1, or today's for a time alone. */
  lemma PartialBack(fmt: string, t: int, text: string -> string, rules: Rules, now: int)
    requires |fmt| > 1 && SixPieces(Pieces(fmt)) && AsWritten(rules)
    ensures var r := ParseExact(Print(fmt, t, text), fmt, rules, now);
            if Has(Pieces(fmt), YearField) && !YearShows(t) then r == None else IsPartial(Pieces(fmt), t, now, r)
  {
    hide Pieces, Print, FieldsRead, Has, YearShows, ShownIn, IsPartial, FinishExact, AsWritten, SixPieces;
    ReadShown(fmt, t, text, rules);
    var fields := FieldsRead(Print(fmt, t, text), fmt, rules);
    if fields.Some? { ShownFinishes(Pieces(fmt), t, fields.value, now); }
  }

  lemma PlainYear(ps: seq<Piece>, t: int, now: int)
    requires 100 <= YearAt(t) <= 9999
    ensures YearShows(t) && Shown(YearField, t) == YearAt(t)
  {
    var y := YearAt(t);
    hide YearAt, Pad, Value, Four;
    PadFour(y);
    Remainders(y);
    FourDigits(y);
    ShownYear(t);
  }

  lemma SameFields(r: int, day: int)
    requires YearAt(r) == YearOf(day) && MonthAt(r) == MonthOf(day) && DateAt(r) == DateOf(day)
    ensures Day(r) == day
  {
    hide YearOf, MonthOf, DateOf, MakeDay, Day;
    MadeDayOfFields(Day(r));
    MadeDayOfFields(day);
  }

  /** A date printed without a time comes back as the midnight of that day. */
  lemma DateOnly(fmt: string, t: int, text: string -> string, rules: Rules, now: int)
    requires |fmt| > 1 && SixPieces(Pieces(fmt)) && AsWritten(rules) && 100 <= YearAt(t) <= 9999
    requires var ps := Pieces(fmt);
             && Has(ps, YearField) && Has(ps, MonthField) && Has(ps, DayField)
             && !Has(ps, HourField) && !Has(ps, MinuteField) && !Has(ps, SecondField)
    ensures ParseExact(Print(fmt, t, text), fmt, rules, now) == Some(MakeDate(Day(t), 0))
  {
    hide Pieces, Print, ParseExact, Has, Shown, YearAt, MonthAt, DateAt, Hour, Minute, Second, Milli, YearShows, DaysInMonth,
         Day, MakeDate, AsWritten, TimeAlone;
    PartialBack(fmt, t, text, rules, now);
    PlainYear(Pieces(fmt), t, now);
    OwnMonth(t);
    var ps := Pieces(fmt);
    assert YearFor(ps, t, now) == YearAt(t) && MonthFor(ps, t, now) == MonthAt(t) && DateFor(ps, t, now) == DateAt(t);
    assert Century(YearAt(t)) == YearAt(t);
    var r := ParseExact(Print(fmt, t, text), fmt, rules, now);
    assert r.Some?;
    DayAgain(r.value, t);
    TimeHasFields(r.value);
  }

  lemma DayAgain(r: int, t: int)
    requires YearAt(r) == YearAt(t) && MonthAt(r) == MonthAt(t) && DateAt(r) == DateAt(t)
    ensures Day(r) == Day(t)
  {
    hide YearOf, MonthOf, DateOf, Day;
    SameFields(r, Day(t));
  }

  /** A time printed without a date comes back on today's date, unless it is in the first minute of
      the day: that is put on the first of this month, so it is on today's date only on a first. */
  lemma TimeOnlyExactly(fmt: string, t: int, text: string -> string, rules: Rules, now: int)
    requires |fmt| > 1 && SixPieces(Pieces(fmt)) && AsWritten(rules) && YearAt(now) >= 100
    requires var ps := Pieces(fmt);
             && !Has(ps, YearField) && !Has(ps, MonthField) && !Has(ps, DayField)
             && Has(ps, HourField) && Has(ps, MinuteField)
    ensures var r := ParseExact(Print(fmt, t, text), fmt, rules, now);
            && r.Some? && Hour(r.value) == Hour(t) && Minute(r.value) == Minute(t)
            && (Day(r.value) == Day(now) <==> Hour(t) != 0 || Minute(t) != 0 || DateAt(now) == 1)
  {
    hide Pieces, Print, ParseExact, Has, Shown, YearAt, MonthAt, DateAt, Hour, Minute, Second, Milli, YearShows, DaysInMonth,
         Day, AsWritten;
    PartialBack(fmt, t, text, rules, now);
    OwnMonth(now);
    FieldRanges(now);
    assert Century(YearAt(now)) == YearAt(now);
    var ps := Pieces(fmt);
    assert YearFor(ps, t, now) == YearAt(now) && MonthFor(ps, t, now) == MonthAt(now);
    assert ParseExact(Print(fmt, t, text), fmt, rules, now).Some?;
    var r := ParseExact(Print(fmt, t, text), fmt, rules, now).value;
    if Hour(t) != 0 || Minute(t) != 0 || DateAt(now) == 1 {
      DayAgain(r, now);
    } else {
      OtherDate(r, now);
    }
  }

  lemma OtherDate(r: int, t: int)
    requires DateAt(r) != DateAt(t)
    ensures Day(r) != Day(t)
  {
  }

  /** Month and time without a day: the day is 1, but for January, which counts as no month: there
      it is today's. */
  lemma JanuaryIsNoMonth(ps: seq<Piece>, t: int, now: int)
    requires Has(ps, MonthField) && Has(ps, HourField) && !Has(ps, DayField) && !Has(ps, YearField) && Hour(t) != 0
    ensures DateFor(ps, t, now) == if MonthAt(t) == 0 then DateAt(now) else 1
  {
    hide Has, MonthAt, DateAt, Hour, Minute;
  }
}
