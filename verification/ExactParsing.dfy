/** Which texts a format of the six tokens accepts, and as what: parsing is determined on every
    text of digits and separators, and printing is its inverse on both sides. */
module ExactParsing {
  import opened Wrappers
  import opened Calendar
  import opened Clock
  import opened Operators
  import opened Format
  import opened Grammar
  import opened PartialFormats

  // ---- the text of given fields ----

  /** The numbers that can stand in the places of a field; a month may be written 00. */
  predicate InPlaces(f: Field, n: int) {
    match f
    case YearField => 0 <= n <= 9999
    case MonthField => -1 <= n <= 11
    case DayField => 0 <= n <= 31
    case HourField => 0 <= n <= 23
    case MinuteField => 0 <= n <= 59
    case SecondField => 0 <= n <= 59
  }

  predicate AllInPlaces(m: Fields) {
    forall f :: f in m && InPlaces(f, m[f])
  }

  function FieldText(f: Field, n: int): string
    requires InPlaces(f, n)
  {
    if f.YearField? then Four(n) else Two(if f.MonthField? then n + 1 else n)
  }

  /** The text of the pieces with these fields. */
  function Written(ps: seq<Piece>, m: Fields): string
    requires SixPieces(ps) && AllInPlaces(m)
  {
    if ps == [] then ""
    else
      (match ps[0]
       case Literal(s) => s
       case Token(tok) =>
         var f := TokenField(tok).value;
         assert IsSixPiece(ps[0]) && InPlaces(f, m[f]);
         FieldText(f, m[f]))
      + Written(ps[1..], m)
  }

  function SettersOf(ps: seq<Piece>, m: Fields): seq<Setter>
    requires SixPieces(ps) && AllInPlaces(m)
  {
    if ps == [] then []
    else
      [match ps[0]
       case Literal(_) => Skip
       case Token(tok) =>
         var f := TokenField(tok).value;
         assert IsSixPiece(ps[0]) && InPlaces(f, m[f]);
         Put(f, m[f])]
      + SettersOf(ps[1..], m)
  }

  // ---- digits and numbers ----

  lemma TwoOfValue(s: string)
    requires |s| == 2 && AllDigits(s)
    ensures 0 <= Value(s) < 100 && Two(Value(s)) == s
  {
    var a, b := Val(s[0]), Val(s[1]);
    assert s[..1] == [s[0]] && s[..1][..0] == "";
    assert Value(s[..1]) == a && Value(s) == 10 * a + b;
    TenIs(10 * a + b, a, b);
  }

  lemma FourOfValue(s: string)
    requires |s| == 4 && AllDigits(s)
    ensures 0 <= Value(s) < 10000 && Four(Value(s)) == s
  {
    var front, back := s[..2], s[2..];
    TwoOfValue(front);
    TwoOfValue(back);
    ValueOfPair(s, front, back);
    HundredIs(Value(s), Value(front), Value(back));
    hide Value, Two, AllDigits;
    assert s == front + back;
  }

  lemma ValueOfPair(s: string, front: string, back: string)
    requires |s| == 4 && front == s[..2] && back == s[2..]
    ensures Value(s) == 100 * Value(front) + Value(back)
  {
    assert s[..3][..2] == front && s[..3][2] == back[0] && s[3] == back[1];
    assert back[..1] == [back[0]] && back[..1][..0] == "";
    assert Value(back[..1]) == Val(back[0]) && Value(back) == 10 * Val(back[0]) + Val(back[1]);
    assert Value(s[..3]) == 10 * Value(front) + Val(back[0]);
  }

  lemma TextDigits(f: Field, n: int)
    requires InPlaces(f, n)
    ensures var x := FieldText(f, n);
            |x| == Width(f) && AllDigits(x) && Value(x) == if f.MonthField? then n + 1 else n
  {
    if f.YearField? { FourDigits(n); ValueOfFour(n); } else { TwoDigits(if f.MonthField? then n + 1 else n); }
    hide Value;
  }

  // ---- what a rule accepts ----

  /** A rule reads the text of every number that can stand there ... */
  lemma RuleReads(f: Field, n: int, rest: string)
    requires InPlaces(f, n) && AllPlain(rest)
    ensures FieldRule(f, FieldText(f, n) + rest) == Success(Put(f, n), rest)
  {
    TextDigits(f, n);
    PlainHasNoOrdinal(rest);
    TakePrefix(FieldText(f, n), rest, Width(f));
    hide FieldText, TakeDigits, AllDigits, Value, SkipOrdinal, AllPlain;
  }

  lemma TakenDigits(s: string, w: nat)
    requires AllPlain(s) && TakeDigits(s, w).Success?
    ensures |s| >= w && AllDigits(s[..w]) && s == s[..w] + s[w..] && AllPlain(s[w..])
    ensures TakeDigits(s, w) == Success(Value(s[..w]), s[w..])
  {
    hide Value, IsPlain, IsDigit;
  }

  /** The number that digits stand for. */
  function NumberOf(f: Field, x: string): int {
    if f.MonthField? then Value(x) - 1 else Value(x)
  }

  lemma DigitsAreText(f: Field, x: string)
    requires |x| == Width(f) && AllDigits(x) && Admits(f, Value(x))
    ensures InPlaces(f, NumberOf(f, x)) && FieldText(f, NumberOf(f, x)) == x
  {
    if f.YearField? { FourOfValue(x); } else { TwoOfValue(x); }
    hide AllDigits, Value, Two, Four;
  }

  /** ... and of plain texts no others. */
  lemma RuleReadsOnly(f: Field, s: string)
    requires AllPlain(s) && FieldRule(f, s).Success?
    ensures var r := FieldRule(f, s);
            && r.value.Put? && r.value.field == f && InPlaces(f, r.value.value)
            && s == FieldText(f, r.value.value) + r.rest && AllPlain(r.rest)
  {
    hide AllDigits, Value, SkipOrdinal, AllPlain, TakeDigits, FieldText, InPlaces, Admits;
    var w := Width(f);
    TakenDigits(s, w);
    PlainHasNoOrdinal(s[w..]);
    DigitsAreText(f, s[..w]);
  }

  /** Behind a day, an ordinal ending is taken, white space before it included. */
  lemma OrdinalTaken(n: int, suffix: string, rest: string)
    requires InPlaces(DayField, n)
    requires suffix in {"st", "nd", "rd", "th", "ST", "ND", "RD", "TH", " st", " nd", " rd", " th"}
    ensures FieldRule(DayField, FieldText(DayField, n) + (suffix + rest)) == Success(Put(DayField, n), rest)
  {
    TextDigits(DayField, n);
    TakePrefix(FieldText(DayField, n), suffix + rest, 2);
    hide FieldText, TakeDigits, AllDigits, Value;
    SuffixSkipped(suffix, rest);
    hide SkipOrdinal;
  }

  lemma SuffixSkipped(suffix: string, rest: string)
    requires suffix in {"st", "nd", "rd", "th", "ST", "ND", "RD", "TH", " st", " nd", " rd", " th"}
    ensures SkipOrdinal(suffix + rest) == rest
  {
    hide SkipSpace, IsSpace, IsOrdinal, SkipOrdinal;
    if |suffix| == 2 {
      assert IsOrdinal(suffix[0], suffix[1]) && !IsSpace(suffix[0]) by { SuffixLetters(suffix); }
      PairSkipped("", suffix[0], suffix[1], rest);
      assert "" + [suffix[0], suffix[1]] + rest == suffix + rest;
    } else {
      assert suffix[0] == ' ' && IsOrdinal(suffix[1], suffix[2]) && !IsSpace(suffix[1]) by { SpacedLetters(suffix); }
      PairSkipped(" ", suffix[1], suffix[2], rest);
      assert " " + [suffix[1], suffix[2]] + rest == suffix + rest;
    }
  }

  lemma SuffixLetters(suffix: string)
    requires suffix in {"st", "nd", "rd", "th", "ST", "ND", "RD", "TH"}
    ensures IsOrdinal(suffix[0], suffix[1]) && !IsSpace(suffix[0])
  {
  }

  lemma SpacedLetters(suffix: string)
    requires suffix in {" st", " nd", " rd", " th"}
    ensures suffix[0] == ' ' && IsOrdinal(suffix[1], suffix[2]) && !IsSpace(suffix[1])
  {
  }

  lemma PairSkipped(space: string, a: char, b: char, rest: string)
    requires (space == "" || space == " ") && IsOrdinal(a, b) && !IsSpace(a)
    ensures SkipOrdinal(space + [a, b] + rest) == rest
  {
    hide IsOrdinal;
    var s := space + [a, b] + rest;
    var t := [a, b] + rest;
    assert SkipSpace(t) == t && t[2..] == rest;
    if space == " " {
      assert s[0] == ' ' && s[1..] == t && IsSpace(' ');
      assert SkipSpace(s) == SkipSpace(t);
    } else {
      assert s == t;
    }
  }

  // ---- what a format accepts ----

  lemma PlainText(f: Field, n: int, rest: string)
    requires InPlaces(f, n) && AllPlain(rest)
    ensures AllPlain(FieldText(f, n) + rest)
  {
    TextDigits(f, n);
    hide FieldText, Value;
  }

  lemma {:induction false} WrittenBack(ps: seq<Piece>, m: Fields, rules: Rules)
    requires SixPieces(ps) && AllInPlaces(m) && AsWritten(rules)
    ensures AllPlain(Written(ps, m)) && ParsePieces(ps, rules, Written(ps, m)) == Success(SettersOf(ps, m), "")
  {
    hide FieldRule, FieldText, AllPlain, TokenField, AllInPlaces;
    if ps == [] {
      assert AllPlain("") by { NothingIsPlain(); }
    } else {
      WrittenBack(ps[1..], m, rules);
      var rest := Written(ps[1..], m);
      assert IsSixPiece(ps[0]);
      if ps[0].Token? {
        var f := TokenField(ps[0].t).value;
        assert f in m && InPlaces(f, m[f]) by { PlaceOf(m, f); }
        PlainText(f, m[f], rest);
        RuleReads(f, m[f], rest);
      } else {
        SeparatorsPlain(ps[0].s, rest);
        assert (ps[0].s + rest)[..|ps[0].s|] == ps[0].s && (ps[0].s + rest)[|ps[0].s|..] == rest;
      }
    }
  }

  lemma NothingIsPlain()
    ensures AllPlain("")
  {
  }

  lemma PlaceOf(m: Fields, f: Field)
    requires AllInPlaces(m)
    ensures f in m && InPlaces(f, m[f])
  {
  }

  lemma SeparatorsPlain(s: string, rest: string)
    requires AllPlain(rest) && forall i :: 0 <= i < |s| ==> IsSeparator(s[i])
    ensures AllPlain(s + rest)
  {
  }

  lemma {:induction false} SettersOfSet(ps: seq<Piece>, m: Fields, start: Fields)
    requires SixPieces(ps) && AllInPlaces(m) && forall f :: f in start ==> start[f] == m[f]
    ensures var r := Apply(SettersOf(ps, m), start);
            forall f :: (f in r <==> f in start || Has(ps, f)) && (f in r ==> r[f] == m[f])
  {
    hide TokenField, InPlaces;
    if ps != [] {
      assert IsSixPiece(ps[0]);
      var first := SettersOf(ps, m)[0];
      var next := match first case Skip => start case Put(f, n) => start[f := n];
      assert SettersOf(ps, m)[1..] == SettersOf(ps[1..], m);
      SettersOfSet(ps[1..], m, next);
      forall f ensures Has(ps, f) <==> (ps[0].Token? && TokenField(ps[0].t) == Some(f)) || Has(ps[1..], f) {
        HasCons(ps, f);
      }
    }
  }

  /** Every text written by a format with all six fields is read as those fields. */
  lemma WrittenIsRead(fmt: string, m: Fields, rules: Rules)
    requires SixFormat(fmt) && AllInPlaces(m) && AsWritten(rules)
    ensures FieldsRead(Written(Pieces(fmt), m), fmt, rules) == Some(m)
  {
    var ps := Pieces(fmt);
    hide Pieces, Has, Written, SettersOf, ParsePieces, Apply, InPlaces, AsWritten, SixPieces;
    WrittenBack(ps, m, rules);
    SettersOfSet(ps, m, map[]);
    assert Apply(SettersOf(ps, m), map[]) == m;
  }

  /** No field occurs twice. */
  predicate Once(ps: seq<Piece>) {
    forall i, j :: 0 <= i < j < |ps| && ps[i].Token? && ps[j].Token? ==> TokenField(ps[i].t) != TokenField(ps[j].t)
  }

  lemma OnceTail(ps: seq<Piece>)
    requires Once(ps) && ps != []
    ensures Once(ps[1..])
    ensures ps[0].Token? && TokenField(ps[0].t).Some? ==> !Has(ps[1..], TokenField(ps[0].t).value)
  {
    hide TokenField;
    assert forall i :: 0 <= i < |ps| - 1 ==> ps[1..][i] == ps[i + 1];
  }

  lemma ParseHead(ps: seq<Piece>, rules: Rules, s: string)
    requires ps != [] && ParsePieces(ps, rules, s).Success?
    ensures var one := PieceRule(ps[0], rules, s);
            && one.Success? && ParsePieces(ps[1..], rules, one.rest).Success?
            && ParsePieces(ps, rules, s).rest == ParsePieces(ps[1..], rules, one.rest).rest
  {
    hide PieceRule;
  }

  lemma WrittenHead(ps: seq<Piece>, m: Fields)
    requires SixPieces(ps) && AllInPlaces(m) && ps != []
    ensures IsSixPiece(ps[0]) && SixPieces(ps[1..])
    ensures ps[0].Literal? ==> Written(ps, m) == ps[0].s + Written(ps[1..], m)
    ensures ps[0].Token? ==> var f := TokenField(ps[0].t).value;
              f in m && InPlaces(f, m[f]) && Written(ps, m) == FieldText(f, m[f]) + Written(ps[1..], m)
  {
    hide TokenField, InPlaces, FieldText;
  }

  lemma HeadIsSix(ps: seq<Piece>)
    requires SixPieces(ps) && ps != []
    ensures IsSixPiece(ps[0]) && SixPieces(ps[1..])
  {
    hide TokenField;
  }

  lemma RuleOfToken(tok: string, rules: Rules, s: string)
    requires TokenField(tok).Some? && AsWritten(rules) && AllPlain(s)
    ensures PieceRule(Token(tok), rules, s) == FieldRule(TokenField(tok).value, s)
  {
    hide FieldRule, TokenField, AllPlain;
  }

  lemma RuleOfLiteral(lit: string, rules: Rules, s: string)
    requires PieceRule(Literal(lit), rules, s).Success? && AllPlain(s)
    ensures var r := PieceRule(Literal(lit), rules, s); s == lit + r.rest && AllPlain(r.rest)
  {
    LiteralGoes(s, lit);
    hide AllPlain;
  }

  lemma Regroup(a: string, b: string, c: string)
    ensures a + (b + c) == a + b + c
  {
  }

  /** A plain text that the pieces accept is written with some fields, and leaves the rest. */
  lemma {:induction false} ReadIsWritten(ps: seq<Piece>, s: string, rules: Rules) returns (m: Fields, rest: string)
    requires SixPieces(ps) && Once(ps) && AllPlain(s) && AsWritten(rules) && ParsePieces(ps, rules, s).Success?
    ensures AllInPlaces(m) && rest == ParsePieces(ps, rules, s).rest && s == Written(ps, m) + rest
  {
    if ps == [] {
      m, rest := SomeFields(), s;
    } else {
      hide FieldRule, FieldText, AllPlain, TokenField, InPlaces, AllInPlaces, Has, PieceRule, ParsePieces, Written, SixPieces, Once, AsWritten;
      HeadIsSix(ps);
      OnceTail(ps);
      ParseHead(ps, rules, s);
      var one := PieceRule(ps[0], rules, s);
      if ps[0].Token? {
        var f := TokenField(ps[0].t).value;
        RuleOfToken(ps[0].t, rules, s);
        RuleReadsOnly(f, s);
        m, rest := ReadIsWritten(ps[1..], one.rest, rules);
        var n := one.value.value;
        OtherField(ps[1..], m, f, n);
        Regroup(FieldText(f, n), Written(ps[1..], m), rest);
        m := m[f := n];
      } else {
        RuleOfLiteral(ps[0].s, rules, s);
        m, rest := ReadIsWritten(ps[1..], one.rest, rules);
        Regroup(ps[0].s, Written(ps[1..], m), rest);
      }
      WrittenHead(ps, m);
    }
  }

  lemma LiteralGoes(s: string, lit: string)
    requires AllPlain(s) && StartsWith(s, lit)
    ensures s == lit + s[|lit|..] && AllPlain(s[|lit|..])
  {
  }

  lemma AllSix(m: Fields)
    requires YearField in m && MonthField in m && DayField in m && HourField in m && MinuteField in m && SecondField in m
    requires InPlaces(YearField, m[YearField]) && InPlaces(MonthField, m[MonthField]) && InPlaces(DayField, m[DayField])
    requires InPlaces(HourField, m[HourField]) && InPlaces(MinuteField, m[MinuteField]) && InPlaces(SecondField, m[SecondField])
    ensures AllInPlaces(m)
  {
    hide InPlaces;
    forall f ensures f in m && InPlaces(f, m[f]) {
      match f
      case YearField =>
      case MonthField =>
      case DayField =>
      case HourField =>
      case MinuteField =>
      case SecondField =>
    }
  }

  function SomeFields(): (m: Fields)
    ensures AllInPlaces(m)
  {
    AllSix(map[YearField := 0, MonthField := 0, DayField := 0, HourField := 0, MinuteField := 0, SecondField := 0]);
    map[YearField := 0, MonthField := 0, DayField := 0, HourField := 0, MinuteField := 0, SecondField := 0]
  }

  lemma {:induction false} OtherField(ps: seq<Piece>, m: Fields, f: Field, n: int)
    requires SixPieces(ps) && AllInPlaces(m) && InPlaces(f, n) && !Has(ps, f)
    ensures AllInPlaces(m[f := n]) && Written(ps, m[f := n]) == Written(ps, m)
  {
    hide TokenField, InPlaces, FieldText;
    if ps != [] {
      assert IsSixPiece(ps[0]);
      HasCons(ps, f);
      OtherField(ps[1..], m, f, n);
    }
  }

  /** A plain text is accepted by a format in which each of the six fields occurs once exactly if it
      is, as a whole, the text of numbers that can stand there; and it is read as these. */
  lemma AcceptsExactly(fmt: string, s: string, rules: Rules)
    requires SixFormat(fmt) && Once(Pieces(fmt)) && AsWritten(rules) && AllPlain(s)
    ensures FieldsRead(s, fmt, rules).Some? <==> exists m :: AllInPlaces(m) && s == Written(Pieces(fmt), m)
    ensures FieldsRead(s, fmt, rules).Some? ==>
              var m := FieldsRead(s, fmt, rules).value; AllInPlaces(m) && s == Written(Pieces(fmt), m)
  {
    hide Pieces, Written, ParsePieces, AllInPlaces, AsWritten, Once, AllPlain, Apply;
    if FieldsRead(s, fmt, rules).Some? {
      var m, rest := ReadIsWritten(Pieces(fmt), s, rules);
      assert s + "" == s;
      WrittenIsRead(fmt, m, rules);
    }
    if m :| AllInPlaces(m) && s == Written(Pieces(fmt), m) { WrittenIsRead(fmt, m, rules); }
  }

  // ---- as what it is accepted ----

  /** No field is filled in, and the year is not read as one of the 20th century. */
  predicate IsFull(m: Fields) {
    AllInPlaces(m) && m[YearField] >= 100 && m[MonthField] >= 0 && m[DayField] >= 1
  }

  lemma FullFields(m: Fields)
    requires IsFull(m)
    ensures forall f :: f in m
    ensures 100 <= m[YearField] <= 9999 && IsMonth(m[MonthField]) && 1 <= m[DayField] <= 31
    ensures IsTime(m[HourField], m[MinuteField], m[SecondField], 0)
  {
    PlaceOf(m, YearField);
    PlaceOf(m, MonthField);
    PlaceOf(m, DayField);
    PlaceOf(m, HourField);
    PlaceOf(m, MinuteField);
    PlaceOf(m, SecondField);
  }

  lemma FullFilled(m: Fields, now: int)
    requires IsFull(m)
    ensures var r := FillIn(m, now);
            && r[YearField] == m[YearField] && r[MonthField] == m[MonthField] && r[DayField] == m[DayField]
            && r[HourField] == m[HourField] && r[MinuteField] == m[MinuteField] && r[SecondField] == m[SecondField]
  {
    FullFields(m);
    FieldRanges(now);
    assert Truthy(m, YearField) && Truthy(m, DayField);
    hide FillIn, AllInPlaces, YearAt, MonthAt, DateAt;
    Filled(m, now);
  }

  /** The text of full fields is parsed as exactly these fields, or rejected if there is no such day. */
  lemma TextParses(fmt: string, m: Fields, rules: Rules, now: int)
    requires SixFormat(fmt) && AsWritten(rules) && IsFull(m)
    ensures var r := ParseExact(Written(Pieces(fmt), m), fmt, rules, now);
            if !IsDate(m[YearField], m[MonthField], m[DayField]) then r == None
            else && r.Some?
                 && YearAt(r.value) == m[YearField] && MonthAt(r.value) == m[MonthField] && DateAt(r.value) == m[DayField]
                 && Hour(r.value) == m[HourField] && Minute(r.value) == m[MinuteField] && Second(r.value) == m[SecondField]
                 && Milli(r.value) == 0
  {
    hide Pieces, Written, FieldsRead, FillIn, FinishExact, YearAt, MonthAt, DateAt, Hour, Minute, Second, Milli, DaysInMonth,
         AsWritten, SixFormat;
    WrittenIsRead(fmt, m, rules);
    FullFields(m);
    FullFilled(m, now);
    FinishedIs(m, now, m[YearField], m[MonthField], m[DayField]);
  }

  /** There is no 30 February, in any format and at any time. */
  lemma ThirtiethOfFebruary(fmt: string, m: Fields, rules: Rules, now: int)
    requires SixFormat(fmt) && AsWritten(rules) && IsFull(m) && m[MonthField] == 1 && m[DayField] == 30
    ensures ParseExact(Written(Pieces(fmt), m), fmt, rules, now) == None
  {
    hide ParseExact, Written, SixFormat, AsWritten;
    TextParses(fmt, m, rules, now);
  }

  // ---- printing what was parsed ----

  /** The fields of a time value. */
  function FieldsAt(t: int): Fields {
    map[YearField := YearAt(t), MonthField := MonthAt(t), DayField := DateAt(t),
        HourField := Hour(t), MinuteField := Minute(t), SecondField := Second(t)]
  }

  lemma PrintedText(tok: string, t: int, text: string -> string)
    requires TokenField(tok).Some? && 0 <= YearAt(t) <= 9999
    ensures var f := TokenField(tok).value;
            && f in FieldsAt(t) && InPlaces(f, FieldsAt(t)[f])
            && TokenText(tok, t, text) == FieldText(f, FieldsAt(t)[f])
  {
    hide TokenField, TokenText, YearAt, MonthAt, DateAt, Hour, Minute, Second, Pad, Four, Two, FieldsAt, FieldText, InPlaces, Printed;
    var f := TokenField(tok).value;
    TokenIsPad(tok, t, text);
    FieldPrinted(f, t);
  }

  lemma FieldPrinted(f: Field, t: int)
    requires 0 <= YearAt(t) <= 9999
    ensures f in FieldsAt(t) && InPlaces(f, FieldsAt(t)[f])
    ensures Pad(Printed(f, t), Width(f)) == FieldText(f, FieldsAt(t)[f])
  {
    FieldsInPlaces(t);
    PlaceOf(FieldsAt(t), f);
    FieldRanges(t);
    PrintedAt(f, t);
    hide YearAt, MonthAt, DateAt, Hour, Minute, Second, Pad, Four, Two, FieldsAt, Printed;
    if f.YearField? {
      PadFour(YearAt(t));
      Remainders(YearAt(t));
    } else {
      TwoDigits(Printed(f, t));
    }
  }

  lemma PrintedAt(f: Field, t: int)
    ensures f in FieldsAt(t)
    ensures Printed(f, t) == if f.MonthField? then FieldsAt(t)[f] + 1 else FieldsAt(t)[f]
    ensures f.YearField? ==> Printed(f, t) == YearAt(t)
  {
    hide YearAt, MonthAt, DateAt, Hour, Minute, Second, Value, Pad;
    match f
    case YearField =>
    case MonthField =>
    case DayField =>
    case HourField =>
    case MinuteField =>
    case SecondField =>
  }

  lemma FieldsInPlaces(t: int)
    requires 0 <= YearAt(t) <= 9999
    ensures AllInPlaces(FieldsAt(t))
  {
    FieldRanges(t);
    hide YearAt, MonthAt, DateAt, Hour, Minute, Second;
    AllSix(FieldsAt(t));
  }

  lemma {:induction false} PrintedIsWritten(ps: seq<Piece>, t: int, text: string -> string)
    requires SixPieces(ps) && 0 <= YearAt(t) <= 9999 && AllInPlaces(FieldsAt(t))
    ensures PiecesText(ps, t, text) == Written(ps, FieldsAt(t))
  {
    hide TokenText, TokenField, FieldText, FieldsAt, YearAt, InPlaces;
    if ps != [] {
      assert IsSixPiece(ps[0]);
      PrintedIsWritten(ps[1..], t, text);
      if ps[0].Token? { PrintedText(ps[0].t, t, text); }
    }
  }

  /** A plain text whose fields are full and that parses is what printing the date gives: on such
      texts printing undoes parsing, as parsing undoes printing on the surviving dates. */
  lemma ParsedPrints(fmt: string, s: string, text: string -> string, rules: Rules, now: int)
    requires SixFormat(fmt) && Once(Pieces(fmt)) && AsWritten(rules) && AllPlain(s)
    requires FieldsRead(s, fmt, rules).Some? && IsFull(FieldsRead(s, fmt, rules).value)
    requires ParseExact(s, fmt, rules, now).Some?
    ensures var t := ParseExact(s, fmt, rules, now).value; Print(fmt, t, text) == s && Survives(t, now)
  {
    hide Pieces, Written, FieldsRead, FinishExact, YearAt, MonthAt, DateAt, Hour, Minute, Second, Milli, DaysInMonth,
         AsWritten, Once, AllPlain, Print, AllInPlaces, ParseExact, PiecesText, Has;
    var m := FieldsRead(s, fmt, rules).value;
    AcceptsExactly(fmt, s, rules);
    TextParses(fmt, m, rules, now);
    FullFields(m);
    var t := ParseExact(s, fmt, rules, now).value;
    SameFieldsAt(m, t);
    SixIsShared(fmt);
    TokenizersAgree(fmt, t, text);
    FieldsInPlaces(t);
    PrintedIsWritten(Pieces(fmt), t, text);
  }

  lemma SameFieldsAt(m: Fields, t: int)
    requires forall f :: f in m
    requires YearAt(t) == m[YearField] && MonthAt(t) == m[MonthField] && DateAt(t) == m[DayField]
    requires Hour(t) == m[HourField] && Minute(t) == m[MinuteField] && Second(t) == m[SecondField]
    ensures FieldsAt(t) == m
  {
    hide YearAt, MonthAt, DateAt, Hour, Minute, Second;
    forall f ensures f in FieldsAt(t) && f in m && FieldsAt(t)[f] == m[f] {
      match f
      case YearField =>
      case MonthField =>
      case DayField =>
      case HourField =>
      case MinuteField =>
      case SecondField =>
    }
  }

  // ---- one date ----

  lemma WrittenFrom(ps: seq<Piece>, m: Fields, i: nat)
    requires SixPieces(ps) && AllInPlaces(m) && i < |ps|
    ensures IsSixPiece(ps[i]) && SixPieces(ps[i..]) && SixPieces(ps[i + 1..])
    ensures ps[i].Literal? ==> Written(ps[i..], m) == ps[i].s + Written(ps[i + 1..], m)
    ensures ps[i].Token? ==> var f := TokenField(ps[i].t).value;
              f in m && InPlaces(f, m[f]) && Written(ps[i..], m) == FieldText(f, m[f]) + Written(ps[i + 1..], m)
  {
    SixFrom(ps, i);
    SixFrom(ps, i + 1);
    assert ps[i..][0] == ps[i] && ps[i..][1..] == ps[i + 1..];
    WrittenHead(ps[i..], m);
    hide TokenField, FieldText, InPlaces, Written;
  }

  lemma SixFrom(ps: seq<Piece>, i: nat)
    requires SixPieces(ps) && i <= |ps|
    ensures SixPieces(ps[i..])
  {
    hide TokenField;
  }

  /** 4 March 2011, 05:06:07. */
  predicate IsSample(m: Fields) {
    && AllInPlaces(m)
    && m[YearField] == 2011 && m[MonthField] == 2 && m[DayField] == 4
    && m[HourField] == 5 && m[MinuteField] == 6 && m[SecondField] == 7
  }

  lemma SampleTexts(m: Fields)
    requires IsSample(m)
    ensures forall f :: f in m && InPlaces(f, m[f])
    ensures FieldText(YearField, m[YearField]) == "2011" && FieldText(MonthField, m[MonthField]) == "03"
    ensures FieldText(DayField, m[DayField]) == "04" && FieldText(HourField, m[HourField]) == "05"
    ensures FieldText(MinuteField, m[MinuteField]) == "06" && FieldText(SecondField, m[SecondField]) == "07"
  {
  }

  lemma SampleTime(m: Fields)
    requires IsSample(m)
    ensures SixPieces(Sortable()) && SixPieces(Sortable()[6..]) && Written(Sortable()[6..], m) == "05:06:07"
  {
    hide Sortable, Written, FieldText, TokenField, AllInPlaces, InPlaces;
    SampleTexts(m);
    SixTokens();
    SortableFields();
    var ps := Sortable();
    assert ps[11..] == [];
    WrittenNone(m);
    WrittenFrom(ps, m, 10);
    WrittenFrom(ps, m, 9);
    WrittenFrom(ps, m, 8);
    assert Written(ps[8..], m) == "06:07";
    WrittenFrom(ps, m, 7);
    WrittenFrom(ps, m, 6);
  }

  lemma WrittenNone(m: Fields)
    requires AllInPlaces(m)
    ensures Written([], m) == ""
  {
  }

  lemma SampleDate(m: Fields)
    requires IsSample(m)
    ensures SixPieces(Sortable()) && SixPieces(Sortable()[2..]) && Written(Sortable()[2..], m) == "03-04T05:06:07"
  {
    hide Sortable, Written, FieldText, TokenField, AllInPlaces, InPlaces;
    SampleTexts(m);
    SixTokens();
    SampleTime(m);
    var ps := Sortable();
    WrittenFrom(ps, m, 5);
    WrittenFrom(ps, m, 4);
    assert Written(ps[4..], m) == "04T05:06:07";
    WrittenFrom(ps, m, 3);
    WrittenFrom(ps, m, 2);
  }

  lemma SampleText(m: Fields)
    requires IsSample(m)
    ensures SixPieces(Sortable()) && Written(Sortable(), m) == "2011-03-04T05:06:07"
  {
    hide Sortable, Written, FieldText, TokenField, AllInPlaces, InPlaces;
    SampleTexts(m);
    SixTokens();
    SampleDate(m);
    var ps := Sortable();
    WrittenFrom(ps, m, 1);
    assert Written(ps[1..], m) == "-03-04T05:06:07";
    WrittenFrom(ps, m, 0);
    assert ps[0..] == ps;
  }

  /** What is printed for it. */
  lemma SamplePrints(t: int, text: string -> string)
    requires YearAt(t) == 2011 && MonthAt(t) == 2 && DateAt(t) == 4 && Hour(t) == 5 && Minute(t) == 6 && Second(t) == 7
    ensures Print("yyyy-MM-ddTHH:mm:ss", t, text) == "2011-03-04T05:06:07"
  {
    hide Pieces, Print, PiecesText, Written, FieldsAt, Sortable, Joined, YearAt, MonthAt, DateAt, Hour, Minute, Second, AllInPlaces;
    var fmt := "yyyy-MM-ddTHH:mm:ss";
    SortableFormat();
    SortableText();
    SortableApart();
    PiecesOfJoined(Sortable());
    SixIsShared(fmt);
    TokenizersAgree(fmt, t, text);
    FieldsInPlaces(t);
    PrintedIsWritten(Sortable(), t, text);
    SampleIs(t);
    SampleText(FieldsAt(t));
  }

  lemma SampleIs(t: int)
    requires YearAt(t) == 2011 && MonthAt(t) == 2 && DateAt(t) == 4 && Hour(t) == 5 && Minute(t) == 6 && Second(t) == 7
    requires AllInPlaces(FieldsAt(t))
    ensures IsSample(FieldsAt(t))
  {
    hide YearAt, MonthAt, DateAt, Hour, Minute, Second, AllInPlaces;
  }
}
