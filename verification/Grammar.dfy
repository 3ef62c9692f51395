/** The format grammar: a format string becomes a chain of rules, each rule yields a setter of
    one date field, and `finishExact` turns the fields into a time value.  The main theorem says
    for which dates this inverts the printer of module `Format`. */
module Grammar {
  import opened Wrappers
  import opened Calendar
  import opened Clock
  import opened Operators
  import opened Format
  import Memo

  // ---- rules and setters ----

  datatype Field = YearField | MonthField | DayField | HourField | MinuteField | SecondField

  /** What a rule leaves for `finishExact` to call; an ignored literal leaves nothing. */
  datatype Setter = Skip | Put(field: Field, value: int)

  /** The table of token rules. */
  type Rules = string -> Operators.Rule<Setter>

  /** The field behind each of the six tokens of this module. */
  function TokenField(tok: string): Option<Field> {
    if tok == "yyyy" then Some(YearField)
    else if tok == "MM" then Some(MonthField)
    else if tok == "dd" then Some(DayField)
    else if tok == "HH" then Some(HourField)
    else if tok == "mm" then Some(MinuteField)
    else if tok == "ss" then Some(SecondField)
    else None
  }

  /** A fixed number of digits at the head. */
  function TakeDigits(s: string, n: nat): Parse<int> {
    if |s| >= n && AllDigits(s[..n]) then Success(Value(s[..n]), s[n..]) else Failure
  }

  /** The numbers each two-digit pattern admits. */
  predicate Admits(f: Field, n: int) {
    match f
    case YearField => true
    case MonthField => n <= 12
    case DayField => n <= 31
    case HourField => n <= 23
    case MinuteField => n <= 59
    case SecondField => n <= 59
  }

  function Width(f: Field): nat { if f.YearField? then 4 else 2 }

  /** White space of regular expressions. */
  predicate IsSpace(c: char) {
    || '\U{0009}' <= c <= '\U{000d}' || c == ' ' || c == '\U{00a0}' || c == '\U{1680}' || c == '\U{180e}'
    || '\U{2000}' <= c <= '\U{200a}' || c == '\U{2028}' || c == '\U{2029}' || c == '\U{202f}'
    || c == '\U{205f}' || c == '\U{3000}' || c == '\U{feff}'
  }

  function SkipSpace(s: string): (r: string)
    ensures |r| <= |s| && r == s[|s| - |r|..]
  {
    if s != "" && IsSpace(s[0]) then SkipSpace(s[1..]) else s
  }

  predicate IsLetter(c: char, small: char, big: char) { c == small || c == big }

  /** `st`, `nd`, `rd` or `th` in either case. */
  predicate IsOrdinal(a: char, b: char) {
    || (IsLetter(a, 's', 'S') && IsLetter(b, 't', 'T'))
    || (IsLetter(a, 'n', 'N') && IsLetter(b, 'd', 'D'))
    || (IsLetter(a, 'r', 'R') && IsLetter(b, 'd', 'D'))
    || (IsLetter(a, 't', 'T') && IsLetter(b, 'h', 'H'))
  }

  /** What is left after the optional ordinal suffix of a day. */
  function SkipOrdinal(s: string): string {
    var r := SkipSpace(s);
    if |r| >= 2 && IsOrdinal(r[0], r[1]) then r[2..] else s
  }

  function FieldRule(f: Field, s: string): Parse<Setter> {
    match TakeDigits(s, Width(f))
    case Failure => Failure
    case Success(n, rest) =>
      if !Admits(f, n) then Failure
      else Success(Put(f, if f.MonthField? then n - 1 else n), if f.DayField? then SkipOrdinal(rest) else rest)
  }

  /** The rules of the six tokens as they are written; those of other tokens are a parameter. */
  function Bare(foreign: Rules): Rules {
    (tok: string) =>
      if TokenField(tok).Some? then ((s: string) => FieldRule(TokenField(tok).value, s)) else foreign(tok)
  }

  /** The rules as they are used: each of the six behind its cache.  Where a cache hands out an
      inherited member, no date comes of it. */
  function Cached(inherited: set<string>, foreign: Rules): Rules {
    (tok: string) =>
      if TokenField(tok).Some? then ((s: string) => FromCache(TokenField(tok).value, inherited, s)) else foreign(tok)
  }

  function AsOutcome(f: Field): string -> Memo.Outcome<(Setter, string)> {
    (s: string) =>
      match FieldRule(f, s)
      case Success(v, rest) => Memo.Returned((v, rest))
      case Failure => Memo.ParseError(s)
  }

  function FromCache(f: Field, inherited: set<string>, s: string): Parse<Setter> {
    var answer := Memo.Through(AsOutcome(f), inherited, s);
    if answer.Gives? && answer.slot.Outcome? && answer.slot.of.Returned? then
      Success(answer.slot.of.value.0, answer.slot.of.value.1)
    else Failure
  }

  predicate StartsWith(s: string, lit: string) { |s| >= |lit| && s[..|lit|] == lit }

  /** The rule of one piece.  A literal is matched as itself. */
  function PieceRule(p: Piece, rules: Rules, s: string): Parse<Setter> {
    match p
    case Token(tok) => rules(tok)(s)
    case Literal(lit) => if StartsWith(s, lit) then Success(Skip, s[|lit|..]) else Failure
  }

  /** All pieces in a row, or failure. */
  function ParsePieces(ps: seq<Piece>, rules: Rules, s: string): Parse<seq<Setter>> {
    if ps == [] then Success([], s)
    else
      match PieceRule(ps[0], rules, s)
      case Failure => Failure
      case Success(v, rest) =>
        match ParsePieces(ps[1..], rules, rest)
        case Failure => Failure
        case Success(vs, end) => Success([v] + vs, end)
  }

  lemma {:induction false} ParseSnoc(ps: seq<Piece>, p: Piece, rules: Rules, s: string)
    ensures ParsePieces(ps + [p], rules, s) ==
            match ParsePieces(ps, rules, s) {
              case Failure => Failure
              case Success(vs, mid) =>
                match PieceRule(p, rules, mid)
                case Failure => Failure
                case Success(v, rest) => Success(vs + [v], rest)
            }
  {
    hide PieceRule;
    if ps == [] {
      assert (ps + [p])[1..] == [];
      assert forall v: Setter :: [v] + [] == [] + [v];
    } else if PieceRule(ps[0], rules, s).Success? {
      var next := PieceRule(ps[0], rules, s);
      ParseSnoc(ps[1..], p, rules, next.rest);
      assert (ps + [p])[1..] == ps[1..] + [p];
      var tail := ParsePieces(ps[1..], rules, next.rest);
      if tail.Success? {
        var last := PieceRule(p, rules, tail.rest);
        if last.Success? { assert [next.value] + (tail.value + [last.value]) == [next.value] + tail.value + [last.value]; }
      }
    }
  }

  lemma {:induction false} ParseFails(ps: seq<Piece>, qs: seq<Piece>, rules: Rules, s: string)
    requires ParsePieces(ps, rules, s).Failure?
    ensures ParsePieces(ps + qs, rules, s).Failure?
  {
    hide PieceRule;
    if PieceRule(ps[0], rules, s).Success? {
      ParseFails(ps[1..], qs, rules, PieceRule(ps[0], rules, s).rest);
      assert (ps + qs)[1..] == ps[1..] + qs;
    }
  }

  /** `each` over the rules of a format. */
  method Each(ps: seq<Piece>, rules: Rules, input: string) returns (r: Parse<seq<Setter>>)
    ensures r == ParsePieces(ps, rules, input)
  {
    hide PieceRule, ParsePieces;
    var rx, s := [], input;
    assert ParsePieces([], rules, input) == Success([], input) by { NoPieces(rules, input); }
    for i := 0 to |ps|
      invariant ParsePieces(ps[..i], rules, input) == Success(rx, s)
    {
      var one := PieceRule(ps[i], rules, s);
      ParseSnoc(ps[..i], ps[i], rules, input);
      assert ps[..i + 1] == ps[..i] + [ps[i]];
      if one.Failure? {
        ParseFails(ps[..i + 1], ps[i + 1..], rules, input);
        assert ps == ps[..i + 1] + ps[i + 1..];
        return Failure;
      }
      rx := rx + [one.value];
      s := one.rest;
    }
    assert ps == ps[..|ps|];
    return Success(rx, s);
  }

  lemma NoPieces(rules: Rules, input: string)
    ensures ParsePieces([], rules, input) == Success([], input)
  {
  }

  // ---- the grammar of format strings ----

  /** The rule that `format` repeats: one token, or else one maximal literal. */
  function PieceOf(s: string): (r: Parse<Piece>)
    ensures r.Success? <==> s != ""
    ensures r.Success? ==> |r.rest| < |s|
  {
    if s == "" then Failure
    else if IsGrammarLetter(s[0]) then Success(Token(s[..GrammarToken(s)]), s[GrammarToken(s)..])
    else Success(Literal(s[..LiteralRun(s)]), s[LiteralRun(s)..])
  }

  lemma {:induction false} PiecesAreSteps(s: string)
    ensures Steps(PieceOf, s, Pieces(s), "")
    decreases |s|
  {
    hide LiteralRun, GrammarToken;
    if s != "" {
      PiecesAreSteps(PieceOf(s).rest);
      assert Pieces(s)[1..] == Pieces(PieceOf(s).rest);
    }
  }

  /** `many` over that rule reads the whole format string into its pieces. */
  method ReadFormat(fmt: string) returns (ps: seq<Piece>)
    ensures ps == Pieces(fmt)
  {
    hide PieceOf, Pieces;
    var rest;
    ps, rest := Many(PieceOf, fmt);
    PiecesAreSteps(fmt);
    ManyIsUnique(PieceOf, fmt, ps, rest, Pieces(fmt), "");
  }

  function PieceSource(p: Piece): string { match p case Token(t) => t case Literal(s) => s }

  function Joined(ps: seq<Piece>): string {
    if ps == [] then "" else PieceSource(ps[0]) + Joined(ps[1..])
  }

  /** A run of one letter the grammar knows, or a literal without such letters. */
  predicate IsPiece(p: Piece) {
    match p
    case Token(t) => t != "" && |t| <= TokenLimit(t[0]) && forall i :: 0 <= i < |t| ==> t[i] == t[0]
    case Literal(s) => s != "" && forall i :: 0 <= i < |s| ==> !IsGrammarLetter(s[i])
  }

  function TokenLimit(c: char): nat { if c == 'z' then 3 else MaxRun(c) }

  /** The pieces do not merge: literals are kept apart, and so are tokens of one letter unless the
      first is as long as it can be. */
  predicate Apart(p: Piece, q: Piece)
    requires IsPiece(p) && IsPiece(q)
  {
    match p
    case Literal(_) => q.Token?
    case Token(t) => q.Token? ==> q.t[0] != t[0] || |t| == TokenLimit(t[0])
  }

  predicate WellSeparated(ps: seq<Piece>) {
    && (forall i :: 0 <= i < |ps| ==> IsPiece(ps[i]))
    && forall i :: 0 < i < |ps| ==> Apart(ps[i - 1], ps[i])
  }

  lemma {:induction false} RunStops(t: string, rest: string, c: char, limit: nat)
    requires |t| <= limit && forall i :: 0 <= i < |t| ==> t[i] == c
    requires |t| == limit || rest == "" || rest[0] != c
    ensures Run(t + rest, c, limit) == |t|
    decreases |t|
  {
    if t == "" { assert t + rest == rest; }
    else {
      RunStops(t[1..], rest, c, limit - 1);
      assert (t + rest)[1..] == t[1..] + rest;
    }
  }

  lemma {:induction false} LiteralStops(t: string, rest: string)
    requires forall i :: 0 <= i < |t| ==> !IsGrammarLetter(t[i])
    requires rest == "" || IsGrammarLetter(rest[0])
    ensures LiteralRun(t + rest) == |t|
    decreases |t|
  {
    hide IsGrammarLetter;
    if t == "" { assert t + rest == rest; }
    else {
      LiteralStops(t[1..], rest);
      assert (t + rest)[1..] == t[1..] + rest;
    }
  }

  /** A format string put together from pieces that do not merge is read back as those pieces. */
  lemma {:induction false} PiecesOfJoined(ps: seq<Piece>)
    requires WellSeparated(ps)
    ensures Pieces(Joined(ps)) == ps
  {
    if ps != [] {
      TailApart(ps);
      hide WellSeparated, IsPiece, Apart, LiteralRun, GrammarToken, TokenLimit;
      var p, rest := ps[0], Joined(ps[1..]);
      PiecesOfJoined(ps[1..]);
      PieceThenRest(ps, p, rest);
      hide Pieces;
      FirstPiece(p, rest);
      assert [p] + ps[1..] == ps;
    }
  }

  lemma TailApart(ps: seq<Piece>)
    requires WellSeparated(ps) && ps != []
    ensures WellSeparated(ps[1..]) && IsPiece(ps[0])
  {
  }

  lemma PieceThenRest(ps: seq<Piece>, p: Piece, rest: string)
    requires WellSeparated(ps) && ps != [] && p == ps[0] && rest == Joined(ps[1..]) && IsPiece(p)
    ensures p.Literal? ==> rest == "" || IsGrammarLetter(rest[0])
    ensures p.Token? ==> |p.t| == TokenLimit(p.t[0]) || rest == "" || rest[0] != p.t[0]
  {
    TailApart(ps);
    JoinedHead(ps[1..]);
    if |ps| > 1 { assert Apart(ps[0], ps[1]) && IsPiece(ps[1]); }
  }

  /** A piece that does not merge with what follows is read first. */
  lemma FirstPiece(p: Piece, rest: string)
    requires IsPiece(p)
    requires p.Literal? ==> rest == "" || IsGrammarLetter(rest[0])
    requires p.Token? ==> |p.t| == TokenLimit(p.t[0]) || rest == "" || rest[0] != p.t[0]
    ensures Pieces(PieceSource(p) + rest) == [p] + Pieces(rest)
  {
    PieceStops(p, rest);
    hide LiteralRun, GrammarToken, IsGrammarLetter, TokenLimit;
    var s := PieceSource(p);
    assert (s + rest)[..|s|] == s && (s + rest)[|s|..] == rest && s + rest != "";
  }

  lemma JoinedHead(ps: seq<Piece>)
    requires WellSeparated(ps)
    ensures Joined(ps) == "" <==> ps == []
    ensures ps != [] ==> Joined(ps)[0] == PieceSource(ps[0])[0]
  {
    if ps != [] { assert IsPiece(ps[0]); }
  }

  lemma PieceStops(p: Piece, rest: string)
    requires IsPiece(p)
    requires p.Literal? ==> rest == "" || IsGrammarLetter(rest[0])
    requires p.Token? ==> |p.t| == TokenLimit(p.t[0]) || rest == "" || rest[0] != p.t[0]
    ensures p.Literal? ==> LiteralRun(p.s + rest) == |p.s| && !IsGrammarLetter((p.s + rest)[0])
    ensures p.Token? ==> GrammarToken(p.t + rest) == |p.t| && IsGrammarLetter((p.t + rest)[0])
  {
    if p.Literal? { LiteralStops(p.s, rest); } else { RunStops(p.t, rest, p.t[0], TokenLimit(p.t[0])); }
    hide LiteralRun, Run;
  }

  // ---- finishExact ----

  type Fields = map<Field, int>

  /** The setters run in order on a fresh object. */
  function Apply(vs: seq<Setter>, m: Fields): Fields {
    if vs == [] then m
    else Apply(vs[1..], match vs[0] case Skip => m case Put(f, n) => m[f := n])
  }

  /** A field that is missing or zero is false in a condition. */
  predicate Truthy(m: Fields, f: Field) { f in m && m[f] != 0 }

  function Default(m: Fields, f: Field, n: int): (r: Fields)
    ensures f in r && forall g :: g in m ==> g in r && (g != f ==> r[g] == m[g])
  {
    if Truthy(m, f) then m else m[f := n]
  }

  /** The year `new Date` makes of a number. */
  function Century(y: int): int { if 0 <= y <= 99 then 1900 + y else y }

  /** `new Date(year, month, day, hour, minute, second)`: years 0 to 99 are read as 1900 to 1999. */
  function NewDate(y: int, m: int, d: int, h: int, mi: int, s: int): int {
    MakeDate(MakeDay(Century(y), m, d), MakeTime(h, mi, s, 0))
  }

  /** The defaults that `finishExact` fills in, in its order: today for a time alone, year, month ... */
  function FillDate(m: Fields, now: int): (r: Fields)
    ensures YearField in r && MonthField in r
  {
    hide Truthy, Default, YearAt, MonthAt, DateAt;
    var timeOnly := (Truthy(m, HourField) || Truthy(m, MinuteField))
                    && !Truthy(m, MonthField) && !Truthy(m, YearField) && !Truthy(m, DayField);
    var m1 := if timeOnly then m[DayField := DateAt(now)] else m;
    var m2 := Default(m1, YearField, YearAt(now));
    if MonthField in m2 then m2 else m2[MonthField := MonthAt(now)]
  }

  /** ... then day, hour, minute and second. */
  function FillIn(m: Fields, now: int): (r: Fields)
    ensures YearField in r && MonthField in r && DayField in r
    ensures HourField in r && MinuteField in r && SecondField in r
  {
    hide FillDate, Default;
    Default(Default(Default(Default(FillDate(m, now), DayField, 1), HourField, 0), MinuteField, 0), SecondField, 0)
  }

  /** `finishExact` without meridian and time zone.  None is the RangeError for a day the month
      does not have; a month outside the table has no such limit. */
  function FinishExact(m: Fields, now: int): Option<int> {
    var r := FillIn(m, now);
    if IsMonth(r[MonthField]) && r[DayField] > DaysInMonth(r[YearField], r[MonthField]) then None
    else Some(NewDate(r[YearField], r[MonthField], r[DayField], r[HourField], r[MinuteField], r[SecondField]))
  }

  /** The fields that are set when the whole text is read. */
  function FieldsRead(s: string, fmt: string, rules: Rules): Option<Fields> {
    match ParsePieces(Pieces(fmt), rules, s)
    case Failure => None
    case Success(vs, rest) => if rest != "" then None else Some(Apply(vs, map[]))
  }

  /** `Date.parseExact(s, fmt)` at the moment `now`; None is its null. */
  function ParseExact(s: string, fmt: string, rules: Rules, now: int): Option<int> {
    match FieldsRead(s, fmt, rules)
    case None => None
    case Some(m) => FinishExact(m, now)
  }

  // ---- formats with the six tokens ----

  predicate IsSeparator(c: char) {
    c == '-' || c == '/' || c == ':' || c == ',' || c == ' ' || c == 'T'
  }

  predicate IsSixPiece(p: Piece) {
    match p
    case Token(tok) => TokenField(tok).Some?
    case Literal(s) => forall i :: 0 <= i < |s| ==> IsSeparator(s[i])
  }

  predicate SixPieces(ps: seq<Piece>) { forall i :: 0 <= i < |ps| ==> IsSixPiece(ps[i]) }

  predicate Has(ps: seq<Piece>, f: Field) {
    exists i :: 0 <= i < |ps| && ps[i].Token? && TokenField(ps[i].t) == Some(f)
  }

  /** Every piece is one of the six tokens or separators, and every field occurs. */
  predicate SixFormat(fmt: string) {
    SixPieces(Pieces(fmt)) && forall f :: Has(Pieces(fmt), f)
  }

  /** Such a format has none of the characters that printer and parser read differently. */
  lemma {:induction false} SixIsShared(fmt: string)
    requires SixPieces(Pieces(fmt))
    ensures AllShared(fmt)
    decreases |fmt|
  {
    hide LiteralRun, GrammarToken;
    if fmt != "" {
      var n := if IsGrammarLetter(fmt[0]) then GrammarToken(fmt) else LiteralRun(fmt);
      SixIsSharedStep(fmt, n);
      SixIsShared(fmt[n..]);
      assert fmt == fmt[..n] + fmt[n..];
    }
  }

  lemma SixIsSharedStep(fmt: string, n: nat)
    requires fmt != "" && n == if IsGrammarLetter(fmt[0]) then GrammarToken(fmt) else LiteralRun(fmt)
    requires SixPieces(Pieces(fmt))
    ensures 0 < n <= |fmt| && AllShared(fmt[..n]) && SixPieces(Pieces(fmt[n..]))
  {
    hide LiteralRun, GrammarToken, TokenField, IsSeparator, IsShared, IsGrammarLetter;
    var ps := Pieces(fmt);
    assert IsSixPiece(ps[0]);
    assert ps[1..] == Pieces(fmt[n..]);
    hide Pieces;
    forall i | 0 <= i < n ensures IsShared(fmt[..n][i]) {
      if ps[0].Token? { SixTokenShared(ps[0].t, i); } else { SeparatorIsShared(ps[0].s[i]); }
    }
  }

  lemma SeparatorIsShared(c: char)
    requires IsSeparator(c)
    ensures IsShared(c)
  {
  }

  lemma SixTokenShared(tok: string, i: nat)
    requires TokenField(tok).Some? && i < |tok|
    ensures IsShared(tok[i])
  {
  }

  /** What printing shows of each field. */
  function Shown(f: Field, t: int): int {
    match f
    case YearField => Value(Pad(YearAt(t), 4))
    case MonthField => MonthAt(t)
    case DayField => DateAt(t)
    case HourField => Hour(t)
    case MinuteField => Minute(t)
    case SecondField => Second(t)
  }

  predicate YearShows(t: int) { AllDigits(Pad(YearAt(t), 4)) }

  function PieceSetter(p: Piece, t: int): Setter {
    match p
    case Literal(_) => Skip
    case Token(tok) => if TokenField(tok).Some? then Put(TokenField(tok).value, Shown(TokenField(tok).value, t)) else Skip
  }

  function Setters(ps: seq<Piece>, t: int): seq<Setter> {
    if ps == [] then [] else [PieceSetter(ps[0], t)] + Setters(ps[1..], t)
  }

  // ---- nothing printed looks like an ordinal suffix ----

  predicate IsPlain(c: char) { IsDigit(c) || IsSeparator(c) }

  predicate AllPlain(s: string) { forall i :: 0 <= i < |s| ==> IsPlain(s[i]) }

  lemma PlainPair(a: char, b: char)
    ensures IsPlain(a) && IsPlain(b) ==> !IsOrdinal(a, b)
  {
  }

  lemma PlainHasNoOrdinal(s: string)
    requires AllPlain(s)
    ensures SkipOrdinal(s) == s
  {
    hide SkipSpace, IsSpace, IsPlain, IsOrdinal;
    var r := SkipSpace(s);
    if |r| >= 2 {
      PlainPair(r[0], r[1]);
      assert r[0] == s[|s| - |r|] && r[1] == s[|s| - |r| + 1];
      assert IsPlain(s[|s| - |r|]) && IsPlain(s[|s| - |r| + 1]);
    }
  }

  lemma {:induction false} DecimalDigits(n: nat)
    ensures AllDigits(Decimal(n))
  {
    if n >= 10 { DecimalDigits(n / 10); }
  }

  lemma PadPlain(n: int, l: nat)
    requires l <= 4
    ensures AllPlain(Pad(n, l))
  {
    DecimalDigits(if n >= 0 then n else -n);
    hide Decimal;
    var t := "000" + NumberText(n);
    assert AllPlain(t);
  }

  lemma TwoDigits(n: int)
    requires 0 <= n < 100
    ensures Pad(n, 2) == Two(n) && AllDigits(Two(n)) && Value(Two(n)) == n
  {
    PadTwo(n);
    ValueOfTwo(n);
    hide Pad, Value;
  }

  lemma TakePrefix(a: string, rest: string, n: nat)
    requires |a| == n
    ensures TakeDigits(a + rest, n) == if AllDigits(a) then Success(Value(a), rest) else Failure
  {
    assert (a + rest)[..n] == a && (a + rest)[n..] == rest;
  }

  lemma FieldRanges(t: int)
    ensures 0 <= MonthAt(t) <= 11 && 1 <= DateAt(t) <= 31
    ensures 0 <= Hour(t) <= 23 && 0 <= Minute(t) <= 59 && 0 <= Second(t) <= 59
  {
    TimeHasFields(t);
    hide Hour, Minute, Second;
  }

  /** The number a token prints. */
  function Printed(f: Field, t: int): int {
    if f.YearField? then YearAt(t) else if f.MonthField? then MonthAt(t) + 1 else Shown(f, t)
  }

  lemma TokenIsPad(tok: string, t: int, foreign: string -> string)
    requires TokenField(tok).Some?
    ensures var f := TokenField(tok).value; TokenText(tok, t, foreign) == Pad(Printed(f, t), Width(f))
  {
    hide Pad, YearAt, MonthAt, DateAt, Hour, Minute, Second;
  }

  lemma TakePrinted(f: Field, t: int, rest: string)
    ensures TakeDigits(Pad(Printed(f, t), Width(f)) + rest, Width(f)) ==
            if !f.YearField? then Success(Printed(f, t), rest)
            else if YearShows(t) then Success(Shown(YearField, t), rest) else Failure
  {
    TakePrefix(Pad(Printed(f, t), Width(f)), rest, Width(f));
    if !f.YearField? {
      FieldRanges(t);
      TwoDigits(Printed(f, t));
    }
    hide Pad, Value, TakeDigits, YearAt, MonthAt, DateAt, Hour, Minute, Second, AllDigits, Two;
  }

  lemma PrintedAdmitted(f: Field, t: int)
    ensures !f.YearField? ==> Admits(f, Printed(f, t))
    ensures !f.YearField? ==> Shown(f, t) == if f.MonthField? then Printed(f, t) - 1 else Printed(f, t)
  {
    FieldRanges(t);
    hide Pad, Value, YearAt, MonthAt, DateAt, Hour, Minute, Second;
  }

  /** A rule reads back what its token printed, whatever plain text follows. */
  lemma FieldBack(f: Field, t: int, rest: string)
    requires AllPlain(rest)
    ensures FieldRule(f, Pad(Printed(f, t), Width(f)) + rest) ==
            if f.YearField? && !YearShows(t) then Failure else Success(Put(f, Shown(f, t)), rest)
  {
    hide TakeDigits, Pad, Printed, Shown, YearShows, Width, SkipOrdinal, AllPlain;
    PlainHasNoOrdinal(rest);
    TakePrinted(f, t, rest);
    PrintedAdmitted(f, t);
  }

  lemma {:induction false} PiecesPlain(ps: seq<Piece>, t: int, foreign: string -> string)
    requires SixPieces(ps)
    ensures AllPlain(PiecesText(ps, t, foreign))
  {
    hide Pad, Shown, TokenField, Printed, TokenText;
    if ps != [] {
      PiecesPlain(ps[1..], t, foreign);
      assert IsSixPiece(ps[0]);
      if ps[0].Token? {
        TokenIsPad(ps[0].t, t, foreign);
        var f := TokenField(ps[0].t).value;
        PadPlain(Printed(f, t), Width(f));
      }
    }
  }

  /** Text printed from the pieces parses to the setters of the shown fields, unless a year with
      a sign in its four places gets in the way. */
  lemma {:induction false} PiecesBack(ps: seq<Piece>, t: int, text: string -> string, rules: Rules)
    requires SixPieces(ps) && AsWritten(rules)
    ensures ParsePieces(ps, rules, PiecesText(ps, t, text)) ==
            if Has(ps, YearField) && !YearShows(t) then Failure else Success(Setters(ps, t), "")
  {
    hide Pad, Shown, TokenField, Printed, TokenText, FieldRule, YearShows, AllPlain;
    if ps != [] {
      PiecesBack(ps[1..], t, text, rules);
      PiecesPlain(ps[1..], t, text);
      PiecesPlain(ps, t, text);
      assert IsSixPiece(ps[0]);
      var rest := PiecesText(ps[1..], t, text);
      HasCons(ps, YearField);
      if ps[0].Token? {
        TokenIsPad(ps[0].t, t, text);
        FieldBack(TokenField(ps[0].t).value, t, rest);
      } else {
        assert (ps[0].s + rest)[..|ps[0].s|] == ps[0].s && (ps[0].s + rest)[|ps[0].s|..] == rest;
      }
    }
  }

  /** On plain text the rules of the six tokens read as they are written. */
  ghost predicate AsWritten(rules: Rules) {
    forall tok, s :: TokenField(tok).Some? && AllPlain(s) ==> rules(tok)(s) == FieldRule(TokenField(tok).value, s)
  }

  lemma BareAsWritten(foreign: Rules)
    ensures AsWritten(Bare(foreign))
  {
    hide FieldRule, TokenField, AllPlain;
  }

  lemma FromCacheIs(f: Field, inherited: set<string>, s: string)
    requires s !in inherited
    ensures FromCache(f, inherited, s) == FieldRule(f, s)
  {
    hide FieldRule;
  }

  /** The caches change nothing as long as no inherited member has a plain name. */
  lemma CachedAsWritten(inherited: set<string>, foreign: Rules)
    requires forall n :: n in inherited ==> !AllPlain(n)
    ensures AsWritten(Cached(inherited, foreign))
  {
    hide TokenField, AllPlain, FieldRule;
    forall tok, s | TokenField(tok).Some? && AllPlain(s)
      ensures Cached(inherited, foreign)(tok)(s) == FieldRule(TokenField(tok).value, s)
    {
      FromCacheIs(TokenField(tok).value, inherited, s);
    }
  }

  /** Section 15.2.4 of ECMA-262, 5th edition. */
  const OBJECT_MEMBERS: set<string> := {
    "constructor", "toString", "toLocaleString", "valueOf", "hasOwnProperty", "isPrototypeOf", "propertyIsEnumerable"
  }

  lemma MembersAreNotPlain()
    ensures forall n :: n in OBJECT_MEMBERS ==> !AllPlain(n)
  {
    forall n | n in OBJECT_MEMBERS ensures !AllPlain(n) { assert !IsPlain(n[0]); }
  }

  lemma HasCons(ps: seq<Piece>, f: Field)
    requires ps != []
    ensures Has(ps, f) <==> (ps[0].Token? && TokenField(ps[0].t) == Some(f)) || Has(ps[1..], f)
  {
    hide TokenField;
    if Has(ps, f) {
      var i :| 0 <= i < |ps| && ps[i].Token? && TokenField(ps[i].t) == Some(f);
      if i > 0 { assert ps[1..][i - 1] == ps[i]; }
    }
    if Has(ps[1..], f) {
      var i :| 0 <= i < |ps[1..]| && ps[1..][i].Token? && TokenField(ps[1..][i].t) == Some(f);
      assert ps[i + 1] == ps[1..][i];
    }
  }

  /** Whatever their order, the setters set exactly the fields that occur. */
  lemma {:induction false} SettersSet(ps: seq<Piece>, t: int, m: Fields)
    requires forall f :: f in m ==> m[f] == Shown(f, t)
    ensures var r := Apply(Setters(ps, t), m);
            forall f :: (f in r <==> f in m || Has(ps, f)) && (f in r ==> r[f] == Shown(f, t))
  {
    hide Shown, TokenField;
    if ps != [] {
      var m' := match PieceSetter(ps[0], t) case Skip => m case Put(f, n) => m[f := n];
      assert Setters(ps, t)[1..] == Setters(ps[1..], t);
      SettersSet(ps[1..], t, m');
      forall f ensures Has(ps, f) <==> (ps[0].Token? && TokenField(ps[0].t) == Some(f)) || Has(ps[1..], f) {
        HasCons(ps, f);
      }
    }
  }

  // ---- round trip ----

  /** The dates that survive: whole seconds, and a year that four digits and the treatment of
      small years leave alone. */
  predicate Survives(t: int, now: int) {
    Milli(t) == 0 && YearSurvives(YearAt(t), YearAt(now))
  }

  predicate YearSurvives(y: int, thisYear: int) {
    100 <= y <= 9999 || (y % 10000 == 0 && y != 0 && y == thisYear)
  }

  /** The year of `finishExact` when `v` was read. */
  function YearRead(v: int, thisYear: int): int { if v == 0 then thisYear else v }

  /** The year comes back exactly when it is one of the surviving ones, and then the month is
      checked against the right year. */
  lemma YearBack(t: int, thisYear: int)
    requires YearShows(t)
    ensures var y := YearAt(t);
            var r := YearRead(Shown(YearField, t), thisYear);
            (Century(r) == y <==> YearSurvives(y, thisYear)) && (YearSurvives(y, thisYear) ==> r == y)
  {
    var y := YearAt(t);
    ShownYear(t);
    hide Shown, YearAt, YearShows;
    Remainders(y);
  }

  lemma ShownYear(t: int)
    requires YearShows(t)
    ensures var y := YearAt(t); Shown(YearField, t) == (if y >= 0 then y else -y) % 10000
  {
    var y := YearAt(t);
    PadFour(y);
    ValueOfFour((if y >= 0 then y else -y) % 10000);
    hide Pad, Value, YearAt, Four, AllDigits;
  }

  lemma Remainders(y: int)
    ensures 0 <= y <= 9999 ==> y % 10000 == y
    ensures -10000 < y < 0 ==> y % 10000 != 0
    ensures (-y) % 10000 == 0 <==> y % 10000 == 0
  {
  }

  lemma UnshownYear(t: int)
    requires !YearShows(t)
    ensures forall now :: !YearSurvives(YearAt(t), now)
  {
    var y := YearAt(t);
    PadFour(y);
    Remainders(y);
    hide Pad;
  }

  /** `finishExact` on all six shown fields. */
  lemma FinishShown(t: int, m: Fields, now: int)
    requires forall f :: f in m && m[f] == Shown(f, t)
    ensures var v := Shown(YearField, t);
            var y := YearRead(v, YearAt(now));
            FinishExact(m, now) ==
            if DateAt(t) > DaysInMonth(y, MonthAt(t)) then None
            else Some(NewDate(y, MonthAt(t), DateAt(t), Hour(t), Minute(t), Second(t)))
  {
    FieldRanges(t);
    hide YearAt, DateAt, MonthAt, Hour, Minute, Second, NewDate, DaysInMonth, Value, Pad;
    assert YearField in m && MonthField in m && DayField in m && HourField in m && MinuteField in m && SecondField in m;
    assert m[DayField] == DateAt(t) && m[MonthField] == MonthAt(t);
    assert m[HourField] == Hour(t) && m[MinuteField] == Minute(t) && m[SecondField] == Second(t);
  }

  lemma LaterYear(y: int, z: int, m: int, d: int)
    requires y < z && IsMonth(m)
    ensures MakeDay(y, m, d) < MakeDay(z, m, d)
  {
    YearsGrow(y, z);
    MakeDayOfMonth(y, m, d);
    MakeDayOfMonth(z, m, d);
    hide DayFromYear, MakeDay, IsLeapYear;
  }

  /** A time value is rebuilt exactly from its own fields at a whole second. */
  lemma Rebuilt(t: int, y: int)
    ensures NewDate(y, MonthAt(t), DateAt(t), Hour(t), Minute(t), Second(t)) == t
            <==> Milli(t) == 0 && YearAt(t) == Century(y)
  {
    TimeHasFields(t);
    MadeDayOfFields(Day(t));
    hide Hour, Minute, Second, Milli, MakeDay, YearOf, MonthOf, DateOf, Day, DaysInMonth;
    var y' := Century(y);
    var day := MakeDay(y', MonthAt(t), DateAt(t));
    FieldsOfTime(day, Hour(t), Minute(t), Second(t), 0);
    if YearAt(t) < y' { LaterYear(YearAt(t), y', MonthAt(t), DateAt(t)); }
    if y' < YearAt(t) { LaterYear(y', YearAt(t), MonthAt(t), DateAt(t)); }
  }

  /** What parsing makes of a printed date: nothing, if the year shows a sign in its four places or
      the month is shorter in the year that is read; else the date with that year, at a whole second. */
  function CameBack(t: int, now: int): Option<int> {
    var y := YearRead(Shown(YearField, t), YearAt(now));
    if !YearShows(t) || DateAt(t) > DaysInMonth(y, MonthAt(t)) then None
    else Some(NewDate(y, MonthAt(t), DateAt(t), Hour(t), Minute(t), Second(t)))
  }

  lemma WhatComesBack(fmt: string, t: int, text: string -> string, rules: Rules, now: int)
    requires SixFormat(fmt) && AsWritten(rules)
    ensures ParseExact(Print(fmt, t, text), fmt, rules, now) == CameBack(t, now)
  {
    hide Pieces, Print, PiecesText, ParsePieces, Setters, Apply, YearAt, MonthAt, DateAt, Hour, Minute, Second, FinishExact, Shown, YearShows, NewDate, DaysInMonth, YearRead, AsWritten;
    var ps := Pieces(fmt);
    SixIsShared(fmt);
    TokenizersAgree(fmt, t, text);
    PiecesBack(ps, t, text, rules);
    assert Has(ps, YearField);
    if YearShows(t) {
      SettersSet(ps, t, map[]);
      FinishShown(t, Apply(Setters(ps, t), map[]), now);
    }
  }

  lemma CameBackExactly(t: int, now: int)
    ensures CameBack(t, now) == Some(t) <==> Survives(t, now)
  {
    hide YearAt, MonthAt, DateAt, Milli, Hour, Minute, Second, Shown, YearShows, NewDate, DaysInMonth, YearRead, Century, YearSurvives;
    if !YearShows(t) {
      UnshownYear(t);
    } else {
      YearBack(t, YearAt(now));
      Rebuilt(t, YearRead(Shown(YearField, t), YearAt(now)));
      OwnMonth(t);
    }
  }

  /** The printer and the parser of one format invert each other exactly on the surviving dates:
      any format that contains the six tokens, in any order and also more than once, with
      separators anywhere. */
  lemma RoundTrip(fmt: string, t: int, text: string -> string, rules: Rules, now: int)
    requires SixFormat(fmt) && AsWritten(rules)
    ensures ParseExact(Print(fmt, t, text), fmt, rules, now) == Some(t) <==> Survives(t, now)
  {
    hide ParseExact, Print, SixFormat, AsWritten, Survives, CameBack;
    WhatComesBack(fmt, t, text, rules, now);
    CameBackExactly(t, now);
  }

  /** With the rules as they are written ... */
  lemma WrittenRoundTrip(fmt: string, t: int, text: string -> string, foreign: Rules, now: int)
    requires SixFormat(fmt)
    ensures ParseExact(Print(fmt, t, text), fmt, Bare(foreign), now) == Some(t) <==> Survives(t, now)
  {
    hide ParseExact, Print, SixFormat, AsWritten, Survives, Bare;
    BareAsWritten(foreign);
    RoundTrip(fmt, t, text, Bare(foreign), now);
  }

  /** ... and as they are used, behind caches whose plain objects inherit members; none of
      these has a plain name. */
  lemma CachedRoundTrip(fmt: string, t: int, text: string -> string, foreign: Rules, now: int)
    requires SixFormat(fmt)
    ensures ParseExact(Print(fmt, t, text), fmt, Cached(OBJECT_MEMBERS, foreign), now) == Some(t) <==> Survives(t, now)
  {
    hide ParseExact, Print, SixFormat, AsWritten, Survives, Cached;
    MembersAreNotPlain();
    CachedAsWritten(OBJECT_MEMBERS, foreign);
    RoundTrip(fmt, t, text, Cached(OBJECT_MEMBERS, foreign), now);
  }

  lemma SameFebruary(y: int, m: int)
    requires 1 <= y <= 99 && IsMonth(m)
    ensures DaysInMonth(1900 + y, m) == DaysInMonth(y, m)
  {
    assert IsLeapYear(1900 + y) <==> IsLeapYear(y);
    hide IsLeapYear;
  }

  /** A date of the years 1 to 99 comes back in the 20th century. */
  lemma SmallYears(t: int, now: int)
    requires 1 <= YearAt(t) <= 99
    ensures var r := CameBack(t, now);
            && r.Some? && YearAt(r.value) == 1900 + YearAt(t) && MonthAt(r.value) == MonthAt(t) && DateAt(r.value) == DateAt(t)
  {
    SmallYearShows(t);
    OwnMonth(t);
    FieldRanges(t);
    SameFebruary(YearAt(t), MonthAt(t));
    hide YearShows, Shown, Hour, Minute, Second, DaysInMonth, YearAt, MonthAt, DateAt, NewDate;
    NewDateFields(YearAt(t), MonthAt(t), DateAt(t), Hour(t), Minute(t), Second(t));
  }

  lemma NewDateFields(y: int, m: int, d: int, h: int, mi: int, s: int)
    requires 1 <= y <= 99 && IsDate(1900 + y, m, d) && IsTime(h, mi, s, 0)
    ensures var r := NewDate(y, m, d, h, mi, s); YearAt(r) == 1900 + y && MonthAt(r) == m && DateAt(r) == d
  {
    hide DaysInMonth, YearOf, MonthOf, DateOf, Day, MakeDay, MakeTime, MakeDate;
    FieldsOfMadeDay(1900 + y, m, d);
    FieldsOfTime(MakeDay(1900 + y, m, d), h, mi, s, 0);
  }

  lemma SmallYearShows(t: int)
    requires 1 <= YearAt(t) <= 99
    ensures YearShows(t) && Shown(YearField, t) == YearAt(t)
  {
    var y := YearAt(t);
    hide YearAt, Pad, Value, Four;
    PadFour(y);
    Remainders(y);
    FourDigits(y);
    ShownYear(t);
  }

  lemma FourDigits(n: int)
    requires 0 <= n < 10000
    ensures AllDigits(Four(n))
  {
  }

  /** New Year's Day of year 50 comes back as a day of 1950. */
  lemma YearFifty(y: int, day: int, t: int, now: int)
    requires y == 50 && day == MakeDay(y, 0, 1) && t == MakeDate(day, 0)
    ensures YearAt(t) == 50 && CameBack(t, now).Some? && YearAt(CameBack(t, now).value) == 1950
  {
    hide YearOf, MonthOf, DateOf, Day, MakeDay, CameBack, TimeInDay, DaysInMonth;
    FieldsOfMadeDay(y, 0, 1);
    DayIs(t, day, 0);
    hide MakeDate;
    SmallYears(t, now);
  }

  lemma OwnMonth(t: int)
    ensures DateAt(t) <= DaysInMonth(YearAt(t), MonthAt(t))
  {
  }

  /** The same for a format put together from any pieces that do not merge. */
  lemma RoundTripOfPieces(ps: seq<Piece>, t: int, text: string -> string, rules: Rules, now: int)
    requires WellSeparated(ps) && SixPieces(ps) && (forall f :: Has(ps, f)) && AsWritten(rules)
    ensures ParseExact(Print(Joined(ps), t, text), Joined(ps), rules, now) == Some(t) <==> Survives(t, now)
  {
    hide Pieces, Has, WellSeparated, SixPieces, Print, ParseExact, Survives, Joined;
    PiecesOfJoined(ps);
    RoundTrip(Joined(ps), t, text, rules, now);
  }

  lemma SixTokens()
    ensures TokenField("yyyy") == Some(YearField) && TokenField("MM") == Some(MonthField)
    ensures TokenField("dd") == Some(DayField) && TokenField("HH") == Some(HourField)
    ensures TokenField("mm") == Some(MinuteField) && TokenField("ss") == Some(SecondField)
  {
  }

  function Sortable(): (ps: seq<Piece>)
    ensures |ps| == 11
    ensures ps[0] == Token("yyyy") && ps[2] == Token("MM") && ps[4] == Token("dd")
    ensures ps[6] == Token("HH") && ps[8] == Token("mm") && ps[10] == Token("ss")
    ensures ps[1] == ps[3] == Literal("-") && ps[5] == Literal("T") && ps[7] == ps[9] == Literal(":")
  {
    [Token("yyyy"), Literal("-"), Token("MM"), Literal("-"), Token("dd"), Literal("T"),
     Token("HH"), Literal(":"), Token("mm"), Literal(":"), Token("ss")]
  }

  lemma SortableApart()
    ensures WellSeparated(Sortable())
  {
    hide Sortable;
    var ps := Sortable();
    assert forall i :: 0 <= i < 11 && i % 2 == 1 ==> ps[i].Literal?;
    assert forall i :: 0 <= i < 11 && i % 2 == 0 ==> ps[i].Token?;
    forall i | 0 <= i < 11 ensures IsPiece(ps[i]) { }
    hide IsPiece;
  }

  lemma SortableFields()
    ensures SixPieces(Sortable()) && forall f :: Has(Sortable(), f)
  {
    SixTokens();
    hide Sortable, TokenField;
    var ps := Sortable();
    forall f ensures Has(ps, f) {
      match f
      case YearField => assert ps[0].Token?;
      case MonthField => assert ps[2].Token?;
      case DayField => assert ps[4].Token?;
      case HourField => assert ps[6].Token?;
      case MinuteField => assert ps[8].Token?;
      case SecondField => assert ps[10].Token?;
    }
  }

  lemma JoinedFrom(ps: seq<Piece>, i: nat)
    requires i < |ps|
    ensures Joined(ps[i..]) == PieceSource(ps[i]) + Joined(ps[i + 1..])
  {
    assert ps[i..][1..] == ps[i + 1..];
  }

  lemma SortableTime()
    ensures Joined(Sortable()[6..]) == "HH:mm:ss"
  {
    hide Sortable;
    var ps := Sortable();
    assert ps[11..] == [] && Joined(ps[11..]) == "";
    hide Joined;
    JoinedFrom(ps, 10);
    JoinedFrom(ps, 9);
    JoinedFrom(ps, 8);
    JoinedFrom(ps, 7);
    JoinedFrom(ps, 6);
    assert Joined(ps[8..]) == "mm:ss";
  }

  lemma SortableDate()
    ensures Joined(Sortable()[3..]) == "-ddTHH:mm:ss"
  {
    hide Sortable, Joined;
    var ps := Sortable();
    SortableTime();
    JoinedFrom(ps, 5);
    assert Joined(ps[5..]) == "THH:mm:ss";
    JoinedFrom(ps, 4);
    assert Joined(ps[4..]) == "ddTHH:mm:ss";
    JoinedFrom(ps, 3);
  }

  lemma SortableMonth()
    ensures Joined(Sortable()[1..]) == "-MM-ddTHH:mm:ss"
  {
    hide Sortable, Joined;
    var ps := Sortable();
    SortableDate();
    JoinedFrom(ps, 2);
    assert Joined(ps[2..]) == "MM-ddTHH:mm:ss";
    JoinedFrom(ps, 1);
  }

  lemma SortableText()
    ensures Joined(Sortable()) == "yyyy-MM-ddTHH:mm:ss"
  {
    hide Sortable, Joined;
    var ps := Sortable();
    SortableMonth();
    JoinedFrom(ps, 0);
    assert ps[0..] == ps;
  }

  /** The sortable pattern of the culture files is such a format. */
  lemma SortableFormat()
    ensures SixFormat("yyyy-MM-ddTHH:mm:ss")
  {
    SortableApart();
    SortableFields();
    SortableText();
    PiecesOfJoined(Sortable());
    hide Sortable, Pieces, Joined, TokenField, Has, SixPieces;
  }

  /** A backslash before a token prints the token's letters and not itself. */
  lemma EscapedPrints(tok: string, rest: string, t: int, text: string -> string)
    requires tok != "" && tok[0] != 'S' && |tok| <= MaxRun(tok[0]) && forall i :: 0 <= i < |tok| ==> tok[i] == tok[0]
    requires |tok| == MaxRun(tok[0]) || rest == "" || rest[0] != tok[0]
    ensures Print(['\\'] + (tok + rest), t, text) == tok + Print(rest, t, text)
  {
    hide PrinterToken, TokenText, MaxRun, Print;
    PrinterTokenIs(tok, rest);
    Slices('\\', tok, rest);
    EscapeUnfolds(['\\'] + (tok + rest), t, text);
  }

  lemma EscapeUnfolds(s: string, t: int, text: string -> string)
    requires s != "" && s[0] == '\\' && PrinterToken(s[1..]) > 0
    ensures var n := PrinterToken(s[1..]); Print(s, t, text) == s[1..1 + n] + Print(s[1 + n..], t, text)
  {
    hide PrinterToken, TokenText;
  }

  lemma PrinterTokenIs(tok: string, rest: string)
    requires tok != "" && tok[0] != 'S' && |tok| <= MaxRun(tok[0]) && forall i :: 0 <= i < |tok| ==> tok[i] == tok[0]
    requires |tok| == MaxRun(tok[0]) || rest == "" || rest[0] != tok[0]
    ensures PrinterToken(tok + rest) == |tok|
  {
    hide Run, MaxRun;
    RunStops(tok, rest, tok[0], MaxRun(tok[0]));
    assert (tok + rest)[0] == tok[0];
  }

  lemma Slices(c: char, tok: string, rest: string)
    ensures var s := [c] + (tok + rest);
            s[0] == c && s[1..] == tok + rest && s[1..1 + |tok|] == tok && s[1 + |tok|..] == rest
  {
    var s := [c] + (tok + rest);
    assert s[1 + |tok|..] == (tok + rest)[|tok|..] == rest;
  }
}
