/** Printing a date by a format string and parsing it back by the same string. */
module Format {
  import opened Calendar
  import opened Clock

  // ---- numbers as text ----

  function Digit(n: int): (c: char)
    requires 0 <= n <= 9
    ensures IsDigit(c) && Val(c) == n
  {
    (n + 48) as char
  }

  predicate IsDigit(c: char) { '0' <= c <= '9' }

  function Val(c: char): int { c as int - 48 }

  function Decimal(n: nat): (s: string)
    ensures |s| >= 1
  {
    if n < 10 then [Digit(n)] else Decimal(n / 10) + [Digit(n % 10)]
  }

  /** JavaScript's text of an integer. */
  function NumberText(n: int): string {
    if n >= 0 then Decimal(n) else "-" + Decimal(-n)
  }

  /** `("000"+s).slice(-l)` */
  function Pad(n: int, l: nat): (s: string)
    requires l <= 4
    ensures |s| == l
  {
    var t := "000" + NumberText(n);
    t[|t| - l..]
  }

  function Two(n: int): string
    requires 0 <= n < 100
  {
    [Digit(n / 10), Digit(n % 10)]
  }

  function Four(n: int): string
    requires 0 <= n < 10000
  {
    Two(n / 100) + Two(n % 100)
  }

  predicate AllDigits(s: string) { forall i :: 0 <= i < |s| ==> IsDigit(s[i]) }

  /** `Number(s)` for digits. */
  function Value(s: string): int {
    if s == "" then 0 else 10 * Value(s[..|s| - 1]) + Val(s[|s| - 1])
  }

  lemma ValueOfTwo(n: int)
    requires 0 <= n < 100
    ensures Value(Two(n)) == n
  {
    var s := Two(n);
    assert s[..1] == [Digit(n / 10)] && s[..1][..0] == "";
    assert Value(s[..1]) == n / 10;
  }

  lemma ValueOfFour(n: int)
    requires 0 <= n < 10000
    ensures Value(Four(n)) == n
  {
    var s := Four(n);
    var a, b := n / 100, n % 100;
    ValueOfTwo(a);
    assert s[..3] == Two(a) + [Digit(b / 10)] && s[..3][..2] == Two(a);
    assert Value(s[..3]) == 10 * a + b / 10;
  }

  lemma PadTwo(n: int)
    requires 0 <= n < 100
    ensures Pad(n, 2) == Two(n)
  {
    if n >= 10 { assert Decimal(n / 10) == [Digit(n / 10)]; }
  }

  /** The last three places of a number with at least four digits. */
  lemma DecimalSplit(n: nat)
    requires n >= 1000
    ensures Decimal(n) == Decimal(n / 1000) + [Digit(n / 100 % 10), Digit(n / 10 % 10), Digit(n % 10)]
  {
    assert Decimal(n) == Decimal(n / 10) + [Digit(n % 10)];
    assert Decimal(n / 10) == Decimal(n / 10 / 10) + [Digit(n / 10 % 10)];
    assert n / 10 / 10 == n / 100 && n / 100 / 10 == n / 1000;
    assert Decimal(n / 100) == Decimal(n / 100 / 10) + [Digit(n / 100 % 10)];
  }

  lemma LastDigit(n: nat)
    ensures Decimal(n)[|Decimal(n)| - 1] == Digit(n % 10)
  {
  }

  lemma TenIs(x: int, k: int, d: int)
    requires x == 10 * k + d && 0 <= d < 10
    ensures x / 10 == k && x % 10 == d
  {
  }

  lemma HundredIs(x: int, k: int, d: int)
    requires x == 100 * k + d && 0 <= d < 100
    ensures x / 100 == k && x % 100 == d
  {
  }

  lemma ThousandIs(x: int, k: int, d: int)
    requires x == 1000 * k + d && 0 <= d < 1000
    ensures x / 1000 == k && x % 1000 == d
  {
  }

  lemma TenThousandIs(x: int, k: int, d: int)
    requires x == 10000 * k + d && 0 <= d < 10000
    ensures x / 10000 == k && x % 10000 == d
  {
  }

  lemma SplitTen(n: nat) returns (k: nat, d: nat)
    ensures n == 10 * k + d && d < 10
  {
    k, d := n / 10, n % 10;
  }

  lemma TenThousand(n: nat) returns (q: nat, a: nat, b: nat, c: nat, d: nat)
    ensures n == 10000 * q + 1000 * a + 100 * b + 10 * c + d && a < 10 && b < 10 && c < 10 && d < 10
    ensures n % 10000 == 1000 * a + 100 * b + 10 * c + d
    ensures n / 10 == 1000 * q + 100 * a + 10 * b + c
    ensures n / 100 == 100 * q + 10 * a + b
    ensures n / 1000 == 10 * q + a
  {
    var k: nat;
    k, d := SplitTen(n);
    TenIs(n, k, d);
    k, c := SplitTen(k);
    HundredIs(n, k, 10 * c + d);
    k, b := SplitTen(k);
    ThousandIs(n, k, 100 * b + 10 * c + d);
    q, a := SplitTen(k);
    TenThousandIs(n, q, 1000 * a + 100 * b + 10 * c + d);
  }

  lemma FourPlaces(n: nat, a: nat, b: nat, c: nat, d: nat)
    requires n == 1000 * a + 100 * b + 10 * c + d && a < 10 && b < 10 && c < 10 && d < 10
    ensures n < 10000 && Four(n) == [Digit(a), Digit(b), Digit(c), Digit(d)]
  {
    HundredIs(n, 10 * a + b, 10 * c + d);
    TenIs(10 * a + b, a, b);
    TenIs(10 * c + d, c, d);
    hide Digit;
  }

  lemma DecimalPlaces(n: nat, b: nat, c: nat, d: nat)
    requires n == 100 * b + 10 * c + d && b < 10 && c < 10 && d < 10
    ensures Decimal(n) == if b > 0 then [Digit(b), Digit(c), Digit(d)]
                          else if c > 0 then [Digit(c), Digit(d)]
                          else [Digit(d)]
  {
    hide Digit;
    TenIs(n, 10 * b + c, d);
    TenIs(10 * b + c, b, c);
    assert b > 0 ==> Decimal(b) == [Digit(b)];
    assert b > 0 ==> Decimal(10 * b + c) == [Digit(b)] + [Digit(c)];
    assert b == 0 && c > 0 ==> Decimal(c) == [Digit(c)];
  }

  lemma LastFour(n: nat)
    requires n >= 1000
    ensures |Decimal(n)| >= 4 && Decimal(n)[|Decimal(n)| - 4..] == Four(n % 10000)
  {
    hide Decimal, Digit, Four;
    DecimalSplit(n);
    LastDigit(n / 1000);
    var q, a, b, c, d := TenThousand(n);
    FourPlaces(n % 10000, a, b, c, d);
    TenIs(n / 1000, q, a);
    TenIs(n / 100, 10 * q + a, b);
    TenIs(n / 10, 100 * q + 10 * a + b, c);
    TenIs(n, 1000 * q + 100 * a + 10 * b + c, d);
    LastPlaces(Decimal(n / 1000), Digit(a), Digit(b), Digit(c), Digit(d));
  }

  lemma LastPlaces(front: string, a: char, b: char, c: char, d: char)
    requires front != "" && front[|front| - 1] == a
    ensures var s := front + [b, c, d]; |s| >= 4 && s[|s| - 4..] == [a, b, c, d]
  {
  }

  lemma PadSmall(n: nat)
    requires n < 1000
    ensures Pad(n, 4) == Four(n)
  {
    hide Decimal, Digit, Four;
    var q, a, b, c, d := TenThousand(n);
    assert q == 0 && a == 0;
    FourPlaces(n, 0, b, c, d);
    DecimalPlaces(n, b, c, d);
    assert Digit(0) == '0' by { ZeroDigit(); }
    PadShort(Decimal(n), Digit(b), Digit(c), Digit(d));
    assert c == 0 && b == 0 ==> Digit(c) == '0';
  }

  lemma ZeroDigit()
    ensures Digit(0) == '0'
  {
  }

  lemma PadShort(s: string, b: char, c: char, d: char)
    requires s == [b, c, d] || (b == '0' && s == [c, d]) || (b == '0' && c == '0' && s == [d])
    ensures var t := "000" + s; t[|t| - 4..] == ['0', b, c, d]
  {
  }

  lemma PadLarge(n: nat)
    requires n >= 1000
    ensures Pad(n, 4) == Four(n % 10000) && Pad(0 - n, 4) == Four(n % 10000)
  {
    hide Decimal, Four;
    LastFour(n);
    SliceEnd("000", Decimal(n), 4);
    SliceEnd("-", Decimal(n), 4);
    SliceEnd("000", "-" + Decimal(n), 4);
    assert NumberText(n) == Decimal(n) && NumberText(0 - n) == "-" + Decimal(n);
  }

  /** Padding a year to four places keeps the last four digits of its size; a year from -999 to
      -1 keeps its sign instead and has no four digits. */
  lemma PadFour(y: int)
    ensures y >= 0 ==> Pad(y, 4) == Four(y % 10000)
    ensures y <= -1000 ==> Pad(y, 4) == Four((-y) % 10000)
    ensures -1000 < y < 0 ==> !AllDigits(Pad(y, 4))
  {
    hide Pad, Four, AllDigits;
    if 0 <= y < 1000 { PadSmall(y); }
    else if y >= 1000 { PadLarge(y); }
    else if y <= -1000 { PadLarge(-y); }
    else { PadNegative(-y); }
  }

  lemma SliceEnd(a: string, b: string, k: nat)
    requires k <= |b|
    ensures (a + b)[|a + b| - k..] == b[|b| - k..]
  {
  }

  lemma PadNegative(n: nat)
    requires 0 < n < 1000
    ensures !AllDigits(Pad(0 - n, 4))
  {
    ShortNegative(n);
    var d := Decimal(n);
    var t := "000" + ("-" + d);
    assert Pad(0 - n, 4) == t[|t| - 4..];
    var k: int := 3 - |d|;
    assert t[3] == '-' && t[|t| - 4..][k] == t[3];
  }

  lemma ShortNegative(n: nat)
    requires 0 < n < 1000
    ensures 1 <= |Decimal(n)| <= 3
  {
    if n >= 100 { assert |Decimal(n / 10)| == 1 + |Decimal(n / 10 / 10)| == 2; }
    else if n >= 10 { assert |Decimal(n / 10)| == 1; }
  }

  // ---- format strings ----

  /** How often a token letter may repeat; 0 for other characters.  `S` is known to the printer
      only and `z` to the parser only. */
  function MaxRun(c: char): nat {
    if c == 'd' || c == 'M' || c == 'y' then 4
    else if c == 'h' || c == 'H' || c == 'm' || c == 's' || c == 't' then 2 else 0
  }

  /** Length of the run of one character at the head, up to a limit. */
  function Run(s: string, c: char, limit: nat): (n: nat)
    ensures n <= |s| && n <= limit && forall i :: 0 <= i < n ==> s[i] == c
    ensures limit > 0 && s != "" && s[0] == c ==> n > 0
    decreases limit
  {
    if limit == 0 || s == "" || s[0] != c then 0 else 1 + Run(s[1..], c, limit - 1)
  }

  /** Length of the token at the head for the printer's pattern, 0 if there is none. */
  function PrinterToken(s: string): (n: nat)
    ensures n <= |s|
  {
    if s == "" then 0 else Run(s, s[0], if s[0] == 'S' then 1 else MaxRun(s[0]))
  }

  /** The same for the grammar's pattern. */
  function GrammarToken(s: string): (n: nat)
    ensures n <= |s|
    ensures s != "" && IsGrammarLetter(s[0]) ==> n > 0
  {
    if s == "" then 0 else Run(s, s[0], if s[0] == 'z' then 3 else MaxRun(s[0]))
  }

  /** The letters excluded from literals, `[^dMyhHmstz]`. */
  predicate IsGrammarLetter(c: char) { MaxRun(c) > 0 || c == 'z' }

  function LiteralRun(s: string): (n: nat)
    ensures n <= |s| && forall i :: 0 <= i < n ==> !IsGrammarLetter(s[i])
    ensures s != "" && !IsGrammarLetter(s[0]) ==> n > 0
  {
    if s == "" || IsGrammarLetter(s[0]) then 0 else 1 + LiteralRun(s[1..])
  }

  datatype Piece = Token(t: string) | Literal(s: string)

  /** The grammar's reading of a format string: tokens and maximal literals. */
  function Pieces(fmt: string): seq<Piece>
    decreases |fmt|
  {
    if fmt == "" then []
    else if IsGrammarLetter(fmt[0]) then [Token(fmt[..GrammarToken(fmt)])] + Pieces(fmt[GrammarToken(fmt)..])
    else [Literal(fmt[..LiteralRun(fmt)])] + Pieces(fmt[LiteralRun(fmt)..])
  }

  // ---- printing ----

  function YearAt(t: int): int { YearOf(Day(t)) }
  function MonthAt(t: int): int { MonthOf(Day(t)) }
  function DateAt(t: int): int { DateOf(Day(t)) }

  /** The text of a token, for the six tokens of this module; the others need a culture's names
      or other widths and are a parameter. */
  function TokenText(tok: string, t: int, foreign: string -> string): string {
    if tok == "yyyy" then Pad(YearAt(t), 4)
    else if tok == "MM" then Pad(MonthAt(t) + 1, 2)
    else if tok == "dd" then Pad(DateAt(t), 2)
    else if tok == "HH" then Pad(Hour(t), 2)
    else if tok == "mm" then Pad(Minute(t), 2)
    else if tok == "ss" then Pad(Second(t), 2)
    else foreign(tok)
  }

  /** `toString(format)`: one pass of a global replace.  A backslash before a token drops the
      backslash and keeps the token. */
  function Print(fmt: string, t: int, foreign: string -> string): string
    decreases |fmt|
  {
    if fmt == "" then ""
    else if fmt[0] == '\\' && PrinterToken(fmt[1..]) > 0 then
      var n := PrinterToken(fmt[1..]);
      fmt[1..1 + n] + Print(fmt[1 + n..], t, foreign)
    else if PrinterToken(fmt) > 0 then
      TokenText(fmt[..PrinterToken(fmt)], t, foreign) + Print(fmt[PrinterToken(fmt)..], t, foreign)
    else [fmt[0]] + Print(fmt[1..], t, foreign)
  }

  function PieceText(p: Piece, t: int, foreign: string -> string): string {
    match p
    case Token(tok) => TokenText(tok, t, foreign)
    case Literal(s) => s
  }

  function PiecesText(ps: seq<Piece>, t: int, foreign: string -> string): string {
    if ps == [] then "" else PieceText(ps[0], t, foreign) + PiecesText(ps[1..], t, foreign)
  }

  /** Both sides read this character the same way. */
  predicate IsShared(c: char) { c != '\\' && c != 'S' && c != 'z' }

  predicate AllShared(s: string) { forall i :: 0 <= i < |s| ==> IsShared(s[i]) }

  lemma NoToken(s: string)
    requires s != "" && IsShared(s[0]) && !IsGrammarLetter(s[0])
    ensures PrinterToken(s) == 0
  {
  }

  lemma {:induction false} LiteralPrints(lit: string, rest: string, t: int, foreign: string -> string)
    requires AllShared(lit) && forall i :: 0 <= i < |lit| ==> !IsGrammarLetter(lit[i])
    ensures Print(lit + rest, t, foreign) == lit + Print(rest, t, foreign)
    decreases |lit|
  {
    hide TokenText, Run, PrinterToken;
    if lit == "" {
      assert lit + rest == rest;
    } else {
      NoToken(lit + rest);
      assert (lit + rest)[1..] == lit[1..] + rest;
      LiteralPrints(lit[1..], rest, t, foreign);
      assert [lit[0]] + (lit[1..] + Print(rest, t, foreign)) == lit + Print(rest, t, foreign);
    }
  }

  /** The two tokenizers agree on every format without a backslash, `S` or `z`. */
  lemma {:induction false} TokenizersAgree(fmt: string, t: int, foreign: string -> string)
    requires AllShared(fmt)
    ensures Print(fmt, t, foreign) == PiecesText(Pieces(fmt), t, foreign)
    decreases |fmt|
  {
    hide TokenText, Run;
    if fmt != "" {
      if IsGrammarLetter(fmt[0]) {
        var n := GrammarToken(fmt);
        assert PrinterToken(fmt) == n;
        TokenizersAgree(fmt[n..], t, foreign);
      } else {
        var n := LiteralRun(fmt);
        assert fmt == fmt[..n] + fmt[n..];
        LiteralPrints(fmt[..n], fmt[n..], t, foreign);
        TokenizersAgree(fmt[n..], t, foreign);
      }
    }
  }
}
