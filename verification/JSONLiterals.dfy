/**
 * The strings of section 7 of RFC 8259 in any spelling, and the bytes that libqpdf/JSON.cc makes of them:
 * characters as they are, short escapes, and code points in UTF-8, RFC 3629.
 */
module JSONLiterals {
  import opened Wrappers
  import opened JSONModel
  import opened JSONLexer
  import opened JSONOffsets
  import opened JSONParser
  import opened JSONRoundTrip
  import opened JSONSurrogates

  // ---------------------------------------------------------------- UTF-8

  // What comes after a lead byte.
  predicate Continues(c: char) {
    0x80 <= c as int < 0xC0
  }

  // Section 3 of RFC 3629: the lead byte says how many bytes there are, and which bits of the code point it has.
  function DecodeUtf8(s: string): Option<nat> {
    if |s| == 1 && s[0] as int < 0x80 then Some(s[0] as int)
    else if |s| == 2 && 0xC0 <= s[0] as int < 0xE0 && Continues(s[1]) then
      Some((s[0] as int - 0xC0) * 0x40 + (s[1] as int - 0x80))
    else if |s| == 3 && 0xE0 <= s[0] as int < 0xF0 && Continues(s[1]) && Continues(s[2]) then
      Some((s[0] as int - 0xE0) * 0x1000 + (s[1] as int - 0x80) * 0x40 + (s[2] as int - 0x80))
    else if |s| == 4 && 0xF0 <= s[0] as int < 0xF8 && Continues(s[1]) && Continues(s[2]) && Continues(s[3]) then
      Some((s[0] as int - 0xF0) * 0x40000 + (s[1] as int - 0x80) * 0x1000 + (s[2] as int - 0x80) * 0x40 +
           (s[3] as int - 0x80))
    else None
  }

  // A code point in as few bytes as it needs.
  lemma Utf8Decodes(u: nat)
    requires u < 0x110000
    ensures DecodeUtf8(Utf8(u)) == Some(u)
    ensures |Utf8(u)| == if u < 0x80 then 1 else if u < 0x800 then 2 else if u < 0x10000 then 3 else 4
  {
    var s := Utf8(u);
    if u < 0x80 {
    } else if u < 0x800 {
      assert s == [(0xC0 + u / 64) as char, (0x80 + u % 64) as char];
    } else if u < 0x10000 {
      assert u / 64 % 64 == u / 64 - u / 4096 * 64;
    } else {
      FourParts(u);
      assert |s| == 4;
    }
  }

  lemma FourParts(u: nat)
    ensures u == u / 262144 * 262144 + u / 4096 % 64 * 4096 + u / 64 % 64 * 64 + u % 64
  {
    var a, b, c := u / 64, u / 4096, u / 262144;
    assert b == a / 64 && c == b / 64;
  }

  // ---------------------------------------------------------------- literals

  // A character as it is, one with a backslash, a code point below 0x10000 by its hexadecimal digits, or one
  // above by those of two surrogates.
  datatype Piece = Plain(c: char) | Short(e: char) | Code(h: string) | Pair(hi: string, lo: string)

  const ESCAPES := "\"\\/bfnrt"
  const ESCAPED := ['\"', '\\', '/', 8 as char, 12 as char, '\n', '\r', '\t']

  function Digit(c: char): nat {
    if '0' <= c <= '9' then c as int - '0' as int
    else if 'A' <= c <= 'F' then c as int - 'A' as int + 10
    else if 'a' <= c <= 'f' then c as int - 'a' as int + 10
    else 0
  }

  predicate IsDigit(c: char) {
    '0' <= c <= '9' || 'A' <= c <= 'F' || 'a' <= c <= 'f'
  }

  predicate FourDigits(h: string) {
    |h| == 4 && forall i :: 0 <= i < 4 ==> IsDigit(h[i])
  }

  function Number(h: string): nat
    requires FourDigits(h)
  {
    Digit(h[0]) * 0x1000 + Digit(h[1]) * 0x100 + Digit(h[2]) * 0x10 + Digit(h[3])
  }

  predicate Allowed(p: Piece) {
    match p
    case Plain(c) => c >= ' ' && c != '\"' && c != '\\'
    case Short(e) => e in ESCAPES
    case Code(h) => FourDigits(h) && !(0xD800 <= Number(h) < 0xE000)
    case Pair(hi, lo) => FourDigits(hi) && FourDigits(lo) && 0xD800 <= Number(hi) < 0xDC00 <= Number(lo) < 0xE000
  }

  function Spelled(p: Piece): string {
    match p
    case Plain(c) => [c]
    case Short(e) => ['\\', e]
    case Code(h) => "\\u" + h
    case Pair(hi, lo) => "\\u" + hi + "\\u" + lo
  }

  // The bytes are those of the code point, in as few as it needs.
  predicate IsUtf8(s: string, u: nat) {
    DecodeUtf8(s) == Some(u) && |s| == if u < 0x80 then 1 else if u < 0x800 then 2 else if u < 0x10000 then 3 else 4
  }

  ghost predicate Means(p: Piece, s: string)
    requires Allowed(p)
  {
    match p
    case Plain(c) => s == [c]
    case Short(e) => exists i :: 0 <= i < 8 && ESCAPES[i] == e && s == [ESCAPED[i]]
    case Code(h) => IsUtf8(s, Number(h))
    case Pair(hi, lo) => IsUtf8(s, 0x10000 + (Number(hi) - 0xD800) * 0x400 + (Number(lo) - 0xDC00))
  }

  // What is read. It is the one string that is meant.
  function Said(p: Piece): string
    requires Allowed(p)
  {
    match p
    case Plain(c) => [c]
    case Short(e) => [ESCAPED[EscapeIndex(e)]]
    case Code(h) => FourLong(h); Utf8(Number(h))
    case Pair(hi, lo) =>
      FourLong(hi);
      FourLong(lo);
      Utf8(0x10000 + (Number(hi) - 0xD800) * 0x400 + (Number(lo) - 0xDC00))
  }

  function EscapeIndex(e: char): (i: nat)
    requires e in ESCAPES
    ensures i < 8 && ESCAPES[i] == e
  {
    if e == '\"' then 0 else if e == '\\' then 1 else if e == '/' then 2 else if e == 'b' then 3
    else if e == 'f' then 4 else if e == 'n' then 5 else if e == 'r' then 6 else 7
  }

  lemma FourLong(h: string)
    requires FourDigits(h)
    ensures |h| == 4 && Number(h) < 0x10000
  {
  }

  lemma SaidIsMeant(p: Piece, s: string)
    requires Allowed(p)
    ensures Means(p, s) <==> s == Said(p)
  {
    match p
    case Plain(_) =>
    case Short(e) =>
      forall i | 0 <= i < 8 && ESCAPES[i] == e
        ensures i == EscapeIndex(e)
      {
      }
    case Code(h) =>
      FourLong(h);
      OneUtf8(Number(h), s);
    case Pair(hi, lo) =>
      FourLong(hi);
      FourLong(lo);
      OneUtf8(0x10000 + (Number(hi) - 0xD800) * 0x400 + (Number(lo) - 0xDC00), s);
  }

  lemma OneUtf8(u: nat, s: string)
    requires u < 0x110000
    ensures IsUtf8(s, u) <==> s == Utf8(u)
  {
    Utf8Decodes(u);
    hide Utf8;
    var t := Utf8(u);
    if IsUtf8(s, u) {
      SameBytes(s, t);
    }
  }

  // Bytes that make up the same code point, as many of them, are the same.
  lemma SameBytes(s: string, t: string)
    requires |s| == |t| && DecodeUtf8(s).Some? && DecodeUtf8(s) == DecodeUtf8(t)
    ensures s == t
  {
    if |s| == 2 {
      SameDigits(s[0] as int - 0xC0, s[1] as int - 0x80, t[0] as int - 0xC0, t[1] as int - 0x80);
    } else if |s| == 3 {
      var a, b := (s[0] as int - 0xE0) * 64 + (s[1] as int - 0x80), (t[0] as int - 0xE0) * 64 + (t[1] as int - 0x80);
      SameDigits(a, s[2] as int - 0x80, b, t[2] as int - 0x80);
      SameDigits(s[0] as int - 0xE0, s[1] as int - 0x80, t[0] as int - 0xE0, t[1] as int - 0x80);
    } else if |s| == 4 {
      var a, b := (s[0] as int - 0xF0) * 64 + (s[1] as int - 0x80), (t[0] as int - 0xF0) * 64 + (t[1] as int - 0x80);
      var a', b' := a * 64 + (s[2] as int - 0x80), b * 64 + (t[2] as int - 0x80);
      SameDigits(a', s[3] as int - 0x80, b', t[3] as int - 0x80);
      SameDigits(a, s[2] as int - 0x80, b, t[2] as int - 0x80);
      SameDigits(s[0] as int - 0xF0, s[1] as int - 0x80, t[0] as int - 0xF0, t[1] as int - 0x80);
    }
  }

  lemma SameDigits(a: int, x: int, b: int, y: int)
    requires 0 <= x < 64 && 0 <= y < 64 && a * 64 + x == b * 64 + y
    ensures a == b && x == y
  {
  }

  predicate AllAllowed(ps: seq<Piece>) {
    forall i :: 0 <= i < |ps| ==> Allowed(ps[i])
  }

  function Body(ps: seq<Piece>): string {
    if ps == [] then "" else Spelled(ps[0]) + Body(ps[1..])
  }

  function AllSaid(ps: seq<Piece>): string
    requires AllAllowed(ps)
  {
    if ps == [] then "" else Said(ps[0]) + AllSaid(ps[1..])
  }

  // ---------------------------------------------------------------- the lexer reads them

  predicate Open(l: Lexer) {
    l.state == LsString && l.highOffset == 0
  }

  lemma PlainRead(l: Lexer, c: char, rest: string, offset: nat) returns (l': Lexer)
    requires Open(l) && Allowed(Plain(c))
    ensures Open(l') && l'.token == l.token + [c] && Lex(l, [c] + rest, offset) == Lex(l', rest, offset + 1)
  {
    hide Lex;
    LexUsed(l, c, rest, offset);
    l' := l.Append(c);
  }

  lemma ShortRead(l: Lexer, e: char, rest: string, offset: nat) returns (l': Lexer)
    requires Open(l) && Allowed(Short(e))
    ensures Open(l') && l'.token == l.token + [ESCAPED[EscapeIndex(e)]]
    ensures Lex(l, ['\\', e] + rest, offset) == Lex(l', rest, offset + 2)
  {
    hide Lex;
    assert ['\\', e] + rest == ['\\'] + ([e] + rest);
    LexUsed(l, '\\', [e] + rest, offset);
    LexUsed(l.IgnoreTo(LsBackslash), e, rest, offset + 1);
    l' := l.AppendTo(ESCAPED[EscapeIndex(e)], LsString);
  }

  lemma DigitsAgree(h: string)
    requires FourDigits(h)
    ensures HexDigits(h) && HexCode(h) == Number(h)
  {
    assert forall i :: 0 <= i < 4 ==> HexValue(h[i]) == Digit(h[i]) < 16;
  }

  // All but the last of four digits.
  lemma DigitsRead(l: Lexer, h: string, rest: string, offset: nat) returns (v: Lexer)
    requires l.state == LsString && FourDigits(h)
    ensures v == l.(state := LsU4, uCount := 3, uValue := v.uValue) && |h| == 4 && HexValue(h[3]) < 16
    ensures 16 * v.uValue + HexValue(h[3]) == Number(h)
    ensures Lex(l, "\\u" + h + rest, offset) == Lex(v, [h[3]] + rest, offset + 5)
  {
    hide Lex, LexChar, HexCode, HexDigits, HexValue, Number, FourDigits;
    DigitsAgree(h);
    assert "\\u" + h + rest == ['\\', 'u'] + (h + rest);
    LexBackslashU(l, h + rest, offset);
    v := ThreeDigits(l.(state := LsU4, uCount := 0, uValue := 0), h, rest, offset + 2);
  }

  lemma LastRead(l: Lexer, c: char, rest: string, offset: nat) returns (l': Lexer)
    requires l.state == LsU4 && l.uCount == 3 && HexValue(c) < 16 && offset >= 5
    requires var u := 16 * l.uValue + HexValue(c);
             u < 0x10000 && HandleUCode(l.(uValue := u, uCount := 4), u, offset - 5).Some?
    ensures var u := 16 * l.uValue + HexValue(c);
            l' == HandleUCode(l.(uValue := u, uCount := 4), u, offset - 5).value.IgnoreTo(LsString)
    ensures Lex(l, [c] + rest, offset) == Lex(l', rest, offset + 1)
  {
    hide Lex, HandleUCode;
    LexUsed(l, c, rest, offset);
    var u := 16 * l.uValue + HexValue(c);
    l' := HandleUCode(l.(uValue := u, uCount := 4), u, offset - 5).value.IgnoreTo(LsString);
  }

  lemma CodeRead(l: Lexer, h: string, rest: string, offset: nat) returns (l': Lexer)
    requires Open(l) && Allowed(Code(h))
    ensures Open(l') && l'.token == l.token + Utf8(Number(h))
    ensures Lex(l, "\\u" + h + rest, offset) == Lex(l', rest, offset + 6)
  {
    hide Lex, Utf8, HexValue;
    var v := DigitsRead(l, h, rest, offset);
    hide Number, FourDigits;
    l' := LastRead(v, h[3], rest, offset + 5);
  }

  lemma HighRead(l: Lexer, h: string, rest: string, offset: nat) returns (l': Lexer)
    requires Open(l) && FourDigits(h) && 0xD800 <= Number(h) < 0xDC00 && offset > 0
    ensures l'.state == LsString && l'.highOffset == offset && l'.high == Number(h) && l'.token == l.token
    ensures Lex(l, "\\u" + h + rest, offset) == Lex(l', rest, offset + 6)
  {
    hide Lex, Utf8, HexValue;
    var v := DigitsRead(l, h, rest, offset);
    hide Number, FourDigits;
    l' := LastRead(v, h[3], rest, offset + 5);
  }

  lemma LowRead(l: Lexer, h: string, rest: string, offset: nat) returns (l': Lexer)
    requires l.state == LsString && FourDigits(h) && 0xDC00 <= Number(h) < 0xE000 && offset == l.highOffset + 6
    ensures Open(l') && l'.token == l.token + Utf8(0x10000 + l.high % 0x400 * 0x400 + Number(h) % 0x400)
    ensures Lex(l, "\\u" + h + rest, offset) == Lex(l', rest, offset + 6)
  {
    hide Lex, Utf8, HexValue;
    var v := DigitsRead(l, h, rest, offset);
    hide Number, FourDigits;
    l' := LastRead(v, h[3], rest, offset + 5);
  }

  lemma PairRead(l: Lexer, hi: string, lo: string, rest: string, offset: nat) returns (l': Lexer)
    requires Open(l) && Allowed(Pair(hi, lo)) && offset > 0
    ensures Open(l')
    ensures l'.token == l.token + Utf8(0x10000 + (Number(hi) - 0xD800) * 0x400 + (Number(lo) - 0xDC00))
    ensures Lex(l, "\\u" + hi + "\\u" + lo + rest, offset) == Lex(l', rest, offset + 12)
  {
    hide Lex, Utf8;
    var low := "\\u" + lo + rest;
    assert "\\u" + hi + "\\u" + lo + rest == "\\u" + hi + low;
    var m := HighRead(l, hi, low, offset);
    l' := LowRead(m, lo, rest, offset + 6);
    SurrogateParts(Number(hi), Number(lo));
  }

  lemma SurrogateParts(hi: nat, lo: nat)
    requires 0xD800 <= hi < 0xDC00 <= lo < 0xE000
    ensures hi % 0x400 == hi - 0xD800 && lo % 0x400 == lo - 0xDC00
  {
  }

  lemma PieceRead(l: Lexer, p: Piece, rest: string, offset: nat) returns (l': Lexer)
    requires Open(l) && Allowed(p) && offset > 0
    ensures Open(l') && l'.token == l.token + Said(p)
    ensures Lex(l, Spelled(p) + rest, offset) == Lex(l', rest, offset + |Spelled(p)|)
  {
    hide Lex, Utf8, Number, FourDigits;
    match p
    case Plain(c) => l' := PlainRead(l, c, rest, offset);
    case Short(e) => l' := ShortRead(l, e, rest, offset);
    case Code(h) =>
      l' := CodeRead(l, h, rest, offset);
      FourLong(h);
    case Pair(hi, lo) =>
      l' := PairRead(l, hi, lo, rest, offset);
      FourLong(hi);
      FourLong(lo);
  }

  lemma {:induction false} BodyRead(l: Lexer, ps: seq<Piece>, rest: string, offset: nat) returns (l': Lexer)
    requires Open(l) && AllAllowed(ps) && offset > 0
    ensures Open(l') && l'.token == l.token + AllSaid(ps)
    ensures Lex(l, Body(ps) + rest, offset) == Lex(l', rest, offset + |Body(ps)|)
    decreases |ps|
  {
    hide Lex, Allowed, Said, Spelled;
    if ps == [] {
      assert Body(ps) + rest == rest && l.token + "" == l.token;
      return l;
    }
    var tail := Body(ps[1..]);
    assert Body(ps) + rest == Spelled(ps[0]) + (tail + rest);
    var m := PieceRead(l, ps[0], tail + rest, offset);
    l' := BodyRead(m, ps[1..], rest, offset + |Spelled(ps[0])|);
    assert l.token + Said(ps[0]) + AllSaid(ps[1..]) == l.token + (Said(ps[0]) + AllSaid(ps[1..]));
  }

  // Every string literal, at any place of a text, is one token: the bytes that it means.
  lemma LiteralRead(ps: seq<Piece>, rest: string, offset: nat)
    requires AllAllowed(ps)
    ensures Lex(FRESH, Literal(ps) + rest, offset) ==
            Ok(Lexed(LsAfterString, AllSaid(ps), rest, offset + |Literal(ps)|, false))
  {
    hide Lex, AllAllowed, AllSaid, Body;
    var close := ['\"'] + rest;
    assert Literal(ps) + rest == ['\"'] + (Body(ps) + close);
    Quotes(FRESH, offset);
    LexUsed(FRESH, '\"', Body(ps) + close, offset);
    var l := BodyRead(FRESH.IgnoreTo(LsString), ps, close, offset + 1);
    assert "" + AllSaid(ps) == AllSaid(ps);
    LexReturned(l, '\"', rest, offset + 1 + |Body(ps)|);
  }

  function Literal(ps: seq<Piece>): string {
    "\"" + Body(ps) + "\""
  }

  // And a text that is a string literal, with any blanks around it, is parsed to it.
  lemma LiteralParsed(ps: seq<Piece>, before: string, after: string)
    requires AllAllowed(ps) && AllBlank(before) && AllBlank(after)
    ensures ParseText(before + (Literal(ps) + after)) == Ok(Str(AllSaid(ps)))
  {
    hide Lex, AllAllowed, AllSaid, Literal;
    var text := Literal(ps) + after;
    LiteralRead(ps, after, |before|);
    BlanksRead(before, text, 0);
    var end := |before| + |Literal(ps)|;
    BlanksEnd(after, end);
    var p := Parser(PsDone, [Frame(PsDone, Str(AllSaid(ps)), "")], "");
    StringPlaced(AllSaid(ps));
    hide Handle, Run;
    RunNext(START, before + text, 0);
    RunNext(p, after, end);
  }

  lemma StringPlaced(s: string)
    ensures var p := Parser(PsDone, [Frame(PsDone, Str(s), "")], "");
            Handle(START, LsAfterString, s) == Ok(p) && Handle(p, LsTop, "") == Ok(p)
  {
    assert [] + [Frame(PsDone, Str(s), "")] == [Frame(PsDone, Str(s), "")];
  }

  predicate AllBlank(s: string) {
    forall i :: 0 <= i < |s| ==> s[i] == ' ' || s[i] == '\t' || s[i] == '\n' || s[i] == '\r'
  }

  lemma {:induction false} BlanksRead(s: string, rest: string, offset: nat)
    requires AllBlank(s)
    ensures Lex(FRESH, s + rest, offset) == Lex(FRESH, rest, offset + |s|)
    decreases |s|
  {
    hide Lex;
    if s == "" {
      assert s + rest == rest;
    } else {
      assert s + rest == [s[0]] + (s[1..] + rest);
      LexUsed(FRESH, s[0], s[1..] + rest, offset);
      BlanksRead(s[1..], rest, offset + 1);
    }
  }

  lemma BlanksEnd(s: string, offset: nat)
    requires AllBlank(s)
    ensures Lex(FRESH, s, offset) == Ok(Lexed(LsTop, "", "", offset + |s|, true))
  {
    BlanksRead(s, "", offset);
    assert s + "" == s;
    hide AllBlank;
  }
}
