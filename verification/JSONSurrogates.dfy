/**
 * Escaped low surrogates with no high one before them, which handle_u_code of libqpdf/JSON.cc refuses
 * at every offset but one.
 */
module JSONSurrogates {
  import opened Wrappers
  import opened JSONModel
  import opened JSONLexer
  import opened JSONOffsets
  import opened JSONParser
  import opened JSONRoundTrip

  predicate HexDigits(h: string) {
    |h| == 4 && forall i :: 0 <= i < 4 ==> HexValue(h[i]) < 16
  }

  function HexCode(h: string): (code: nat)
    requires HexDigits(h)
    ensures code < 0x10000
  {
    4096 * HexValue(h[0]) + 256 * HexValue(h[1]) + 16 * HexValue(h[2]) + HexValue(h[3])
  }

  lemma HexStep(l: Lexer, c: char, rest: string, offset: nat)
    requires l.state == LsU4 && l.uCount < 3 && HexValue(c) < 16
    ensures Lex(l, [c] + rest, offset) ==
            Lex(l.(uValue := 16 * l.uValue + HexValue(c), uCount := l.uCount + 1), rest, offset + 1)
  {
    hide Lex;
    LexUsed(l, c, rest, offset);
  }

  lemma LastHexStep(l: Lexer, c: char, rest: string, offset: nat)
    requires l.state == LsU4 && l.uCount == 3 && HexValue(c) < 16 && offset >= 5
    requires LowSurrogate(16 * l.uValue + HexValue(c)) && l.highOffset == 0
    ensures var code := 16 * l.uValue + HexValue(c);
            Lex(l, [c] + rest, offset) ==
            if offset != 11 then Err(Malformed) else Lex(Escaped(l, code, Supplement(l, code)), rest, 12)
  {
    hide Utf8, Lex;
    var code := 16 * l.uValue + HexValue(c);
    if offset == 11 {
      LexUsed(l, c, rest, offset);
    } else {
      LexFailed(l, c, rest, offset);
    }
  }

  lemma LexFailed(l: Lexer, c: char, rest: string, offset: nat)
    requires LexChar(l, c, offset).Failed?
    ensures Lex(l, [c] + rest, offset) == Err(Malformed)
  {
  }

  // After an escape of four digits.
  function Escaped(l: Lexer, code: nat, add: string): Lexer {
    Lexer(LsString, l.token + add, 4, code, l.high, 0)
  }

  // What is made of a low surrogate with no high one.
  function Supplement(l: Lexer, code: nat): string {
    Utf8(0x10000 + l.high % 0x400 * 0x400 + code % 0x400)
  }

  // The escape of a low surrogate where no high one came before.
  lemma LowEscape(l: Lexer, h: string, rest: string, offset: nat)
    requires l.state == LsString && l.highOffset == 0 && HexDigits(h) && LowSurrogate(HexCode(h))
    ensures Lex(l, "\\u" + h + rest, offset) ==
            if offset == 6 then Lex(Escaped(l, HexCode(h), Supplement(l, HexCode(h))), rest, 12) else Err(Malformed)
  {
    hide Lex, LexChar, Utf8, HexCode, HexDigits, LowSurrogate, HexValue;
    assert "\\u" + h + rest == ['\\', 'u'] + (h + rest);
    LexBackslashU(l, h + rest, offset);
    var u := l.(state := LsU4, uCount := 0, uValue := 0);
    var v := ThreeDigits(u, h, rest, offset + 2);
    LastHexStep(v, h[3], rest, offset + 5);
  }

  // The first three of four digits.
  lemma ThreeDigits(u: Lexer, h: string, rest: string, offset: nat) returns (v: Lexer)
    requires u.state == LsU4 && u.uCount == 0 && u.uValue == 0 && HexDigits(h)
    ensures v == u.(uCount := 3, uValue := v.uValue)
    ensures |h| == 4 && HexValue(h[3]) < 16 && HexCode(h) == 16 * v.uValue + HexValue(h[3])
    ensures Lex(u, h + rest, offset) == Lex(v, [h[3]] + rest, offset + 3)
  {
    hide Lex, LexChar, HexValue;
    var r3 := [h[3]] + rest;
    var r2 := [h[2]] + r3;
    var r1 := [h[1]] + r2;
    assert h + rest == [h[0]] + r1;
    var v1 := HexValue(h[0]);
    var v2 := 16 * v1 + HexValue(h[1]);
    HexStep(u, h[0], r1, offset);
    HexStep(u.(uCount := 1, uValue := v1), h[1], r2, offset + 1);
    HexStep(u.(uCount := 2, uValue := v2), h[2], r3, offset + 2);
    v := u.(uCount := 3, uValue := 16 * v2 + HexValue(h[2]));
  }

  // A string with such an escape is an error unless the backslash is at offset 6, where the marker for
  // no high surrogate is taken for one at offset 0.
  lemma LoneLowSurrogate(n: nat, a: string, h: string, b: string)
    requires HexDigits(h) && LowSurrogate(HexCode(h))
    ensures var text := Spaces(n) + Quoted(a, h, b);
            ParseText(text) ==
            if n + 1 + |Encode(a)| == 6 then Ok(Str(a + Utf8(0x10000 + HexCode(h) % 0x400) + b)) else Err(Malformed)
  {
    hide Lex, Encode, Utf8, LowSurrogate, HexDigits, HexCode, Quoted;
    assert Quoted(a, h, b) + "" == Quoted(a, h, b);
    LexLone(n, a, h, b, "", 0);
    if n + 1 + |Encode(a)| == 6 {
      RunNothing(Handle(START, LsAfterString, Pieced(a, h, b)).value, 13 + |Encode(b)|);
    }
  }

  // A string literal with an escape of these digits, and what it is read as.
  function Quoted(a: string, h: string, b: string): string {
    "\"" + Encode(a) + "\\u" + h + Encode(b) + "\""
  }

  function Pieced(a: string, h: string, b: string): string
    requires HexDigits(h)
  {
    a + Utf8(0x10000 + HexCode(h) % 0x400) + b
  }

  // The token at the offset of a text.
  lemma LexLone(n: nat, a: string, h: string, b: string, more: string, offset: nat)
    requires HexDigits(h) && LowSurrogate(HexCode(h))
    ensures Lex(FRESH, Spaces(n) + (Quoted(a, h, b) + more), offset) ==
            if offset + n + 1 + |Encode(a)| == 6 then
              Ok(Lexed(LsAfterString, Pieced(a, h, b), more, 13 + |Encode(b)|, false))
            else Err(Malformed)
  {
    hide Lex, LexChar, Encode, Utf8, LowSurrogate, HexDigits, HexCode;
    var last := Encode(b) + (['\"'] + more);
    var rest := "\\u" + h + last;
    var tail := Encode(a) + rest;
    SamePieces(Encode(a), h, Encode(b), more);
    LexSpaces(n, ['\"'] + tail, offset);
    Quotes(FRESH, offset + n);
    LexUsed(FRESH, '\"', tail, offset + n);
    var l1 := LexEncoded(FRESH.IgnoreTo(LsString), a, rest, offset + n + 1);
    var o := offset + n + 1 + |Encode(a)|;
    assert "" + a == a;
    LowEscape(l1, h, last, o);
    if o == 6 {
      var l3 := LexEncoded(Escaped(l1, HexCode(h), Supplement(l1, HexCode(h))), b, ['\"'] + more, 12);
      Quotes(l3, 12 + |Encode(b)|);
      LexReturned(l3, '\"', more, 12 + |Encode(b)|);
    }
  }

  lemma SamePieces(a: string, h: string, b: string, more: string)
    ensures "\"" + a + "\\u" + h + b + "\"" + more == ['\"'] + (a + ("\\u" + h + (b + (['\"'] + more))))
  {
  }

  // It is read here, and is an error once a blank comes before it.
  lemma LoneLowAccepted()
    ensures var text := "\"01234\\udc00\""; ParseText(text).Ok? && ParseText(" " + text).Err?
  {
    var h, text := "dc00", "\"01234\\udc00\"";
    assert HexDigits(h) && HexCode(h) == 0xDC00;
    FiveDigits();
    hide ParseText, Utf8, HexDigits, HexCode;
    assert Encode("") == "";
    hide Encode;
    assert Quoted("01234", h, "") == text;
    LoneLowSurrogate(0, "01234", h, "");
    assert Spaces(0) + text == text;
    LoneLowSurrogate(1, "01234", h, "");
    assert Spaces(1) == " ";
  }

  // A text that is parsed although the part recorded for one of its items is an error by itself: here the
  // escape is at offset 6, there it is at offset 5.
  lemma LoneLowInside() returns (it: Placed)
    ensures var text := "[\"1234\\udc00\"]";
            && ParseText(text) == Ok(Array([it.item])) && it in Items(text)
            && it.start == 1 && it.end == 13 && text[it.start..it.end] == "\"1234\\udc00\""
            && ParseText(text[it.start..it.end]) == Err(Malformed)
  {
    hide Lex, ParseText, Items;
    var text, inner := "[\"1234\\udc00\"]", "\"1234\\udc00\"";
    assert text == ['['] + (inner + "]") && text[1..13] == inner;
    var s := LexInside(inner);
    it := Placed(Str(s), 1, 13);
    InArray(inner, s, 13);
  }

  lemma LexInside(inner: string) returns (s: string)
    requires inner == "\"1234\\udc00\""
    ensures Lex(FRESH, inner + "]", 1) == Ok(Lexed(LsAfterString, s, "]", 13, false))
    ensures ParseText(inner) == Err(Malformed)
  {
    hide Lex, ParseText, Utf8, HexDigits, HexCode, Encode, Pieced, Quoted, LowSurrogate;
    LowestLow();
    PlainQuoted();
    s := Pieced("1234", "dc00", "");
    assert Spaces(0) + inner == inner && Spaces(0) + (inner + "]") == inner + "]";
    LoneLowSurrogate(0, "1234", "dc00", "");
    LexLone(0, "1234", "dc00", "", "]", 1);
  }

  lemma LowestLow()
    ensures HexDigits("dc00") && HexCode("dc00") == 0xDC00 && LowSurrogate(0xDC00)
  {
  }

  lemma PlainQuoted()
    ensures Quoted("1234", "dc00", "") == "\"1234\\udc00\"" && |Encode("1234")| == 4 && |Encode("")| == 0
  {
    EncodePlain("1234");
    assert Encode("") == "";
    hide Encode;
    assert "\"" + "1234" + "\\u" + "dc00" + "" + "\"" == "\"1234\\udc00\"";
  }

  // A parser with one array on its stack.
  function InList(state: ParserState, items: seq<Json>): Parser {
    Parser(state, [Frame(PsDone, Array(items), "")], "")
  }

  lemma HandleArray(s: string)
    ensures Handle(START, LsBeginArray, "") == Ok(InList(PsArrayBegin, []))
    ensures Handle(InList(PsArrayBegin, []), LsAfterString, s) == Ok(InList(PsArrayAfterItem, [Str(s)]))
    ensures Handle(InList(PsArrayAfterItem, [Str(s)]), LsEndArray, "") == Ok(InList(PsDone, [Str(s)]))
  {
    var f, g := Frame(PsDone, Array([]), ""), Frame(PsDone, Array([Str(s)]), "");
    assert [] + [f] == [f] && [] + [Str(s)] == [Str(s)] && [f][0 := g] == [g];
  }

  lemma MarkArray(s: string, end: nat, start: nat) returns (m1: Marks, m2: Marks, m3: Marks)
    ensures m1 == Mark(START, NO_MARKS, LsBeginArray, "", 0, 1)
    ensures m2 == Mark(InList(PsArrayBegin, []), m1, LsAfterString, s, 1, end)
    ensures m3 == Mark(InList(PsArrayAfterItem, [Str(s)]), m2, LsEndArray, "", start, end + 1)
    ensures Placed(Str(s), 1, end) in m3.placed
  {
    m1 := Mark(START, NO_MARKS, LsBeginArray, "", 0, 1);
    m2 := Mark(InList(PsArrayBegin, []), m1, LsAfterString, s, 1, end);
    assert m2.placed == [Placed(Str(s), 1, end)];
    m3 := Mark(InList(PsArrayAfterItem, [Str(s)]), m2, LsEndArray, "", start, end + 1);
    assert m3.placed[0] == Placed(Str(s), 1, end);
  }

  lemma LexArray(rest: string, end: nat)
    requires rest != "" && rest[0] == '\"'
    ensures Lex(FRESH, ['['] + rest, 0) == Ok(Lexed(LsBeginArray, "", rest, 1, false))
    ensures Lex(FRESH, "]", end) == Ok(Lexed(LsEndArray, "", "", end + 1, false))
    ensures TokenStart(['['] + rest, 0) == 0 && TokenStart(rest, 1) == 1
  {
    hide Lex;
    LexReturned(FRESH, '[', rest, 0);
    assert "]" == [']'] + "";
    LexReturned(FRESH, ']', "", end);
  }

  // An array of one string that is read up to the offset.
  lemma InArray(inner: string, s: string, end: nat)
    requires inner != "" && inner[0] == '\"'
    requires Lex(FRESH, inner + "]", 1) == Ok(Lexed(LsAfterString, s, "]", end, false))
    ensures var text := ['['] + (inner + "]");
            ParseText(text) == Ok(Array([Str(s)])) && Placed(Str(s), 1, end) in Items(text)
  {
    hide Lex, TokenStart, Handle, Mark, Run, RunMarks;
    var rest := inner + "]";
    var text := ['['] + rest;
    LexArray(rest, end);
    HandleArray(s);
    var m1, m2, m3 := MarkArray(s, end, TokenStart("]", end));
    var p1, p2 := InList(PsArrayBegin, []), InList(PsArrayAfterItem, [Str(s)]);
    var p3 := InList(PsDone, [Str(s)]);
    RunNext(START, text, 0);
    RunNext(p1, rest, 1);
    RunNext(p2, "]", end);
    RunNothing(p3, end + 1);
    RunMarksNext(START, NO_MARKS, text, 0);
    RunMarksNext(p1, m1, rest, 1);
    RunMarksNext(p2, m2, "]", end);
    MarksNothing(p3, m3, end + 1);
  }

  lemma MarksNothing(p: Parser, m: Marks, offset: nat)
    ensures RunMarks(p, m, "", offset) == m
  {
    assert Lex(FRESH, "", offset) == Ok(Lexed(LsTop, "", "", offset, true));
  }

  lemma FiveDigits()
    ensures Encode("01234") == "01234"
  {
    EncodePlain("01234");
  }
}
