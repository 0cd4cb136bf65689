/**
 * The parser and the writer of libqpdf/JSON.cc undo each other: RFC 8259.
 */
module JSONRoundTrip {
  import opened Wrappers
  import opened JSONModel
  import opened JSONLexer
  import opened JSONParser

  // ---------------------------------------------------------------- tokens

  lemma LexUsed(l: Lexer, c: char, rest: string, offset: nat)
    requires LexChar(l, c, offset).Used?
    ensures Lex(l, [c] + rest, offset) == Lex(LexChar(l, c, offset).l, rest, offset + 1)
  {
    assert ([c] + rest)[1..] == rest;
  }

  lemma LexReturned(l: Lexer, c: char, rest: string, offset: nat)
    requires LexChar(l, c, offset).Returned?
    ensures var l' := LexChar(l, c, offset).l;
            Lex(l, [c] + rest, offset) == Ok(Lexed(l'.state, l'.token, rest, offset + 1, false))
  {
    assert ([c] + rest)[1..] == rest;
  }

  // In a string, with no surrogate before this place.
  predicate InString(l: Lexer, token: string) {
    l.state == LsString && l.token == token && l.highOffset == 0 && l.high == 0
  }

  lemma LexPlain(l: Lexer, c: char, rest: string, offset: nat) returns (l': Lexer)
    requires InString(l, l.token) && Plain(c)
    ensures InString(l', l.token + [c]) && Lex(l, [c] + rest, offset) == Lex(l', rest, offset + 1)
  {
    LexUsed(l, c, rest, offset);
    l' := l.Append(c);
  }

  lemma LexEscape(l: Lexer, c: char, e: char, rest: string, offset: nat) returns (l': Lexer)
    requires InString(l, l.token)
    requires (c, e) in {('\\', '\\'), ('\"', '\"'), (BACKSPACE, 'b'), (FORM_FEED, 'f'), ('\n', 'n'), ('\r', 'r'),
              ('\t', 't')}
    ensures InString(l', l.token + [c]) && Lex(l, ['\\', e] + rest, offset) == Lex(l', rest, offset + 2)
  {
    hide Lex;
    assert ['\\', e] + rest == ['\\'] + ([e] + rest);
    LexUsed(l, '\\', [e] + rest, offset);
    var b := l.IgnoreTo(LsBackslash);
    LexUsed(b, e, rest, offset + 1);
    l' := b.AppendTo(c, LsString);
  }

  lemma HexValueOfDigit(n: nat)
    requires n < 16
    ensures HexValue(HexDigit(n)) == n && HexDigit(n) > ' ' && HexDigit(n) !in ",: {}[]"
  {
  }

  // One of the first three digits after the u.
  lemma LexHex(l: Lexer, n: nat, rest: string, offset: nat)
    requires l.state == LsU4 && l.uCount < 3 && n < 16
    ensures Lex(l, [HexDigit(n)] + rest, offset) ==
            Lex(l.(uValue := 16 * l.uValue + n, uCount := l.uCount + 1), rest, offset + 1)
  {
    hide Lex;
    HexValueOfDigit(n);
    LexUsed(l, HexDigit(n), rest, offset);
  }

  lemma LexLastHex(l: Lexer, n: nat, rest: string, offset: nat) returns (l': Lexer)
    requires l.state == LsU4 && l.uCount == 3 && n < 16 && l.uValue < 8 && offset >= 5
    requires l.highOffset == 0 && l.high == 0
    ensures InString(l', l.token + [(16 * l.uValue + n) as char])
    ensures Lex(l, [HexDigit(n)] + rest, offset) == Lex(l', rest, offset + 1)
  {
    HexValueOfDigit(n);
    var m := l.(uValue := 16 * l.uValue + n, uCount := 4);
    var h := HandleUCode(m, m.uValue, offset - 5);
    assert h == Some(m.(token := m.token + [m.uValue as char]));
    l' := h.value.IgnoreTo(LsString);
    assert LexChar(l, HexDigit(n), offset) == Used(l');
    LexUsed(l, HexDigit(n), rest, offset);
  }

  lemma LexBackslashU(l: Lexer, rest: string, offset: nat)
    requires l.state == LsString
    ensures Lex(l, ['\\', 'u'] + rest, offset) == Lex(l.(state := LsU4, uCount := 0, uValue := 0), rest, offset + 2)
  {
    hide Lex;
    assert ['\\', 'u'] + rest == ['\\'] + (['u'] + rest);
    LexUsed(l, '\\', ['u'] + rest, offset);
    LexUsed(l.IgnoreTo(LsBackslash), 'u', rest, offset + 1);
  }

  lemma LexFourDigits(u: Lexer, hi: nat, lo: nat, rest: string, offset: nat) returns (l': Lexer)
    requires u.state == LsU4 && u.uCount == 0 && u.uValue == 0 && hi < 2 && lo < 16 && offset >= 2
    requires u.highOffset == 0 && u.high == 0
    ensures InString(l', u.token + [(16 * hi + lo) as char])
    ensures Lex(u, [HexDigit(0), HexDigit(0), HexDigit(hi), HexDigit(lo)] + rest, offset) == Lex(l', rest, offset + 4)
  {
    hide Lex, LexChar, HexDigit;
    var r3 := [HexDigit(lo)] + rest;
    var r2 := [HexDigit(hi)] + r3;
    var r1 := [HexDigit(0)] + r2;
    assert [HexDigit(0), HexDigit(0), HexDigit(hi), HexDigit(lo)] + rest == [HexDigit(0)] + r1;
    LexHex(u, 0, r1, offset);
    LexHex(u.(uCount := 1), 0, r2, offset + 1);
    LexHex(u.(uCount := 2), hi, r3, offset + 2);
    l' := LexLastHex(u.(uValue := hi, uCount := 3), lo, rest, offset + 3);
  }

  lemma LexControl(l: Lexer, c: char, rest: string, offset: nat) returns (l': Lexer)
    requires InString(l, l.token) && c as int < 32
    ensures var e := ['\\', 'u', HexDigit(0), HexDigit(0), HexDigit(c as int / 16), HexDigit(c as int % 16)];
            InString(l', l.token + [c]) && Lex(l, e + rest, offset) == Lex(l', rest, offset + 6)
  {
    hide Lex, HexDigit;
    var hi, lo := c as int / 16, c as int % 16;
    var four := [HexDigit(0), HexDigit(0), HexDigit(hi), HexDigit(lo)];
    assert ['\\', 'u', HexDigit(0), HexDigit(0), HexDigit(hi), HexDigit(lo)] + rest == ['\\', 'u'] + (four + rest);
    LexBackslashU(l, four + rest, offset);
    l' := LexFourDigits(l.(state := LsU4, uCount := 0, uValue := 0), hi, lo, rest, offset + 2);
  }

  lemma LexEncodedChar(l: Lexer, c: char, rest: string, offset: nat) returns (l': Lexer)
    requires InString(l, l.token)
    ensures InString(l', l.token + [c])
    ensures Lex(l, EncodeChar(c) + rest, offset) == Lex(l', rest, offset + |EncodeChar(c)|)
  {
    hide Lex, LexChar;
    if Plain(c) {
      l' := LexPlain(l, c, rest, offset);
    } else if c == '\\' {
      l' := LexEscape(l, c, '\\', rest, offset);
    } else if c == '\"' {
      l' := LexEscape(l, c, '\"', rest, offset);
    } else if c == BACKSPACE {
      l' := LexEscape(l, c, 'b', rest, offset);
    } else if c == FORM_FEED {
      l' := LexEscape(l, c, 'f', rest, offset);
    } else if c == '\n' {
      l' := LexEscape(l, c, 'n', rest, offset);
    } else if c == '\r' {
      l' := LexEscape(l, c, 'r', rest, offset);
    } else if c == '\t' {
      l' := LexEscape(l, c, 't', rest, offset);
    } else {
      l' := LexControl(l, c, rest, offset);
      assert EncodeChar(c) == ['\\', 'u', HexDigit(0), HexDigit(0), HexDigit(c as int / 16), HexDigit(c as int % 16)];
    }
  }

  // Reading an encoded string gives the string back, whatever its bytes are.
  lemma {:induction false} LexEncoded(l: Lexer, s: string, rest: string, offset: nat) returns (l': Lexer)
    requires InString(l, l.token)
    ensures InString(l', l.token + s) && Lex(l, Encode(s) + rest, offset) == Lex(l', rest, offset + |Encode(s)|)
    decreases |s|
  {
    hide Lex, EncodeChar;
    if s == "" {
      assert Encode(s) + rest == rest && l.token + s == l.token;
      return l;
    }
    var s', c := s[..|s| - 1], s[|s| - 1];
    var m := LexEncoded(l, s', EncodeChar(c) + rest, offset);
    l' := LexEncodedChar(m, c, rest, offset + |Encode(s')|);
    assert Encode(s) + rest == Encode(s') + (EncodeChar(c) + rest);
    assert l.token + s' + [c] == l.token + s;
  }

  lemma LexQuoted(s: string, rest: string, offset: nat)
    ensures var text := "\"" + Encode(s) + "\"";
            Lex(FRESH, text + rest, offset) == Ok(Lexed(LsAfterString, s, rest, offset + |text|, false))
  {
    hide Lex, Encode, LexChar;
    var close := "\"" + rest;
    assert ("\"" + Encode(s) + "\"") + rest == ['\"'] + (Encode(s) + close);
    Quotes(FRESH, offset);
    LexUsed(FRESH, '\"', Encode(s) + close, offset);
    var l := FRESH.IgnoreTo(LsString);
    var l' := LexEncoded(l, s, close, offset + 1);
    assert "" + s == s;
    Quotes(l', offset + 1 + |Encode(s)|);
    LexReturned(l', '\"', rest, offset + 1 + |Encode(s)|);
  }

  lemma Quotes(l: Lexer, offset: nat)
    ensures l.state == LsTop ==> LexChar(l, '\"', offset) == Used(l.IgnoreTo(LsString))
    ensures InString(l, l.token) ==> LexChar(l, '\"', offset) == Returned(l.IgnoreTo(LsAfterString))
  {
  }

  // What may come after a value.
  predicate Ends(rest: string) {
    rest == "" || Ending(rest[0])
  }

  predicate Ending(c: char) {
    c in ",:{}[] \t\n\r"
  }

  predicate Accepts(s: LexState) {
    s == LsNumberLeadingZero || s == LsNumberBeforePoint || s == LsNumberAfterPoint || s == LsNumber
  }

  lemma LexStops(l: Lexer, rest: string, offset: nat)
    requires Ends(rest) && l.token != "" && (Accepts(l.state) || l.state == LsAlpha)
    ensures Lex(l, rest, offset) ==
            Ok(Lexed(if l.state == LsAlpha then LsAlpha else LsNumber, l.token, rest, offset, rest == ""))
  {
    hide Lex, LexChar, Ending;
    if rest == "" {
      LexEnd(l, offset);
    } else {
      LexNext(l, rest, offset);
      EndingStops(l, rest[0], offset);
    }
  }

  lemma EndingStops(l: Lexer, c: char, offset: nat)
    requires Ending(c) && (Accepts(l.state) || l.state == LsAlpha)
    ensures LexChar(l, c, offset) == Stopped
  {
    hide LexNumber, LexU4, LexString, LexTop, LexBackslash;
  }

  predicate Letters(w: string) {
    forall i :: 0 <= i < |w| ==> 'a' <= w[i] <= 'z'
  }

  lemma {:induction false} LexLetters(l: Lexer, w: string, rest: string, offset: nat)
    requires l.state == LsAlpha && Letters(w)
    ensures Lex(l, w + rest, offset) == Lex(l.(token := l.token + w), rest, offset + |w|)
    decreases |w|
  {
    hide Lex;
    if w == "" {
      assert w + rest == rest && l.token + w == l.token;
    } else {
      assert w + rest == [w[0]] + (w[1..] + rest);
      LexUsed(l, w[0], w[1..] + rest, offset);
      LexLetters(l.Append(w[0]), w[1..], rest, offset + 1);
      assert l.token + [w[0]] + w[1..] == l.token + w;
    }
  }

  lemma LexWord(w: string, rest: string, offset: nat)
    requires w != "" && Letters(w) && Ends(rest)
    ensures Lex(FRESH, w + rest, offset) == Ok(Lexed(LsAlpha, w, rest, offset + |w|, rest == ""))
  {
    hide Lex;
    assert w + rest == [w[0]] + (w[1..] + rest);
    LexUsed(FRESH, w[0], w[1..] + rest, offset);
    LexLetters(FRESH.AppendTo(w[0], LsAlpha), w[1..], rest, offset + 1);
    assert "" + [w[0]] + w[1..] == w;
    LexStops(FRESH.(state := LsAlpha, token := w), rest, offset + |w|);
  }

  lemma {:induction false} LexDigits(l: Lexer, ds: string, rest: string, offset: nat)
    requires l.state == LsNumberBeforePoint || l.state == LsNumberAfterPoint || l.state == LsNumber
    requires forall i :: 0 <= i < |ds| ==> Digit(ds[i])
    ensures Lex(l, ds + rest, offset) == Lex(l.(token := l.token + ds), rest, offset + |ds|)
    decreases |ds|
  {
    hide Lex;
    if ds == "" {
      assert ds + rest == rest && l.token + ds == l.token;
    } else {
      assert ds + rest == [ds[0]] + (ds[1..] + rest);
      assert LexChar(l, ds[0], offset) == Used(l.Append(ds[0]));
      LexUsed(l, ds[0], ds[1..] + rest, offset);
      LexDigits(l.Append(ds[0]), ds[1..], rest, offset + 1);
      assert l.token + [ds[0]] + ds[1..] == l.token + ds;
    }
  }

  // One character to a state in which digits may go on.
  lemma LexDigitsFrom(l: Lexer, ds: string, next: LexState, rest: string, offset: nat)
    requires Digits(ds) && LexChar(l, ds[0], offset) == Used(l.AppendTo(ds[0], next))
    requires next == LsNumberBeforePoint || next == LsNumberAfterPoint || next == LsNumber
    ensures Lex(l, ds + rest, offset) == Lex(l.(token := l.token + ds, state := next), rest, offset + |ds|)
  {
    assert ds + rest == [ds[0]] + (ds[1..] + rest);
    LexUsed(l, ds[0], ds[1..] + rest, offset);
    hide LexChar, Lex;
    LexDigits(l.AppendTo(ds[0], next), ds[1..], rest, offset + 1);
    assert l.token + [ds[0]] + ds[1..] == l.token + ds;
  }

  lemma LexInt(l: Lexer, i: string, rest: string, offset: nat) returns (l': Lexer)
    requires (l.state == LsTop || l.state == LsNumberMinus) && IntPart(i)
    ensures l'.state == LsNumberLeadingZero || l'.state == LsNumberBeforePoint
    ensures l'.token == l.token + i && Lex(l, i + rest, offset) == Lex(l', rest, offset + |i|)
  {
    if i == "0" {
      LexUsed(l, '0', rest, offset);
      l' := l.AppendTo('0', LsNumberLeadingZero);
    } else {
      LexDigitsFrom(l, i, LsNumberBeforePoint, rest, offset);
      l' := l.(token := l.token + i, state := LsNumberBeforePoint);
    }
  }

  lemma LexFrac(l: Lexer, f: string, rest: string, offset: nat) returns (l': Lexer)
    requires (l.state == LsNumberLeadingZero || l.state == LsNumberBeforePoint) && FracPart(f)
    ensures l'.state == LsNumberLeadingZero || l'.state == LsNumberBeforePoint || l'.state == LsNumberAfterPoint
    ensures l'.token == l.token + f && Lex(l, f + rest, offset) == Lex(l', rest, offset + |f|)
  {
    hide Lex;
    if f == "" {
      assert f + rest == rest && l.token + f == l.token;
      return l;
    }
    var ds := f[1..];
    assert f + rest == ['.'] + (ds + rest);
    LexUsed(l, '.', ds + rest, offset);
    LexDigitsFrom(l.AppendTo('.', LsNumberPoint), ds, LsNumberAfterPoint, rest, offset + 1);
    assert l.token + ['.'] + ds == l.token + f;
    l' := l.(token := l.token + f, state := LsNumberAfterPoint);
  }

  lemma LexExp(l: Lexer, e: string, rest: string, offset: nat) returns (l': Lexer)
    requires l.state == LsNumberLeadingZero || l.state == LsNumberBeforePoint || l.state == LsNumberAfterPoint
    requires ExpPart(e)
    ensures Accepts(l'.state) && l'.token == l.token + e && Lex(l, e + rest, offset) == Lex(l', rest, offset + |e|)
  {
    hide Lex;
    if e == "" {
      assert e + rest == rest && l.token + e == l.token;
      return l;
    }
    var m := l.AppendTo(e[0], LsNumberE);
    assert e + rest == [e[0]] + (e[1..] + rest);
    assert LexChar(l, e[0], offset) == Used(m);
    LexUsed(l, e[0], e[1..] + rest, offset);
    l' := l.(token := l.token + e, state := LsNumber);
    if e[1] == '+' || e[1] == '-' {
      LexSigned(m, e[1..], rest, offset + 1);
    } else {
      LexDigitsFrom(m, e[1..], LsNumber, rest, offset + 1);
    }
    assert l.token + [e[0]] + e[1..] == l.token + e;
  }

  lemma LexSigned(l: Lexer, e: string, rest: string, offset: nat)
    requires l.state == LsNumberE && e != "" && (e[0] == '+' || e[0] == '-') && Digits(e[1..])
    ensures Lex(l, e + rest, offset) == Lex(l.(token := l.token + e, state := LsNumber), rest, offset + |e|)
  {
    hide Lex;
    var m := l.AppendTo(e[0], LsNumberESign);
    assert e + rest == [e[0]] + (e[1..] + rest);
    LexUsed(l, e[0], e[1..] + rest, offset);
    LexDigitsFrom(m, e[1..], LsNumber, rest, offset + 1);
    assert l.token + [e[0]] + e[1..] == l.token + e;
  }

  lemma LexUnsigned(l: Lexer, i: string, f: string, e: string, rest: string, offset: nat)
    requires (l.state == LsTop || l.state == LsNumberMinus) && IntPart(i) && FracPart(f) && ExpPart(e) && Ends(rest)
    ensures Lex(l, i + f + e + rest, offset) ==
            Ok(Lexed(LsNumber, l.token + (i + f + e), rest, offset + |i + f + e|, rest == ""))
  {
    hide Lex, IntPart, FracPart, ExpPart;
    assert i + f + e + rest == i + (f + (e + rest));
    var l1 := LexInt(l, i, f + (e + rest), offset);
    var l2 := LexFrac(l1, f, e + rest, offset + |i|);
    var l3 := LexExp(l2, e, rest, offset + |i| + |f|);
    assert l3.token == l.token + (i + f + e);
    assert i != "" by { NotEmpty(i); }
    LexStops(l3, rest, offset + |i| + |f| + |e|);
  }

  lemma NotEmpty(i: string)
    requires IntPart(i)
    ensures i != ""
  {
  }

  lemma LexNegative(u: string, rest: string, offset: nat)
    requires Lex(FRESH.AppendTo('-', LsNumberMinus), u + rest, offset + 1) ==
             Ok(Lexed(LsNumber, "" + ['-'] + u, rest, offset + 1 + |u|, rest == ""))
    ensures Lex(FRESH, "-" + u + rest, offset) == Ok(Lexed(LsNumber, "-" + u, rest, offset + 1 + |u|, rest == ""))
  {
    assert "-" + u + rest == ['-'] + (u + rest);
    assert LexChar(FRESH, '-', offset) == Used(FRESH.AppendTo('-', LsNumberMinus));
    hide LexChar;
    LexUsed(FRESH, '-', u + rest, offset);
    assert "" + ['-'] + u == "-" + u;
  }

  // Every number of the grammar is one token.
  lemma LexNumberText(s: string, rest: string, offset: nat)
    requires IsNumber(s) && Ends(rest)
    ensures Lex(FRESH, s + rest, offset) == Ok(Lexed(LsNumber, s, rest, offset + |s|, rest == ""))
  {
    hide IntPart, FracPart, ExpPart, Lex, LexChar, IsNumber, Ends, Digits;
    var i, f, e := PartsOf(s);
    hide NumberParts;
    var u := i + f + e;
    if s == u {
      LexUnsigned(FRESH, i, f, e, rest, offset);
      assert "" + u == s;
    } else {
      LexUnsigned(FRESH.AppendTo('-', LsNumberMinus), i, f, e, rest, offset + 1);
      LexNegative(u, rest, offset);
    }
  }

  lemma PartsOf(s: string) returns (i: string, f: string, e: string)
    requires IsNumber(s)
    ensures IntPart(i) && FracPart(f) && ExpPart(e) && (s == i + f + e || s == "-" + (i + f + e))
  {
    i, f, e :| NumberParts(s, i, f, e);
  }

  lemma {:induction false} LexSpaces(n: nat, rest: string, offset: nat)
    ensures Lex(FRESH, Spaces(n) + rest, offset) == Lex(FRESH, rest, offset + n)
  {
    hide Lex;
    if n == 0 {
      assert Spaces(0) + rest == rest;
    } else {
      assert Spaces(n) + rest == [' '] + (Spaces(n - 1) + rest);
      LexUsed(FRESH, ' ', Spaces(n - 1) + rest, offset);
      LexSpaces(n - 1, rest, offset + 1);
    }
  }

  lemma LexIndent(depth: nat, rest: string, offset: nat)
    ensures Lex(FRESH, Indent(depth) + rest, offset) == Lex(FRESH, rest, offset + |Indent(depth)|)
  {
    hide Lex;
    assert Indent(depth) + rest == ['\n'] + (Spaces(2 * depth) + rest);
    LexUsed(FRESH, '\n', Spaces(2 * depth) + rest, offset);
    LexSpaces(2 * depth, rest, offset + 1);
  }

  // ---------------------------------------------------------------- runs of the parser

  function Then(r: Result<Parser, Error>, rest: string, offset: nat): Result<Parser, Error> {
    if r.Err? then r else Run(r.value, rest, offset)
  }

  lemma RunToken(p: Parser, text: string, kind: LexState, token: string, rest: string, offset: nat)
    requires Lex(FRESH, text + rest, offset) == Ok(Lexed(kind, token, rest, offset + |text|, rest == ""))
          || Lex(FRESH, text + rest, offset) == Ok(Lexed(kind, token, rest, offset + |text|, false))
    ensures Run(p, text + rest, offset) == Then(Handle(p, kind, token), rest, offset + |text|)
  {
    if rest == "" {
      assert Lex(FRESH, "", offset + |text|) == Ok(Lexed(LsTop, "", "", offset + |text|, true));
    }
  }

  lemma RunSame(p: Parser, a: string, b: string, i: nat, j: nat)
    requires Lex(FRESH, a, i) == Lex(FRESH, b, j)
    ensures Run(p, a, i) == Run(p, b, j)
  {
  }

  predicate Delimiter(c: char, kind: LexState) {
    (c, kind) in {(',', LsComma), (':', LsColon), ('{', LsBeginDict), ('}', LsEndDict),
        ('[', LsBeginArray), (']', LsEndArray)}
  }

  lemma RunDelimiter(p: Parser, c: char, kind: LexState, rest: string, offset: nat)
    requires Delimiter(c, kind)
    ensures Run(p, [c] + rest, offset) == Then(Handle(p, kind, ""), rest, offset + 1)
  {
    assert LexChar(FRESH, c, offset) == Returned(FRESH.IgnoreTo(kind));
    LexReturned(FRESH, c, rest, offset);
    hide Lex, LexChar, Handle;
    RunToken(p, [c], kind, "", rest, offset);
  }

  lemma RunIndent(p: Parser, depth: nat, rest: string, offset: nat)
    ensures Run(p, Indent(depth) + rest, offset) == Run(p, rest, offset + |Indent(depth)|)
  {
    LexIndent(depth, rest, offset);
    RunSame(p, Indent(depth) + rest, rest, offset, offset + |Indent(depth)|);
  }

  lemma RunQuoted(p: Parser, s: string, rest: string, offset: nat)
    ensures var text := "\"" + Encode(s) + "\"";
            Run(p, text + rest, offset) == Then(Handle(p, LsAfterString, s), rest, offset + |text|)
  {
    hide Run, Lex, Encode, Handle;
    LexQuoted(s, rest, offset);
    RunToken(p, "\"" + Encode(s) + "\"", LsAfterString, s, rest, offset);
  }

  // ---------------------------------------------------------------- values

  // Where a value may stand.
  predicate Expects(p: Parser) {
    && AfterItem(p.state).Some? && |p.stack| <= MAX_DEPTH
    && (p.state == PsTop <==> p.stack == [])
  }

  // The stack once the value is there.
  function Filled(p: Parser, j: Json): seq<Frame>
    requires Expects(p)
  {
    if p.state == PsTop then [Frame(PsDone, j, if Container(j) then p.dictKey else "")]
    else AddToTop(p.stack, p.dictKey, j)
  }

  function Read(p: Parser, j: Json, k: string): Parser
    requires Expects(p)
  {
    Parser(AfterItem(p.state).value, Filled(p, j), k)
  }

  function KindOf(j: Json): LexState {
    match j
    case Number(_) => LsNumber
    case Str(_) => LsAfterString
    case _ => LsAlpha
  }

  function TokenOf(j: Json): string {
    match j
    case Null => "null"
    case Bool(b) => if b then "true" else "false"
    case Number(text) => text
    case Str(s) => s
    case _ => ""
  }

  lemma LexScalar(j: Json, depth: nat, rest: string, offset: nat)
    requires Valid(j) && !Container(j) && Ends(rest)
    ensures var text := Text(j, depth); var lexed := Lexed(KindOf(j), TokenOf(j), rest, offset + |text|, rest == "");
            Lex(FRESH, text + rest, offset) == Ok(if j.Str? then lexed.(done := false) else lexed)
  {
    hide Lex, Encode, IsNumber;
    match j
    case Null => LexWord("null", rest, offset);
    case Bool(b) => LexWord(if b then "true" else "false", rest, offset);
    case Number(text) => LexNumberText(text, rest, offset);
    case Str(s) => LexQuoted(s, rest, offset);
  }

  lemma PlaceScalar(p: Parser, j: Json)
    requires Expects(p) && !Container(j)
    ensures Handle(p, KindOf(j), TokenOf(j)) == Ok(Read(p, j, p.dictKey))
  {
    assert p.stack == [] ==> p.stack + [Frame(PsDone, j, "")] == [Frame(PsDone, j, "")];
    hide AddToTop;
  }

  lemma ReadsScalar(p: Parser, j: Json, depth: nat, rest: string, offset: nat)
    requires Expects(p) && Valid(j) && !Container(j) && Ends(rest)
    ensures Run(p, Text(j, depth) + rest, offset) == Run(Read(p, j, p.dictKey), rest, offset + |Text(j, depth)|)
  {
    hide Run, Lex, Handle, Read, Text, KindOf, TokenOf, Ends, Valid, Expects, Filled, AfterItem, Container;
    var text, kind, token := Text(j, depth), KindOf(j), TokenOf(j);
    LexScalar(j, depth, rest, offset);
    PlaceScalar(p, j);
    RunToken(p, text, kind, token, rest, offset);
  }

  // The first n items of a container.
  function Part(j: Json, n: nat): Json
    requires n <= Size(j)
  {
    match j
    case Array(items) => Array(items[..n])
    case Dict(ms) => Dict(ms[..n])
    case _ => j
  }

  // Within a container, after n of its items.
  function Within(base: seq<Frame>, back: ParserState, key: string, j: Json, n: nat, k: string): Parser
    requires n <= Size(j)
  {
    Parser(if j.Dict? then if n == 0 then PsDictBegin else PsDictAfterItem
           else if n == 0 then PsArrayBegin else PsArrayAfterItem,
           base + [Frame(back, Part(j, n), key)], k)
  }

  // At the place of the next item, once its key has been read.
  function AtItem(base: seq<Frame>, back: ParserState, key: string, j: Json, n: nat, k: string): Parser
    requires n <= Size(j)
  {
    Parser(if j.Dict? then PsDictAfterColon else if n == 0 then PsArrayBegin else PsArrayAfterComma,
           base + [Frame(back, Part(j, n), key)], k)
  }

  lemma RunKey(p: Parser, s: string, rest: string, offset: nat)
    requires p.state == PsDictBegin || p.state == PsDictAfterComma
    ensures Run(p, "\"" + Encode(s) + "\": " + rest, offset) ==
            Run(p.(state := PsDictAfterColon, dictKey := s), rest, offset + |Encode(s)| + 4)
  {
    hide Run, Lex, Encode;
    var q := "\"" + Encode(s) + "\"";
    assert "\"" + Encode(s) + "\": " + rest == q + ([':'] + ([' '] + rest));
    RunQuoted(p, s, [':'] + ([' '] + rest), offset);
    var p1 := p.(dictKey := s, state := PsDictAfterKey);
    RunDelimiter(p1, ':', LsColon, [' '] + rest, offset + |q|);
    var p2 := p1.(state := PsDictAfterColon);
    RunSpace(p2, rest, offset + |q| + 1);
  }

  lemma RunSpace(p: Parser, rest: string, offset: nat)
    ensures Run(p, [' '] + rest, offset) == Run(p, rest, offset + 1)
  {
    assert LexChar(FRESH, ' ', offset) == Used(FRESH);
    LexUsed(FRESH, ' ', rest, offset);
    hide Lex, LexChar;
    RunSame(p, [' '] + rest, rest, offset, offset + 1);
  }

  // What comes before an item: the comma, the line break and the key.
  lemma ReadsLead(base: seq<Frame>, back: ParserState, key: string, j: Json, n: nat, k: string, depth: nat,
                  rest: string, offset: nat) returns (k': string)
    requires n < Size(j) && Valid(j)
    ensures j.Dict? ==> j.members[n].key == Encode(k')
    ensures Run(Within(base, back, key, j, n, k), Lead(j, n, depth) + rest, offset) ==
            Run(AtItem(base, back, key, j, n, k'), rest, offset + |Lead(j, n, depth)|)
  {
    hide Run, Encode, Indent, Part, Lex;
    var p := Within(base, back, key, j, n, k);
    var tail := if j.Dict? then "\"" + j.members[n].key + "\": " else "";
    var off := offset;
    if n > 0 {
      assert Lead(j, n, depth) + rest == [','] + (Indent(depth) + (tail + rest));
      RunDelimiter(p, ',', LsComma, Indent(depth) + (tail + rest), offset);
      p := p.(state := if j.Dict? then PsDictAfterComma else PsArrayAfterComma);
      off := off + 1;
    } else {
      assert Lead(j, n, depth) + rest == Indent(depth) + (tail + rest);
    }
    RunIndent(p, depth, tail + rest, off);
    off := off + |Indent(depth)|;
    k' := k;
    if j.Dict? {
      k' :| j.members[n].key == Encode(k');
      RunKey(p, k', rest, off);
    } else {
      assert tail + rest == rest;
    }
  }

  // An item added is one item more.
  lemma PartGrows(base: seq<Frame>, back: ParserState, key: string, j: Json, n: nat, k': string, k: string)
    requires n < Size(j) && Valid(j) && |base| + 1 <= MAX_DEPTH && (j.Dict? ==> j.members[n].key == Encode(k'))
    ensures Expects(AtItem(base, back, key, j, n, k'))
    ensures Read(AtItem(base, back, key, j, n, k'), Child(j, n), k) == Within(base, back, key, j, n + 1, k)
  {
    hide Encode, IsNumber;
    var f := Frame(back, Part(j, n), key);
    assert (base + [f])[|base|] == f;
    match j
    case Array(items) =>
      assert items[..n] + [items[n]] == items[..n + 1];
    case Dict(ms) =>
      PutLast(ms[..n], ms[n]);
      assert Member(Encode(k'), ms[n].value) == ms[n];
      assert ms[..n] + [ms[n]] == ms[..n + 1];
  }

  function OpenOf(j: Json): char
    requires Container(j)
  {
    if j.Dict? then '{' else '['
  }

  function CloseOf(j: Json): char
    requires Container(j)
  {
    if j.Dict? then '}' else ']'
  }

  lemma ContainerText(j: Json, depth: nat, rest: string)
    requires Container(j)
    ensures Text(j, depth) + rest ==
            [OpenOf(j)] + (TextOf(j, Size(j), depth + 1) + (Closing(j, depth) + ([CloseOf(j)] + rest)))
    ensures |Text(j, depth)| == 2 + |TextOf(j, Size(j), depth + 1)| + |Closing(j, depth)|
  {
    hide TextOf, Closing;
  }

  lemma RunOpen(p: Parser, j: Json, rest: string, offset: nat)
    requires Expects(p) && Container(j)
    ensures Run(p, [OpenOf(j)] + rest, offset) ==
            if |p.stack| + 1 > MAX_DEPTH then Err(Malformed)
            else Run(Within(p.stack, AfterItem(p.state).value, p.dictKey, j, 0, p.dictKey), rest, offset + 1)
  {
    hide Run, Lex;
    RunDelimiter(p, OpenOf(j), if j.Dict? then LsBeginDict else LsBeginArray, rest, offset);
    assert Part(j, 0) == if j.Dict? then Dict([]) else Array([]);
  }

  lemma RunClose(p: Parser, j: Json, k: string, rest: string, offset: nat)
    requires Expects(p) && Container(j) && |p.stack| + 1 <= MAX_DEPTH
    ensures Run(Within(p.stack, AfterItem(p.state).value, p.dictKey, j, Size(j), k), [CloseOf(j)] + rest, offset) ==
            Run(Read(p, j, k), rest, offset + 1)
  {
    var q := Within(p.stack, AfterItem(p.state).value, p.dictKey, j, Size(j), k);
    var f := Frame(AfterItem(p.state).value, j, p.dictKey);
    assert Part(j, Size(j)) == j;
    assert q.stack == p.stack + [f] && q.stack[|q.stack| - 1] == f && q.stack[..|q.stack| - 1] == p.stack;
    assert Close(q) == Ok(Read(p, j, k)) by {
      assert p.stack == [] ==> p.stack + [f] == [f];
      hide AddToTop;
    }
    hide Run, Lex, Within, Read, Close;
    RunDelimiter(q, CloseOf(j), if j.Dict? then LsEndDict else LsEndArray, rest, offset);
    CanClose(p, j, k);
  }

  lemma CanClose(p: Parser, j: Json, k: string)
    requires Expects(p) && Container(j)
    ensures var q := Within(p.stack, AfterItem(p.state).value, p.dictKey, j, Size(j), k);
            Handle(q, if j.Dict? then LsEndDict else LsEndArray, "") == Close(q)
  {
    hide Close;
  }

  lemma RunClosing(p: Parser, j: Json, depth: nat, rest: string, offset: nat)
    ensures Run(p, Closing(j, depth) + rest, offset) == Run(p, rest, offset + |Closing(j, depth)|)
  {
    hide Run;
    if Size(j) == 0 {
      assert Closing(j, depth) + rest == rest;
    } else {
      RunIndent(p, depth, rest, offset);
    }
  }

  // A value is read back, or is nested too deep.
  lemma {:induction false} Reads(p: Parser, j: Json, depth: nat, rest: string, offset: nat) returns (k: string)
    requires Expects(p) && Valid(j) && Ends(rest)
    ensures Run(p, Text(j, depth) + rest, offset) ==
            if |p.stack| + Depth(j) > MAX_DEPTH then Err(Malformed)
            else Run(Read(p, j, k), rest, offset + |Text(j, depth)|)
    decreases j, 2, 0
  {
    if Container(j) {
      k := ReadsNested(p, j, depth, rest, offset);
    } else {
      k := p.dictKey;
      assert Depth(j) == 0;
      ReadsScalar(p, j, depth, rest, offset);
    }
  }

  lemma {:induction false} ReadsNested(p: Parser, j: Json, depth: nat, rest: string, offset: nat) returns (k: string)
    requires Expects(p) && Valid(j) && Container(j)
    ensures Run(p, Text(j, depth) + rest, offset) ==
            if |p.stack| + Depth(j) > MAX_DEPTH then Err(Malformed)
            else Run(Read(p, j, k), rest, offset + |Text(j, depth)|)
    decreases j, 1, 0
  {
    hide Run, Lex, Text, TextOf, Within, Read, Valid, DepthOf, Filled, AfterItem, Closing, CloseOf, Ends;
    assert Depth(j) == 1 + DepthOf(j, Size(j));
    hide Depth;
    k := p.dictKey;
    if |p.stack| + 1 <= MAX_DEPTH {
      k := ReadsBody(p, j, depth, rest, offset);
    }
    hide Container, Expects;
    ReadsContainer(p, j, depth, rest, offset, k);
  }

  lemma {:induction false} ReadsBody(p: Parser, j: Json, depth: nat, rest: string, offset: nat) returns (k: string)
    requires Expects(p) && Valid(j) && Container(j) && |p.stack| + 1 <= MAX_DEPTH
    ensures var back, n := AfterItem(p.state).value, Size(j);
            var body, last := TextOf(j, n, depth + 1), Closing(j, depth) + ([CloseOf(j)] + rest);
            Run(Within(p.stack, back, p.dictKey, j, 0, p.dictKey), body + last, offset + 1) ==
            if |p.stack| + 1 + DepthOf(j, n) > MAX_DEPTH then Err(Malformed)
            else Run(Within(p.stack, back, p.dictKey, j, n, k), last, offset + 1 + |body|)
    decreases j, 0, Size(j) + 1
  {
    hide Run, Lex, Text, TextOf, Within, Read, Valid, Depth, DepthOf, Filled, AfterItem, Closing, CloseOf, Ends;
    var last := Closing(j, depth) + ([CloseOf(j)] + rest);
    if Size(j) > 0 {
      EndsLast(j, depth, rest);
    }
    k := ReadsItems(p.stack, AfterItem(p.state).value, p.dictKey, j, Size(j), depth + 1, last, offset + 1, p.dictKey);
  }

  // The brackets around the items.
  lemma ReadsContainer(p: Parser, j: Json, depth: nat, rest: string, offset: nat, k: string)
    requires Expects(p) && Container(j) && Depth(j) == 1 + DepthOf(j, Size(j))
    requires |p.stack| + 1 <= MAX_DEPTH ==>
               var back, n := AfterItem(p.state).value, Size(j);
               var body, last := TextOf(j, n, depth + 1), Closing(j, depth) + ([CloseOf(j)] + rest);
               Run(Within(p.stack, back, p.dictKey, j, 0, p.dictKey), body + last, offset + 1) ==
               if |p.stack| + 1 + DepthOf(j, n) > MAX_DEPTH then Err(Malformed)
               else Run(Within(p.stack, back, p.dictKey, j, n, k), last, offset + 1 + |body|)
    ensures Run(p, Text(j, depth) + rest, offset) ==
            if |p.stack| + Depth(j) > MAX_DEPTH then Err(Malformed)
            else Run(Read(p, j, k), rest, offset + |Text(j, depth)|)
  {
    hide Run, Lex, Text, TextOf, Within, Read, Valid, Depth, DepthOf, Filled, Closing, OpenOf, CloseOf;
    var body, last := TextOf(j, Size(j), depth + 1), Closing(j, depth) + ([CloseOf(j)] + rest);
    ContainerText(j, depth, rest);
    RunOpen(p, j, body + last, offset);
    if |p.stack| + Depth(j) <= MAX_DEPTH {
      var q := Within(p.stack, AfterItem(p.state).value, p.dictKey, j, Size(j), k);
      var off := offset + 1 + |body|;
      RunClosing(q, j, depth, [CloseOf(j)] + rest, off);
      RunClose(p, j, k, rest, off + |Closing(j, depth)|);
    }
  }

  lemma EndsLast(j: Json, depth: nat, rest: string)
    requires Container(j) && Size(j) > 0
    ensures Ends(Closing(j, depth) + ([CloseOf(j)] + rest))
  {
  }

  lemma EndsItem(j: Json, i: nat, depth: nat, rest: string)
    requires i < Size(j)
    ensures Ends(ItemText(j, i, depth) + rest)
  {
  }

  lemma {:induction false} ReadsItems(base: seq<Frame>, back: ParserState, key: string, j: Json, n: nat, depth: nat,
                                      rest: string, offset: nat, k: string) returns (k': string)
    requires n <= Size(j) && Valid(j) && |base| + 1 <= MAX_DEPTH && (Ends(rest) || n == 0)
    ensures Run(Within(base, back, key, j, 0, k), TextOf(j, n, depth) + rest, offset) ==
            if |base| + 1 + DepthOf(j, n) > MAX_DEPTH then Err(Malformed)
            else Run(Within(base, back, key, j, n, k'), rest, offset + |TextOf(j, n, depth)|)
    decreases j, 0, n
  {
    hide Run, Lex, Text, Within, Read, AtItem, Lead, Indent, Valid, Ends;
    if n == 0 {
      assert TextOf(j, 0, depth) + rest == rest;
      return k;
    }
    var i := n - 1;
    assert DepthOf(j, n) == Max(DepthOf(j, i), Depth(Child(j, i)));
    hide Depth, DepthOf, Filled, Expects;
    var lead, text := Lead(j, i, depth), Text(Child(j, i), depth);
    assert TextOf(j, n, depth) + rest == TextOf(j, i, depth) + (lead + (text + rest));
    EndsItem(j, i, depth, rest);
    assert ItemText(j, i, depth) + rest == lead + (text + rest);
    var k1 := ReadsItems(base, back, key, j, i, depth, lead + (text + rest), offset, k);
    if |base| + 1 + DepthOf(j, i) > MAX_DEPTH {
      return k1;
    }
    var off := offset + |TextOf(j, i, depth)|;
    var k2 := ReadsLead(base, back, key, j, i, k1, depth, text + rest, off);
    PartGrows(base, back, key, j, i, k2, k1);
    ChildValid(j, i);
    var p := AtItem(base, back, key, j, i, k2);
    AtItemDepth(base, back, key, j, i, k2);
    hide TextOf, ItemText;
    k' := Reads(p, Child(j, i), depth, rest, off + |lead|);
    PartGrows(base, back, key, j, i, k2, k');
  }

  lemma AtItemDepth(base: seq<Frame>, back: ParserState, key: string, j: Json, n: nat, k: string)
    requires n <= Size(j)
    ensures |AtItem(base, back, key, j, n, k).stack| == |base| + 1
  {
  }

  lemma ChildValid(j: Json, i: nat)
    requires Valid(j) && i < Size(j)
    ensures Valid(Child(j, i))
  {
  }

  // Parsing what was written gives the value back, exactly if its containers are nested at most 500
  // deep.
  lemma RoundTrip(j: Json)
    requires Valid(j)
    ensures ParseText(Text(j, 0)) == if Depth(j) <= MAX_DEPTH then Ok(j) else Err(Malformed)
  {
    hide Run, Lex, Text, Depth, Valid;
    var k := Reads(START, j, 0, "", 0);
    assert Text(j, 0) + "" == Text(j, 0);
    if Depth(j) <= MAX_DEPTH {
      RunNothing(Read(START, j, k), |Text(j, 0)|);
    }
  }

  lemma RunNothing(p: Parser, offset: nat)
    ensures Run(p, "", offset) == Ok(p)
  {
    assert Lex(FRESH, "", offset) == Ok(Lexed(LsTop, "", "", offset, true));
  }

  // The same of the two programs.
  method WriteAndParse(j: Json) returns (r: Result<Json, Error>)
    requires Valid(j)
    ensures r == if Depth(j) <= MAX_DEPTH then Ok(j) else Err(Malformed)
  {
    var text := Unparse(j);
    var parser := new JSONParser(text);
    r := parser.Parse();
    RoundTrip(j);
  }
}
