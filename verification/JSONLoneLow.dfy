/**
 * Escaped low surrogates with no high one before them, in any text that libqpdf/JSON.cc may be given: in
 * a key or a value, nested anywhere, behind characters that are spelled in any way.
 */
module JSONLoneLow {
  import opened Wrappers
  import opened JSONModel
  import opened JSONLexer
  import opened JSONOffsets
  import opened JSONParser
  import opened JSONRoundTrip
  import opened JSONSurrogates

  // ---------------------------------------------------------------- in the middle of a token

  // The lexer after some text, over as many tokens as there are, or none if one of them is wrong.
  function After(l: Lexer, s: string, offset: nat): Option<Lexer>
    decreases |s|, if l.state == LsTop then 0 else 1
  {
    if s == "" then Some(l)
    else
      match LexChar(l, s[0], offset)
      case Used(l') => After(l', s[1..], offset + 1)
      case Returned(_) => After(FRESH, s[1..], offset + 1)
      case Stopped => if l.state == LsTop then None else After(FRESH, s, offset)
      case Failed => None
  }

  // The parser with a token begun.
  function RunFrom(p: Parser, l: Lexer, input: string, offset: nat): Result<Parser, Error> {
    var t := Lex(l, input, offset);
    if t.Err? then Err(t.error)
    else
      var h := Handle(p, t.value.kind, t.value.token);
      if h.Err? || t.value.done then h else Run(h.value, t.value.rest, t.value.offset)
  }

  lemma RunFromFresh(p: Parser, input: string, offset: nat)
    ensures RunFrom(p, FRESH, input, offset) == Run(p, input, offset)
  {
    hide Lex, Handle;
  }

  // One character.
  lemma FromNext(p: Parser, l: Lexer, input: string, offset: nat)
    requires input != ""
    ensures RunFrom(p, l, input, offset) ==
            match LexChar(l, input[0], offset)
            case Used(l') => RunFrom(p, l', input[1..], offset + 1)
            case Returned(l') => Then(Handle(p, l'.state, l'.token), input[1..], offset + 1)
            case Stopped =>
              if AtEnd(l).Err? then Err(AtEnd(l).error)
              else Then(Handle(p, AtEnd(l).value, l.token), input, offset)
            case Failed => Err(Malformed)
  {
    hide Lex, Handle, LexChar, AtEnd;
    LexNext(l, input, offset);
  }

  // What a text does does not depend on what comes after it.
  lemma {:induction false} Through(p: Parser, l: Lexer, s: string, a: string, b: string, offset: nat)
    returns (q: Option<Parser>)
    requires After(l, s, offset).Some? && a != "" && b != ""
    ensures var l', o := After(l, s, offset).value, offset + |s|;
            match q
            case None => RunFrom(p, l, s + a, offset).Err? && RunFrom(p, l, s + b, offset).Err?
            case Some(p') =>
              && RunFrom(p, l, s + a, offset) == RunFrom(p', l', a, o)
              && RunFrom(p, l, s + b, offset) == RunFrom(p', l', b, o)
    decreases |s|, if l.state == LsTop then 0 else 1, 0
  {
    hide LexChar, AtEnd, Handle, Run, RunFrom;
    if s == "" {
      assert s + a == a && s + b == b;
      return Some(p);
    }
    FromNext(p, l, s + a, offset);
    FromNext(p, l, s + b, offset);
    assert (s + a)[0] == s[0] == (s + b)[0] && (s + a)[1..] == s[1..] + a && (s + b)[1..] == s[1..] + b;
    match LexChar(l, s[0], offset)
    case Used(l') =>
      q := Through(p, l', s[1..], a, b, offset + 1);
    case Returned(l') =>
      q := OnWith(Handle(p, l'.state, l'.token), s[1..], a, b, offset + 1);
    case Stopped =>
      if AtEnd(l).Err? {
        return None;
      }
      q := OnWith(Handle(p, AtEnd(l).value, l.token), s, a, b, offset);
  }

  // The same from the next token on.
  lemma {:induction false} OnWith(h: Result<Parser, Error>, s: string, a: string, b: string, offset: nat)
    returns (q: Option<Parser>)
    requires After(FRESH, s, offset).Some? && a != "" && b != ""
    ensures var l', o := After(FRESH, s, offset).value, offset + |s|;
            match q
            case None => Then(h, s + a, offset).Err? && Then(h, s + b, offset).Err?
            case Some(p') =>
              && Then(h, s + a, offset) == RunFrom(p', l', a, o)
              && Then(h, s + b, offset) == RunFrom(p', l', b, o)
    decreases |s|, 0, 1
  {
    hide After, RunFrom, Run;
    if h.Err? {
      return None;
    }
    q := Through(h.value, FRESH, s, a, b, offset);
    RunFromFresh(h.value, s + a, offset);
    RunFromFresh(h.value, s + b, offset);
  }

  // ---------------------------------------------------------------- two strings that differ

  // Lexers in strings that are not empty, of which only what was read so far may differ.
  predicate Twin(k: Lexer, k': Lexer) {
    && k'.state == k.state && k'.highOffset == k.highOffset && k.token != "" && k'.token != ""
    && (k.state == LsString || k.state == LsBackslash || k.state == LsU4)
    && (k.state == LsU4 ==> k'.uCount == k.uCount && k'.uValue == k.uValue)
  }

  lemma TwinChar(k: Lexer, k': Lexer, c: char, offset: nat)
    requires Twin(k, k')
    ensures match LexChar(k, c, offset)
            case Used(m) => LexChar(k', c, offset).Used? && Twin(m, LexChar(k', c, offset).l)
            case Returned(m) =>
              LexChar(k', c, offset).Returned? && m.state == LexChar(k', c, offset).l.state == LsAfterString
            case Stopped => LexChar(k', c, offset).Stopped?
            case Failed => LexChar(k', c, offset).Failed?
  {
    if k.state == LsU4 {
      TwinU4(k, k', c, offset);
      hide LexU4;
    } else {
      hide LexU4, LexNumber;
    }
  }

  lemma TwinU4(k: Lexer, k': Lexer, c: char, offset: nat)
    requires Twin(k, k') && k.state == LsU4
    ensures match LexU4(k, c, offset)
            case Used(m) => LexU4(k', c, offset).Used? && Twin(m, LexU4(k', c, offset).l)
            case Returned(_) => false
            case Stopped => false
            case Failed => LexU4(k', c, offset).Failed?
  {
  }

  lemma {:induction false} TwinLex(k: Lexer, k': Lexer, input: string, offset: nat)
    requires Twin(k, k')
    ensures var t, t' := Lex(k, input, offset), Lex(k', input, offset);
            if t.Err? then t'.Err?
            else
              && t'.Ok? && t.value.kind == LsAfterString && !t.value.done
              && t'.value == t.value.(token := t'.value.token)
    decreases |input|
  {
    hide LexChar, Lex;
    if input == "" {
      LexEnd(k, offset);
      LexEnd(k', offset);
    } else {
      LexNext(k, input, offset);
      LexNext(k', input, offset);
      TwinChar(k, k', input[0], offset);
      if LexChar(k, input[0], offset).Used? {
        hide Twin;
        TwinLex(LexChar(k, input[0], offset).l, LexChar(k', input[0], offset).l, input[1..], offset + 1);
      }
    }
  }

  // ---------------------------------------------------------------- two parsers that differ

  predicate SameFrame(f: Frame, f': Frame) {
    f'.back == f.back && (f'.item.Dict? <==> f.item.Dict?) && (f'.item.Array? <==> f.item.Array?)
  }

  // The parsers differ in what they have read, but not in where they are.
  ghost predicate SameShape(p: Parser, p': Parser) {
    && p'.state == p.state && |p'.stack| == |p.stack|
    && forall i :: 0 <= i < |p.stack| ==> SameFrame(p.stack[i], p'.stack[i])
  }

  ghost predicate SameResult(r: Result<Parser, Error>, r': Result<Parser, Error>) {
    match r
    case Ok(p) => r'.Ok? && SameShape(p, r'.value)
    case Err(_) => r'.Err?
  }

  lemma PlaceShape(p: Parser, p': Parser, item: Json, item': Json)
    requires SameShape(p, p') && (item.Dict? <==> item'.Dict?) && (item.Array? <==> item'.Array?)
    ensures SameResult(Place(p, item), Place(p', item'))
  {
  }

  lemma CloseShape(p: Parser, p': Parser)
    requires SameShape(p, p')
    ensures SameResult(Close(p), Close(p'))
  {
  }

  lemma HandleShape(p: Parser, p': Parser, kind: LexState, token: string, token': string)
    requires SameShape(p, p') && (kind == LsAfterString || token == token')
    ensures SameResult(Handle(p, kind, token), Handle(p', kind, token'))
  {
    CloseShape(p, p');
    var item, item' := ItemOf(kind, token), ItemOf(kind, token');
    if item.Some? {
      PlaceShape(p, p', item.value, item'.value);
    }
    hide Place, Close;
  }

  lemma {:induction false} RunShape(p: Parser, p': Parser, input: string, offset: nat)
    requires SameShape(p, p')
    ensures SameResult(Run(p, input, offset), Run(p', input, offset))
    decreases |input|
  {
    hide Lex, Handle, SameShape, Run;
    RunNext(p, input, offset);
    RunNext(p', input, offset);
    var t := Lex(FRESH, input, offset);
    if t.Ok? {
      var t := t.value;
      HandleShape(p, p', t.kind, t.token, t.token);
      if Handle(p, t.kind, t.token).Ok? && !t.done {
        RunShape(Handle(p, t.kind, t.token).value, Handle(p', t.kind, t.token).value, t.rest, t.offset);
      }
    }
  }

  lemma {:induction false} FromTwins(p: Parser, k: Lexer, k': Lexer, input: string, offset: nat)
    requires Twin(k, k')
    ensures SameResult(RunFrom(p, k, input, offset), RunFrom(p, k', input, offset))
  {
    hide Lex, Handle, SameShape, Run, Twin;
    TwinLex(k, k', input, offset);
    var t, t' := Lex(k, input, offset), Lex(k', input, offset);
    if t.Ok? {
      SameSelf(p);
      HandleShape(p, p, LsAfterString, t.value.token, t'.value.token);
      var h, h' := Handle(p, LsAfterString, t.value.token), Handle(p, LsAfterString, t'.value.token);
      if h.Ok? {
        RunShape(h.value, h'.value, t.value.rest, t.value.offset);
      }
    }
  }

  lemma SameSelf(p: Parser)
    ensures SameShape(p, p)
  {
  }

  // ---------------------------------------------------------------- the escape

  // The escape of a character that is no surrogate.
  lemma PlainEscape(l: Lexer, rest: string, offset: nat)
    requires l.state == LsString && l.highOffset == 0
    ensures Lex(l, "\\ue000" + rest, offset) == Lex(Escaped(l, 0xE000, Utf8(0xE000)), rest, offset + 6)
  {
    hide Lex, LexChar, Utf8, HexCode, HexDigits, HexValue;
    var h := "e000";
    assert "\\ue000" + rest == ['\\', 'u'] + (h + rest);
    LexBackslashU(l, h + rest, offset);
    PlainDigits();
    var u := l.(state := LsU4, uCount := 0, uValue := 0);
    var v := ThreeDigits(u, h, rest, offset + 2);
    LastPlain(v, h[3], rest, offset + 5);
  }

  lemma PlainDigits()
    ensures HexDigits("e000") && HexCode("e000") == 0xE000
  {
  }

  lemma LastPlain(l: Lexer, c: char, rest: string, offset: nat)
    requires l.state == LsU4 && l.uCount == 3 && HexValue(c) < 16 && 16 * l.uValue + HexValue(c) == 0xE000
    requires l.highOffset == 0 && offset >= 5
    ensures Lex(l, [c] + rest, offset) == Lex(Escaped(l, 0xE000, Utf8(0xE000)), rest, offset + 1)
  {
    hide Utf8, Lex;
    LexUsed(l, c, rest, offset);
  }

  lemma EscapesTwin(l: Lexer, code: nat)
    requires l.state == LsString && LowSurrogate(code)
    ensures Twin(Escaped(l, code, Supplement(l, code)), Escaped(l, 0xE000, Utf8(0xE000)))
  {
  }

  lemma FromEscapes(p: Parser, l: Lexer, h: string, rest: string, offset: nat)
    requires l.state == LsString && l.highOffset == 0 && HexDigits(h) && LowSurrogate(HexCode(h))
    ensures var low, plain := RunFrom(p, l, "\\u" + h + rest, offset), RunFrom(p, l, "\\ue000" + rest, offset);
            if offset == 6 then SameResult(low, plain) else low.Err?
  {
    LowEscape(l, h, rest, offset);
    PlainEscape(l, rest, offset);
    EscapesTwin(l, HexCode(h));
    hide Lex, Run, Handle, Twin, HexDigits, HexCode, LowSurrogate, Escaped, Supplement, Utf8, SameShape;
    if offset == 6 {
      var k, k' := Escaped(l, HexCode(h), Supplement(l, HexCode(h))), Escaped(l, 0xE000, Utf8(0xE000));
      FromTwins(p, k, k', rest, 12);
    }
  }

  lemma SameParsed(a: string, b: string)
    requires SameResult(Run(START, a, 0), Run(START, b, 0))
    ensures ParseText(a).Ok? <==> ParseText(b).Ok?
  {
    hide Run;
  }

  // Where a string is open and no high surrogate waits, the escape of a low surrogate is an error unless
  // its backslash is at offset 6, and there it is no more of an error than any other character.
  lemma LoneLowAnywhere(text: string, h: string, rest: string)
    requires HexDigits(h) && LowSurrogate(HexCode(h))
    requires var l := After(FRESH, text, 0); l.Some? && l.value.state == LsString && l.value.highOffset == 0
    ensures ParseText(text + ("\\u" + h + rest)).Ok? <==> |text| == 6 && ParseText(text + ("\\ue000" + rest)).Ok?
  {
    hide After, RunFrom, Run, HexDigits, HexCode, LowSurrogate, SameShape, ParseText;
    var low, plain := "\\u" + h + rest, "\\ue000" + rest;
    var l := After(FRESH, text, 0).value;
    var q := Through(START, FRESH, text, low, plain, 0);
    RunFromFresh(START, text + low, 0);
    RunFromFresh(START, text + plain, 0);
    if q.Some? {
      FromEscapes(q.value, l, h, rest, |text|);
    }
    if |text| == 6 {
      SameParsed(text + low, text + plain);
    } else {
      NotParsed(text + low);
    }
  }

  lemma NotParsed(a: string)
    requires Run(START, a, 0).Err?
    ensures ParseText(a).Err?
  {
  }
}
