/**
 * Whatever the lexer of libqpdf/JSON.cc takes for a token is one of RFC 8259, as long as no low surrogate is
 * without a high one: the text of a token, taken apart.
 */
module JSONTokens {
  import opened Wrappers
  import opened JSONModel
  import opened JSONLexer
  import opened JSONParser
  import opened JSONOffsets
  import opened JSONRoundTrip
  import Lit = JSONLiterals
  import JSONSurrogates

  // ---------------------------------------------------------------- words and numbers

  // In a word or a number, which goes on until something ends it.
  predicate Plainly(s: LexState) {
    s == LsAlpha || s == LsNumberMinus || s == LsNumberLeadingZero || s == LsNumberBeforePoint || s == LsNumberPoint
    || s == LsNumberAfterPoint || s == LsNumberE || s == LsNumberESign || s == LsNumber
  }

  // What a number has so far: its sign, and its parts, in agreement with the state.
  ghost predicate NumberSoFar(s: LexState, token: string, m: string, i: string, f: string, e: string) {
    && token == m + i + f + e && (m == "" || m == "-")
    && match s
       case LsNumberMinus => m == "-" && i == "" && f == "" && e == ""
       case LsNumberLeadingZero => i == "0" && f == "" && e == ""
       case LsNumberBeforePoint => Digits(i) && i[0] != '0' && f == "" && e == ""
       case LsNumberPoint => IntPart(i) && f == "." && e == ""
       case LsNumberAfterPoint => IntPart(i) && f != "" && f[0] == '.' && Digits(f[1..]) && e == ""
       case LsNumberE => IntPart(i) && FracPart(f) && (e == "e" || e == "E")
       case LsNumberESign => IntPart(i) && FracPart(f) && (e == "e+" || e == "e-" || e == "E+" || e == "E-")
       case LsNumber => IntPart(i) && FracPart(f) && e != "" && ExpPart(e)
       case _ => false
  }

  ghost predicate GoodSoFar(l: Lexer) {
    l.token != "" &&
    if l.state == LsAlpha then Letters(l.token)
    else exists m, i, f, e :: NumberSoFar(l.state, l.token, m, i, f, e)
  }

  lemma DigitMore(ds: string, c: char)
    requires Digits(ds) && Digit(c)
    ensures Digits(ds + [c])
  {
  }

  lemma ExpMore(e: string, c: char)
    requires Digit(c) && e != ""
    requires e == "e" || e == "E" || e == "e+" || e == "e-" || e == "E+" || e == "E-" || ExpPart(e)
    ensures ExpPart(e + [c])
  {
    var x := e + [c];
    if |e| >= 2 && (e[1] == '+' || e[1] == '-') {
      assert x[2..] == e[2..] + [c];
      assert x[1] == e[1];
    } else {
      assert x[1..] == e[1..] + [c];
    }
  }

  lemma NumberMore(l: Lexer, c: char, offset: nat)
    requires Plainly(l.state) && l.state != LsAlpha && GoodSoFar(l) && LexChar(l, c, offset).Used?
    ensures var l' := LexChar(l, c, offset).l; Plainly(l'.state) && l'.state != LsAlpha && GoodSoFar(l')
    ensures LexChar(l, c, offset).l.token == l.token + [c]
  {
    var m, i, f, e :| NumberSoFar(l.state, l.token, m, i, f, e);
    var l' := LexChar(l, c, offset).l;
    assert LexNumber(l, c) == Used(l');
    assert l'.token == m + i + f + e + [c];
    NextParts(l.state, l'.state, c, m, i, f, e);
  }

  lemma NextParts(s: LexState, s': LexState, c: char, m: string, i: string, f: string, e: string)
    requires s != LsAlpha && Plainly(s) && NumberSoFar(s, m + i + f + e, m, i, f, e)
    requires exists l: Lexer :: l.state == s && LexNumber(l, c).Used? && LexNumber(l, c).l.state == s'
    ensures Plainly(s') && s' != LsAlpha
    ensures exists i', f', e' :: NumberSoFar(s', m + i + f + e + [c], m, i', f', e')
  {
    var all := m + i + f + e + [c];
    if s' == LsNumberLeadingZero || s' == LsNumberBeforePoint {
      assert all == m + (i + [c]) + "" + "";
      assert NumberSoFar(s', all, m, i + [c], "", "");
    } else if s' == LsNumberPoint {
      assert all == m + i + [c] + "";
      assert NumberSoFar(s', all, m, i, [c], "");
    } else if s' == LsNumberAfterPoint {
      assert (f + [c])[1..] == f[1..] + [c];
      assert all == m + i + (f + [c]) + "";
      assert NumberSoFar(s', all, m, i, f + [c], "");
    } else {
      assert all == m + i + f + (e + [c]);
      if s' == LsNumber {
        ExpMore(e, c);
      } else if s' == LsNumberE {
        assert e + [c] == [c];
      }
      assert NumberSoFar(s', all, m, i, f, e + [c]);
    }
  }

  lemma PlainStep(l: Lexer, c: char, offset: nat)
    requires Plainly(l.state) && GoodSoFar(l)
    ensures !LexChar(l, c, offset).Returned?
    ensures var s := LexChar(l, c, offset);
            s.Used? ==> Plainly(s.l.state) && GoodSoFar(s.l) && s.l.token == l.token + [c]
  {
    if LexChar(l, c, offset).Used? {
      if l.state == LsAlpha {
        assert LexChar(l, c, offset) == Used(l.Append(c)) && 'a' <= c <= 'z';
      } else {
        hide GoodSoFar;
        NumberMore(l, c, offset);
      }
    }
  }

  lemma PlainEnds(l: Lexer)
    requires Plainly(l.state) && GoodSoFar(l) && AtEnd(l).Ok?
    ensures (AtEnd(l).value == LsAlpha && Letters(l.token)) || (AtEnd(l).value == LsNumber && IsNumber(l.token))
  {
    if l.state != LsAlpha {
      var m, i, f, e :| NumberSoFar(l.state, l.token, m, i, f, e);
      assert m == "-" ==> l.token == "-" + (i + f + e);
      assert m == "" ==> l.token == i + f + e;
      assert NumberParts(l.token, i, f, e);
    }
  }

  // The rest of a word or a number.
  lemma {:induction false} PlainRest(l: Lexer, input: string, offset: nat) returns (w: string)
    requires Plainly(l.state) && GoodSoFar(l) && Lex(l, input, offset).Ok?
    ensures var t := Lex(l, input, offset).value;
            && input == w + t.rest && t.token == l.token + w
            && ((t.kind == LsAlpha && Letters(t.token)) || (t.kind == LsNumber && IsNumber(t.token)))
    decreases |input|
  {
    hide Lex, LexChar, GoodSoFar, AtEnd, Letters, IsNumber;
    w := "";
    if input == "" {
      LexEnd(l, offset);
      PlainEnds(l);
    } else {
      LexNext(l, input, offset);
      PlainStep(l, input[0], offset);
      var s := LexChar(l, input[0], offset);
      if s.Used? {
        w := PlainRest(s.l, input[1..], offset + 1);
        w := [input[0]] + w;
        assert input == [input[0]] + input[1..];
        assert l.token + w == l.token + [input[0]] + w[1..];
      } else {
        PlainEnds(l);
        assert "" + input == input && l.token + "" == l.token;
      }
    }
  }

  // ---------------------------------------------------------------- strings

  // A high surrogate waits, and the next backslash is not where its low one had to be: no string comes of it.
  predicate Stuck(l: Lexer, offset: nat) {
    && l.highOffset != 0
    && match l.state
       case LsString => offset > l.highOffset + 6
       case LsBackslash => offset > l.highOffset + 7
       case LsU4 => l.uCount <= 3 && offset > l.highOffset + 8 + l.uCount
       case _ => false
  }

  lemma StuckStep(l: Lexer, c: char, offset: nat)
    requires Stuck(l, offset)
    ensures !LexChar(l, c, offset).Returned?
    ensures var s := LexChar(l, c, offset); s.Used? ==> Stuck(s.l, offset + 1)
  {
    hide LexNumber, LexTop, Utf8;
  }

  lemma {:induction false} StuckFails(l: Lexer, input: string, offset: nat)
    requires Stuck(l, offset) && Lex(l, input, offset).Ok?
    ensures Lex(l, input, offset).value.kind != LsAfterString
    decreases |input|
  {
    hide Lex, LexChar, Stuck;
    StuckState(l, offset);
    if input == "" {
      LexEnd(l, offset);
    } else {
      LexNext(l, input, offset);
      StuckStep(l, input[0], offset);
      var s := LexChar(l, input[0], offset);
      if s.Used? {
        StuckFails(s.l, input[1..], offset + 1);
      }
    }
  }

  lemma StuckState(l: Lexer, offset: nat)
    requires Stuck(l, offset)
    ensures AtEnd(l).Ok? ==> AtEnd(l).value != LsAfterString
  {
  }

  predicate InQuotes(s: LexState) {
    s == LsString || s == LsBackslash || s == LsU4
  }

  // The string that is being read ends well, and no low surrogate is alone.
  ghost predicate Goes(l: Lexer, input: string, offset: nat, t: Lexed) {
    Lex(l, input, offset) == Ok(t) && t.kind == LsAfterString && TokenLows(l, input, offset) == {}
  }

  lemma GoesOn(l: Lexer, input: string, offset: nat, t: Lexed)
    requires Goes(l, input, offset, t) && InQuotes(l.state)
    ensures input != ""
    ensures var s := LexChar(l, input[0], offset);
            if s.Used? then Goes(s.l, input[1..], offset + 1, t) && (LoneLow(l, input[0]) ==> offset < 5)
            else
              && s.Returned? && s.l.state == LsAfterString
              && t == Lexed(LsAfterString, s.l.token, input[1..], offset + 1, false)
  {
    hide Lex, TokenLows, LexChar, LoneLow;
    NotAtEnd(l);
    if input == "" {
      LexEnd(l, offset);
    } else {
      LexNext(l, input, offset);
      LowsStep(l, input, offset);
    }
  }

  lemma NotAtEnd(l: Lexer)
    requires InQuotes(l.state)
    ensures AtEnd(l).Ok? ==> AtEnd(l).value != LsAfterString
  {
  }

  // One of four digits.
  lemma DigitGoes(l: Lexer, input: string, offset: nat, t: Lexed)
    requires Goes(l, input, offset, t) && l.state == LsU4 && l.uCount < 3
    ensures input != "" && Lit.IsDigit(input[0]) && HexValue(input[0]) < 16
    ensures Goes(l.(uValue := 16 * l.uValue + HexValue(input[0]), uCount := l.uCount + 1), input[1..], offset + 1, t)
  {
    GoesOn(l, input, offset, t);
    hide Goes, HandleUCode;
  }

  lemma DigitsGo(l: Lexer, input: string, offset: nat, t: Lexed) returns (v: Lexer)
    requires Goes(l, input, offset, t) && l.state == LsU4 && l.uCount == 0 && l.uValue == 0
    ensures |input| >= 4 && Lit.FourDigits(input[..4]) && Goes(v, input[3..], offset + 3, t)
    ensures v == l.(uCount := 3, uValue := v.uValue) && 16 * v.uValue + HexValue(input[3]) == Lit.Number(input[..4])
  {
    hide Goes, HexValue;
    DigitGoes(l, input, offset, t);
    var v1 := l.(uValue := HexValue(input[0]), uCount := 1);
    assert l.(uValue := 16 * l.uValue + HexValue(input[0]), uCount := l.uCount + 1) == v1;
    DigitGoes(v1, input[1..], offset + 1, t);
    var v2 := v1.(uValue := 16 * v1.uValue + HexValue(input[1]), uCount := 2);
    assert input[1..][0] == input[1] && input[1..][1..] == input[2..];
    DigitGoes(v2, input[2..], offset + 2, t);
    v := v2.(uValue := 16 * v2.uValue + HexValue(input[2]), uCount := 3);
    assert input[2..][0] == input[2] && input[2..][1..] == input[3..];
    LastDigit(v, input[3..], offset + 3, t);
    var h := input[..4];
    assert forall i :: 0 <= i < 4 ==> h[i] == input[i];
    assert input[3..][0] == input[3];
    Lit.DigitsAgree(h);
    assert JSONSurrogates.HexCode(h) == 16 * v.uValue + HexValue(input[3]);
  }

  lemma LastDigit(v: Lexer, input: string, offset: nat, t: Lexed)
    requires Goes(v, input, offset, t) && v.state == LsU4 && v.uCount == 3
    ensures input != "" && Lit.IsDigit(input[0]) && HexValue(input[0]) < 16 && offset >= 5
    ensures var u := 16 * v.uValue + HexValue(input[0]);
            && u < 0x10000 && !(LowSurrogate(u) && v.highOffset == 0)
            && var h := HandleUCode(v.(uValue := u, uCount := 4), u, offset - 5);
               h.Some? && Goes(h.value.IgnoreTo(LsString), input[1..], offset + 1, t)
  {
    GoesOn(v, input, offset, t);
    hide Goes, HandleUCode;
  }

  lemma NotStuck(l: Lexer, input: string, offset: nat, t: Lexed)
    requires Goes(l, input, offset, t)
    ensures !Stuck(l, offset)
  {
    if Stuck(l, offset) {
      StuckFails(l, input, offset);
    }
  }

  // An escape by digits, from behind the u.
  lemma CodeGoes(u: Lexer, input: string, offset: nat, t: Lexed) returns (h: string, l': Lexer)
    requires Goes(u, input, offset, t) && u.state == LsU4 && u.uCount == 0 && u.uValue == 0 && offset >= 2
    ensures |input| >= 4 && h == input[..4] && Lit.FourDigits(h) && |h| == 4 && Lit.Number(h) < 0x10000
    ensures !(LowSurrogate(Lit.Number(h)) && u.highOffset == 0)
    ensures var r := HandleUCode(u.(uCount := 4, uValue := Lit.Number(h)), Lit.Number(h), offset - 2);
            r.Some? && l' == r.value.IgnoreTo(LsString)
    ensures Goes(l', input[4..], offset + 4, t)
  {
    hide Goes, HexValue, HandleUCode, LowSurrogate;
    var v := DigitsGo(u, input, offset, t);
    h := input[..4];
    Lit.FourLong(h);
    LastDigit(v, input[3..], offset + 3, t);
    assert input[3..][0] == input[3] && input[3..][1..] == input[4..];
    hide Lit.Number, Lit.FourDigits;
    l' := HandleUCode(v.(uValue := Lit.Number(h), uCount := 4), Lit.Number(h), offset - 2).value.IgnoreTo(LsString);
    assert v.(uValue := Lit.Number(h), uCount := 4) == u.(uCount := 4, uValue := Lit.Number(h));
  }

  lemma BackslashGoes(l: Lexer, input: string, offset: nat, t: Lexed)
    requires Goes(l, input, offset, t) && l.state == LsString && input != "" && input[0] == '\\'
    ensures |input| >= 2 && (input[1] in Lit.ESCAPES || input[1] == 'u')
    ensures input[1] == 'u' ==> Goes(l.(state := LsU4, uCount := 0, uValue := 0), input[2..], offset + 2, t)
    ensures input[1] != 'u' ==>
              Goes(l.AppendTo(Lit.ESCAPED[Lit.EscapeIndex(input[1])], LsString), input[2..], offset + 2, t)
  {
    GoesOn(l, input, offset, t);
    assert LexChar(l, '\\', offset) == Used(l.IgnoreTo(LsBackslash));
    assert input[1..][1..] == input[2..];
    EscapeGoes(l.IgnoreTo(LsBackslash), input[1..], offset + 1, t);
  }

  lemma EscapeGoes(b: Lexer, input: string, offset: nat, t: Lexed)
    requires Goes(b, input, offset, t) && b.state == LsBackslash
    ensures input != "" && (input[0] in Lit.ESCAPES || input[0] == 'u')
    ensures input[0] == 'u' ==> Goes(b.(state := LsU4, uCount := 0, uValue := 0), input[1..], offset + 1, t)
    ensures input[0] != 'u' ==>
              Goes(b.AppendTo(Lit.ESCAPED[Lit.EscapeIndex(input[0])], LsString), input[1..], offset + 1, t)
  {
    GoesOn(b, input, offset, t);
    hide Goes, LexNumber, LexString, LexU4, LexTop;
  }

  // After a high surrogate there is a low one.
  lemma LowGoes(l: Lexer, input: string, offset: nat, t: Lexed) returns (lo: string, l': Lexer)
    requires Goes(l, input, offset, t) && l.state == LsString && l.highOffset != 0 && offset == l.highOffset + 6
    ensures |input| >= 6 && input[0] == '\\' && input[1] == 'u' && lo == input[2..6] && |lo| == 4
    ensures Lit.FourDigits(lo) && LowSurrogate(Lit.Number(lo))
    ensures l' == Lexer(LsString, l.token + Utf8(0x10000 + l.high % 0x400 * 0x400 + Lit.Number(lo) % 0x400), 4,
                        Lit.Number(lo), l.high, 0)
    ensures Goes(l', input[6..], offset + 6, t)
  {
    hide Goes, LexChar, Utf8, LoneLow, HandleUCode, LowSurrogate;
    GoesOn(l, input, offset, t);
    FirstLow(l, input[0], input[1..], offset, t);
    BackslashGoes(l, input, offset, t);
    if input[1] != 'u' {
      var e := l.AppendTo(Lit.ESCAPED[Lit.EscapeIndex(input[1])], LsString);
      assert Stuck(e, offset + 2);
      NotStuck(e, input[2..], offset + 2, t);
    }
    lo, l' := CodeGoes(l.(state := LsU4, uCount := 0, uValue := 0), input[2..], offset + 2, t);
    assert input[2..][..4] == input[2..6] && input[2..][4..] == input[6..];
    NotStuck(l', input[6..], offset + 6, t);
    LowTaken(l, Lit.Number(lo), offset, l');
  }

  lemma LowTaken(l: Lexer, u: nat, offset: nat, l': Lexer)
    requires l.state == LsString && l.highOffset != 0 && offset == l.highOffset + 6 && u < 0x10000
    requires var r := HandleUCode(l.(state := LsU4, uCount := 4, uValue := u), u, offset);
             r.Some? && l' == r.value.IgnoreTo(LsString)
    requires !Stuck(l', offset + 6)
    ensures LowSurrogate(u)
    ensures l' == Lexer(LsString, l.token + Utf8(0x10000 + l.high % 0x400 * 0x400 + u % 0x400), 4, u, l.high, 0)
  {
    hide Utf8;
  }

  lemma FirstLow(l: Lexer, c: char, rest: string, offset: nat, t: Lexed)
    requires l.state == LsString && l.highOffset != 0 && offset == l.highOffset + 6
    requires !LexChar(l, c, offset).Failed? && !LexChar(l, c, offset).Stopped?
    requires LexChar(l, c, offset).Used? ==> Goes(LexChar(l, c, offset).l, rest, offset + 1, t)
    ensures c == '\\'
  {
    if c != '\\' {
      assert LexChar(l, c, offset) == Used(l.Append(c));
      NotStuck(l.Append(c), rest, offset + 1, t);
    }
  }

  // One piece of a string.
  lemma PieceGoes(l: Lexer, input: string, offset: nat, t: Lexed) returns (p: Lit.Piece, l': Lexer)
    requires Goes(l, input, offset, t) && Lit.Open(l) && offset >= 1 && input != "" && input[0] != '\"'
    ensures Lit.Allowed(p) && 0 < |Lit.Spelled(p)| <= |input| && input[..|Lit.Spelled(p)|] == Lit.Spelled(p)
    ensures Lit.Open(l') && l'.token == l.token + Lit.Said(p)
    ensures Goes(l', input[|Lit.Spelled(p)|..], offset + |Lit.Spelled(p)|, t)
  {
    hide Goes, Utf8, Lit.Number, Lit.FourDigits;
    if input[0] == '\\' {
      BackslashGoes(l, input, offset, t);
      if input[1] == 'u' {
        p, l' := CodePiece(l, input, offset, t);
      } else {
        p := Lit.Short(input[1]);
        l' := l.AppendTo(Lit.ESCAPED[Lit.EscapeIndex(input[1])], LsString);
        assert Lit.Spelled(p) == input[..2];
      }
    } else {
      GoesOn(l, input, offset, t);
      p := Lit.Plain(input[0]);
      PlainGoes(l, input[0], offset);
      l' := l.Append(input[0]);
      assert Lit.Spelled(p) == input[..1];
    }
  }

  lemma PlainGoes(l: Lexer, c: char, offset: nat)
    requires l.state == LsString && c != '\\' && c != '\"'
    ensures var s := LexChar(l, c, offset); !s.Returned? && (s.Used? ==> c >= ' ' && s == Used(l.Append(c)))
  {
  }

  lemma CodePiece(l: Lexer, input: string, offset: nat, t: Lexed) returns (p: Lit.Piece, l': Lexer)
    requires Lit.Open(l) && offset >= 1 && |input| >= 2 && input[0] == '\\' && input[1] == 'u'
    requires Goes(l.(state := LsU4, uCount := 0, uValue := 0), input[2..], offset + 2, t)
    ensures Lit.Allowed(p) && Lit.Spelled(p) != "" && Lit.Spelled(p) <= input
    ensures Lit.Open(l') && l'.token == l.token + Lit.Said(p)
    ensures Goes(l', input[|Lit.Spelled(p)|..], offset + |Lit.Spelled(p)|, t)
  {
    hide Goes, Utf8, Lit.Number, Lit.FourDigits;
    var h;
    h, l' := CodeGoes(l.(state := LsU4, uCount := 0, uValue := 0), input[2..], offset + 2, t);
    assert input[2..][4..] == input[6..] && input[..6] == "\\u" + h;
    var u := Lit.Number(h);
    if HighSurrogate(u) {
      var lo;
      lo, l' := LowGoes(l', input[6..], offset + 6, t);
      assert input[6..][6..] == input[12..] && input[..12] == "\\u" + h + "\\u" + lo;
      p := Lit.Pair(h, lo);
      Lit.SurrogateParts(u, Lit.Number(lo));
      assert |Lit.Spelled(p)| == 12;
    } else {
      p := Lit.Code(h);
      assert |Lit.Spelled(p)| == 6;
    }
  }

  // The rest of a string is pieces and a quote.
  lemma {:induction false} StringRest(l: Lexer, input: string, offset: nat, t: Lexed) returns (ps: seq<Lit.Piece>)
    requires Goes(l, input, offset, t) && Lit.Open(l) && offset >= 1
    ensures Lit.AllAllowed(ps) && t.token == l.token + Lit.AllSaid(ps)
    ensures input == Lit.Body(ps) + (['\"'] + t.rest)
    decreases |input|
  {
    hide Goes, Lit.AllAllowed, Lit.AllSaid, Lit.Body, Lit.Said, Lit.Spelled, Lit.Allowed, LexChar, Lit.Open, LoneLow;
    OpenQuotes(l);
    GoesOn(l, input, offset, t);
    if input[0] == '\"' {
      ps := [];
      QuoteGoes(l, input, offset, t);
    } else {
      var p, l' := PieceGoes(l, input, offset, t);
      var n := |Lit.Spelled(p)|;
      var more := StringRest(l', input[n..], offset + n, t);
      ps := [p] + more;
      PieceMore(p, more, l.token, ['\"'] + t.rest);
      Cut(input, n);
    }
  }

  lemma OpenQuotes(l: Lexer)
    requires Lit.Open(l)
    ensures InQuotes(l.state)
  {
  }

  lemma Cut(s: string, n: nat)
    requires n <= |s|
    ensures s == s[..n] + s[n..]
  {
  }

  lemma QuoteGoes(l: Lexer, input: string, offset: nat, t: Lexed)
    requires Lit.Open(l) && Goes(l, input, offset, t) && input != "" && input[0] == '\"'
    ensures Lit.AllAllowed([]) && t.token == l.token + Lit.AllSaid([]) && input == Lit.Body([]) + (['\"'] + t.rest)
  {
    GoesOn(l, input, offset, t);
    assert LexChar(l, '\"', offset) == Returned(l.IgnoreTo(LsAfterString));
    assert l.token + "" == l.token && input == "" + (['\"'] + input[1..]);
  }

  lemma PieceMore(p: Lit.Piece, more: seq<Lit.Piece>, token: string, rest: string)
    requires Lit.Allowed(p) && Lit.AllAllowed(more)
    ensures var ps := [p] + more;
            && Lit.AllAllowed(ps) && token + Lit.Said(p) + Lit.AllSaid(more) == token + Lit.AllSaid(ps)
            && Lit.Spelled(p) + (Lit.Body(more) + rest) == Lit.Body(ps) + rest
  {
    hide Lit.Said, Lit.Spelled, Lit.Allowed;
    var ps := [p] + more;
    assert ps[0] == p && ps[1..] == more;
  }
}
