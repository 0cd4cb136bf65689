/**
 * The offsets that JSONParser of libqpdf/JSON.cc records: the part of the input that an item was read
 * from is a text of its own, and it is a text of that item.
 */
module JSONOffsets {
  import opened Wrappers
  import opened JSONModel
  import opened JSONLexer
  import opened JSONParser
  import opened JSONRoundTrip

  // ---------------------------------------------------------------- low surrogates with no high one

  // The last digit of a low surrogate while no high surrogate waits.
  predicate LoneLow(l: Lexer, c: char) {
    l.state == LsU4 && l.uCount == 3 && HexValue(c) < 16 && LowSurrogate(16 * l.uValue + HexValue(c)) &&
    l.highOffset == 0
  }

  // The backslashes of such surrogates in one token.
  function TokenLows(l: Lexer, input: string, offset: nat): set<nat>
    decreases |input|
  {
    if input == "" then {}
    else
      var step := LexChar(l, input[0], offset);
      (if LoneLow(l, input[0]) && offset >= 5 then {offset - 5} else {}) +
      if step.Used? then TokenLows(step.l, input[1..], offset + 1) else {}
  }

  lemma LowsNone(l: Lexer, offset: nat)
    ensures TokenLows(l, "", offset) == {}
  {
  }

  // The lone surrogates of a token are its first character's and those of the rest.
  lemma LowsStep(l: Lexer, input: string, offset: nat)
    requires input != ""
    ensures var step := LexChar(l, input[0], offset);
            TokenLows(l, input, offset) ==
            (if LoneLow(l, input[0]) && offset >= 5 then {offset - 5} else {}) +
            if step.Used? then TokenLows(step.l, input[1..], offset + 1) else {}
  {
  }

  // The same in all tokens.
  function LoneLows(input: string, offset: nat): set<nat>
    decreases |input|
  {
    var t := Lex(FRESH, input, offset);
    TokenLows(FRESH, input, offset) +
    if t.Ok? && !t.value.done then LoneLows(t.value.rest, t.value.offset) else {}
  }

  // ---------------------------------------------------------------- the same text elsewhere

  // Lexers at places that are d apart, n characters into the token or later.
  predicate Moved(l: Lexer, l': Lexer, d: nat, n: nat) {
    && l'.(highOffset := l.highOffset) == l
    && (if l.highOffset == 0 then l'.highOffset == 0 else l.highOffset > d && l'.highOffset == l.highOffset - d)
    && (l.state == LsString ==> n >= 1) && (l.state == LsBackslash ==> n >= 2)
    && (l.state == LsU4 ==> l.uCount <= 3 && n >= 3 + l.uCount)
  }

  lemma HandleMoved(l: Lexer, l': Lexer, code: nat, offset: nat, d: nat)
    requires code < 0x10000 && d < offset && l'.(highOffset := l.highOffset) == l
    requires if l.highOffset == 0 then l'.highOffset == 0 else l.highOffset > d && l'.highOffset == l.highOffset - d
    requires !(LowSurrogate(code) && l.highOffset == 0)
    ensures var h, h' := HandleUCode(l, code, offset), HandleUCode(l', code, offset - d);
            && (h.None? <==> h'.None?)
            && (h.Some? ==>
                  && h'.value.(highOffset := h.value.highOffset) == h.value
                  && if h.value.highOffset == 0 then h'.value.highOffset == 0
                     else h.value.highOffset > d && h'.value.highOffset == h.value.highOffset - d)
  {
    hide Utf8;
  }

  // The steps of two lexers that are d apart, n characters into the token.
  ghost predicate SameStep(s: Step, s': Step, d: nat, n: nat) {
    match s
    case Used(k) => s'.Used? && Moved(k, s'.l, d, n)
    case Returned(k) => s'.Returned? && s'.l.state == k.state && s'.l.token == k.token
    case Stopped => s'.Stopped?
    case Failed => s'.Failed?
  }

  // A lone low surrogate is let through at offset 6 only.
  predicate LowStep(s: Step, offset: nat) {
    s.Failed? || (s.Used? && offset == 11)
  }

  lemma CharMoved(l: Lexer, l': Lexer, c: char, offset: nat, d: nat)
    requires d <= offset && Moved(l, l', d, offset - d)
    ensures var s, s' := LexChar(l, c, offset), LexChar(l', c, offset - d);
            if LoneLow(l, c) then LowStep(s, offset) && LowStep(s', offset - d)
            else SameStep(s, s', d, offset - d + 1)
  {
    if l.state == LsU4 {
      U4Moved(l, l', c, offset, d);
      hide LexU4, LoneLow, Moved;
    } else if l.state == LsString {
      hide LexU4, LexNumber, LexBackslash, LexTop;
    } else if l.state == LsBackslash {
      hide LexU4, LexNumber, LexString, LexTop;
    } else {
      NumberMoved(l, l', c, offset - d, d);
      hide LexU4, LexString, LexBackslash, LexNumber;
    }
  }

  lemma NumberMoved(l: Lexer, l': Lexer, c: char, n: nat, d: nat)
    requires Moved(l, l', d, n) && l.state != LsU4 && l.state != LsString && l.state != LsBackslash
    ensures SameStep(LexNumber(l, c), LexNumber(l', c), d, n + 1)
  {
  }

  lemma U4Moved(l: Lexer, l': Lexer, c: char, offset: nat, d: nat)
    requires d <= offset && Moved(l, l', d, offset - d) && l.state == LsU4
    ensures var s, s' := LexU4(l, c, offset), LexU4(l', c, offset - d);
            if LoneLow(l, c) then LowStep(s, offset) && LowStep(s', offset - d)
            else SameStep(s, s', d, offset - d + 1)
    ensures LoneLow(l, c) ==> c >= ' ' && c !in ",: {}[]"
  {
    hide HandleUCode;
    if HexValue(c) < 16 && l.uCount == 3 {
      var code := 16 * l.uValue + HexValue(c);
      var m, m' := l.(uValue := code, uCount := 4), l'.(uValue := code, uCount := 4);
      if code < 0x10000 && !LoneLow(l, c) {
        HandleMoved(m, m', code, offset - 5, d);
      }
      if code < 0x10000 && LoneLow(l, c) {
        LoneLowPlace(m, code, offset - 5);
        LoneLowPlace(m', code, offset - d - 5);
      }
    }
  }

  lemma LoneLowPlace(l: Lexer, code: nat, offset: nat)
    requires code < 0x10000 && LowSurrogate(code) && l.highOffset == 0
    ensures HandleUCode(l, code, offset).Some? <==> offset == 6
  {
  }

  lemma {:induction false} LowsAtSix(l: Lexer, input: string, offset: nat)
    requires Lex(l, input, offset).Ok?
    ensures TokenLows(l, input, offset) <= {6} && Lex(l, input, offset).value.offset >= offset
    decreases |input|
  {
    hide Lex, LexChar, LoneLow, TokenLows;
    LowsNone(l, offset);
    if input == "" {
      LexEnd(l, offset);
    } else {
      LexNext(l, input, offset);
      LowsStep(l, input, offset);
      LowAtSix(l, input[0], offset);
      var s := LexChar(l, input[0], offset);
      if s.Used? {
        LowsAtSix(s.l, input[1..], offset + 1);
      }
    }
  }

  lemma LowAtSix(l: Lexer, c: char, offset: nat)
    requires !LexChar(l, c, offset).Failed?
    ensures LoneLow(l, c) ==> offset == 11 && LexChar(l, c, offset).Used?
  {
    hide HandleUCode;
    if LoneLow(l, c) {
      var code := 16 * l.uValue + HexValue(c);
      LoneLowPlace(l.(uValue := code, uCount := 4), code, offset - 5);
    }
  }

  // A token that is read is the same token elsewhere, except that it is none there if a low surrogate
  // has no high one.
  lemma {:induction false} TokenMoved(l: Lexer, l': Lexer, input: string, offset: nat, d: nat)
    requires 0 < d <= offset && Moved(l, l', d, offset - d) && Lex(l, input, offset).Ok?
    ensures Lex(l, input, offset).value.offset >= offset
    ensures var t := Lex(l, input, offset).value;
            Lex(l', input, offset - d) ==
            if TokenLows(l, input, offset) == {} then Ok(t.(offset := t.offset - d)) else Err(Malformed)
    decreases |input|
  {
    hide Lex, LexChar, LoneLow, Moved, Ended, TokenLows;
    LowsAtSix(l, input, offset);
    LowsNone(l, offset);
    if input == "" {
      LexEnd(l, offset);
      LexEnd(l', offset - d);
      EndMoved(l, l', "", offset, d, true);
    } else {
      var c := input[0];
      LexNext(l, input, offset);
      LexNext(l', input, offset - d);
      LowsStep(l, input, offset);
      LowAtSix(l, c, offset);
      CharMoved(l, l', c, offset, d);
      EndMoved(l, l', input, offset, d, false);
      var s, s' := LexChar(l, c, offset), LexChar(l', c, offset - d);
      if LoneLow(l, c) {
        assert 6 in TokenLows(l, input, offset);
      } else if s.Used? {
        TokenMoved(s.l, s'.l, input[1..], offset + 1, d);
      }
    }
  }

  lemma EndMoved(l: Lexer, l': Lexer, rest: string, offset: nat, d: nat, done: bool)
    requires d <= offset && Moved(l, l', d, offset - d)
    ensures var e, e' := Ended(l, rest, offset, done), Ended(l', rest, offset - d, done);
            if e.Err? then e'.Err? else e' == Ok(e.value.(offset := offset - d)) && e.value.offset == offset
  {
  }

  lemma RunNext(p: Parser, input: string, offset: nat)
    ensures var t := Lex(FRESH, input, offset);
            Run(p, input, offset) ==
            if t.Err? then Err(t.error)
            else if t.value.done then Handle(p, t.value.kind, t.value.token)
            else Then(Handle(p, t.value.kind, t.value.token), t.value.rest, t.value.offset)
  {
    hide Lex, Handle;
  }

  lemma LowsNext(input: string, offset: nat)
    requires Lex(FRESH, input, offset).Ok?
    ensures var t, here := Lex(FRESH, input, offset).value, TokenLows(FRESH, input, offset);
            if t.done then LoneLows(input, offset) == here
            else
              var next := LoneLows(t.rest, t.offset);
              && LoneLows(input, offset) == here + next
              && (LoneLows(input, offset) == {} <==> here == {} && next == {})
  {
    hide Lex, TokenLows;
  }

  // A text that is parsed from an offset is parsed from an earlier one, unless a low surrogate has no
  // high one.
  lemma {:induction false} RunMoved(p: Parser, input: string, offset: nat, d: nat)
    requires 0 < d <= offset && Run(p, input, offset).Ok?
    ensures Run(p, input, offset - d) ==
            if LoneLows(input, offset) == {} then Run(p, input, offset) else Err(Malformed)
    ensures LoneLows(input, offset) <= {6}
    decreases |input|
  {
    hide Lex, TokenLows, Handle;
    TokenMoved(FRESH, FRESH, input, offset, d);
    LowsAtSix(FRESH, input, offset);
    var t := Lex(FRESH, input, offset).value;
    LowsNext(input, offset);
    RunNext(p, input, offset);
    RunNext(p, input, offset - d);
    hide LoneLows, Run;
    if !t.done {
      RunMoved(Handle(p, t.kind, t.token).value, t.rest, t.offset, d);
    }
  }

  // ---------------------------------------------------------------- the same text cut short

  // The token t of the input is also the token of the input cut off at n.
  ghost predicate SameToken(input: string, offset: nat, t: Lexed, n: nat, t': Result<Lexed, Error>) {
    && |t.rest| <= |input| && |input| - |t.rest| <= n <= |input|
    && t.rest == input[|input| - |t.rest|..] && t.offset == offset + |input| - |t.rest|
    && t'.Ok? && t'.value.kind == t.kind && t'.value.token == t.token && t'.value.offset == t.offset
    && t'.value.rest == input[|input| - |t.rest|..n]
    && (t'.value.done ==> t'.value.rest == "")
  }

  lemma SameTokenEnd(l: Lexer, input: string, offset: nat, n: nat, done: bool)
    requires Ended(l, input, offset, done).Ok? && n <= |input|
    ensures SameToken(input, offset, Ended(l, input, offset, done).value, n, Ended(l, input[..n], offset, n == 0))
    ensures SameToken(input, offset, Ended(l, input, offset, done).value, n, Ended(l, input[..n], offset, false))
  {
    hide AtEnd;
    assert input[0..] == input && input[0..n] == input[..n];
  }

  lemma SameTokenNext(input: string, offset: nat, t: Lexed, n: nat, t': Result<Lexed, Error>)
    requires input != "" && n > 0 && SameToken(input[1..], offset + 1, t, n - 1, t')
    ensures SameToken(input, offset, t, n, t')
  {
    var m := |input| - |t.rest|;
    assert input[1..][m - 1..] == input[m..] && input[1..][m - 1..n - 1] == input[m..n];
  }

  lemma FirstCut(input: string, n: nat)
    requires input != "" && 0 < n <= |input|
    ensures input[..n] != "" && input[..n][0] == input[0] && input[..n][1..] == input[1..][..n - 1]
  {
  }

  // A token stays what it is if the input is cut anywhere after it.
  lemma {:induction false} TokenCut(l: Lexer, input: string, offset: nat, n: nat)
    requires Lex(l, input, offset).Ok? && n <= |input|
    requires |input| - |Lex(l, input, offset).value.rest| <= n
    ensures SameToken(input, offset, Lex(l, input, offset).value, n, Lex(l, input[..n], offset))
    decreases |input|
  {
    hide Lex, LexChar, Ended, SameToken;
    if input == "" {
      LexEnd(l, offset);
      SameTokenEnd(l, "", offset, 0, true);
      return;
    }
    LexNext(l, input, offset);
    var step := LexChar(l, input[0], offset);
    if n == 0 {
      LexEnd(l, offset);
      NothingRead(l, input, offset);
      SameTokenEnd(l, input, offset, 0, false);
      return;
    }
    FirstCut(input, n);
    LexNext(l, input[..n], offset);
    match step
    case Used(l') =>
      TokenCut(l', input[1..], offset + 1, n - 1);
      SameTokenNext(input, offset, Lex(l', input[1..], offset + 1).value, n, Lex(l', input[1..][..n - 1], offset + 1));
    case Returned(l') => SameTokenLast(l', input, offset, n);
    case Stopped => SameTokenEnd(l, input, offset, n, false);
    case Failed =>
  }

  lemma SameTokenLast(l: Lexer, input: string, offset: nat, n: nat)
    requires input != "" && 0 < n <= |input|
    ensures SameToken(input, offset, Lexed(l.state, l.token, input[1..], offset + 1, false), n,
                      Ok(Lexed(l.state, l.token, input[1..][..n - 1], offset + 1, false)))
  {
    assert input[1..][..n - 1] == input[1..n];
  }

  lemma NothingRead(l: Lexer, input: string, offset: nat)
    requires input != "" && Lex(l, input, offset).Ok? && |Lex(l, input, offset).value.rest| == |input|
    ensures LexChar(l, input[0], offset).Stopped? && Lex(l, input, offset) == Ended(l, input, offset, false)
  {
    hide LexChar;
  }

  lemma {:induction false} LowsCut(l: Lexer, input: string, offset: nat, n: nat)
    requires Lex(l, input, offset).Ok? && |input| - |Lex(l, input, offset).value.rest| <= n <= |input|
    ensures TokenLows(l, input[..n], offset) == TokenLows(l, input, offset)
    decreases |input|
  {
    hide Lex, LexChar, LoneLow, TokenLows;
    LowsNone(l, offset);
    if input != "" {
      LowsStep(l, input, offset);
      LexNext(l, input, offset);
      var step := LexChar(l, input[0], offset);
      if n == 0 {
        NothingRead(l, input, offset);
        LowAtSix(l, input[0], offset);
        assert input[..0] == "";
      } else {
        FirstCut(input, n);
        LowsStep(l, input[..n], offset);
        if step.Used? {
          LowsCut(step.l, input[1..], offset + 1, n - 1);
        }
      }
    } else {
      assert input[..n] == "";
    }
  }

  // Reading the cut input is reading the token and then what is left of it.
  lemma RunCut(p: Parser, input: string, offset: nat, n: nat)
    requires Lex(FRESH, input, offset).Ok?
    requires var t := Lex(FRESH, input, offset).value; |input| - |t.rest| <= n <= |input|
    requires var t := Lex(FRESH, input, offset).value; Handle(p, t.kind, t.token).Ok?
    ensures var t := Lex(FRESH, input, offset).value;
            && t.rest == input[|input| - |t.rest|..] && t.offset == offset + |input| - |t.rest|
            && Run(p, input[..n], offset) ==
               Run(Handle(p, t.kind, t.token).value, input[|input| - |t.rest|..n], t.offset)
            && LoneLows(input[..n], offset) ==
               TokenLows(FRESH, input, offset) + LoneLows(input[|input| - |t.rest|..n], t.offset)
  {
    hide Lex, Handle, Run, TokenLows, LoneLows;
    TokenCut(FRESH, input, offset, n);
    LowsCut(FRESH, input, offset, n);
    RunNext(p, input[..n], offset);
    LowsNext(input[..n], offset);
    var t, t' := Lex(FRESH, input, offset).value, Lex(FRESH, input[..n], offset).value;
    if t'.done {
      RunNothing(Handle(p, t.kind, t.token).value, t.offset);
      NoLows(t.offset);
    }
  }

  lemma NoLows(offset: nat)
    ensures LoneLows("", offset) == {}
  {
    assert Lex(FRESH, "", offset) == Ok(Lexed(LsTop, "", "", offset, true));
  }

  // Reading the input from s to any place after o is going on with p from o.
  ghost predicate Resumes(all: string, s: nat, p: Parser, o: nat) {
    && s <= o <= |all|
    && forall n :: o <= n <= |all| ==> Goes(all, s, p, o, n)
  }

  ghost predicate Goes(all: string, s: nat, p: Parser, o: nat, n: nat)
    requires s <= o <= n <= |all|
  {
    && Run(START, all[s..n], s) == Run(p, all[o..n], o)
    && LoneLows(all[s..n], s) <= LoneLows(all, 0) + LoneLows(all[o..n], o)
  }

  lemma ResumesNext(all: string, s: nat, p: Parser, o: nat)
    requires Resumes(all, s, p, o) && Lex(FRESH, all[o..], o).Ok?
    requires TokenLows(FRESH, all[o..], o) <= LoneLows(all, 0)
    requires var t := Lex(FRESH, all[o..], o).value; Handle(p, t.kind, t.token).Ok?
    ensures var t := Lex(FRESH, all[o..], o).value;
            && t.offset <= |all| && t.rest == all[t.offset..]
            && Resumes(all, s, Handle(p, t.kind, t.token).value, t.offset)
  {
    var t := Lex(FRESH, all[o..], o).value;
    var p' := Handle(p, t.kind, t.token).value;
    hide Lex, Handle, Goes, Run, TokenLows, LoneLows;
    RunCut(p, all[o..], o, |all| - o);
    assert all[o..][|all| - o - |t.rest|..] == all[t.offset..];
    forall n | t.offset <= n <= |all| ensures Goes(all, s, p', t.offset, n) {
      assert Goes(all, s, p, o, n);
      GoesNext(all, s, p, o, n);
    }
  }

  lemma GoesNext(all: string, s: nat, p: Parser, o: nat, n: nat)
    requires s <= o <= n <= |all| && Goes(all, s, p, o, n) && Lex(FRESH, all[o..], o).Ok?
    requires TokenLows(FRESH, all[o..], o) <= LoneLows(all, 0)
    requires var t := Lex(FRESH, all[o..], o).value;
             |all| - n <= |t.rest| <= |all| - o && Handle(p, t.kind, t.token).Ok?
    ensures var t := Lex(FRESH, all[o..], o).value;
            s <= t.offset <= n && Goes(all, s, Handle(p, t.kind, t.token).value, t.offset, n)
  {
    hide Lex, Handle, Run, TokenLows, LoneLows;
    RunCut(p, all[o..], o, n - o);
    var t := Lex(FRESH, all[o..], o).value;
    assert all[o..][..n - o] == all[o..n] && all[o..][t.offset - o..n - o] == all[t.offset..n];
    var here, rest := TokenLows(FRESH, all[o..], o), LoneLows(all[t.offset..n], t.offset);
    Within3(LoneLows(all[s..n], s), LoneLows(all, 0), here, rest);
  }

  lemma Within3(a: set<nat>, b: set<nat>, c: set<nat>, d: set<nat>)
    requires a <= b + (c + d) && c <= b
    ensures a <= b + d
  {
  }

  // ---------------------------------------------------------------- a parser within a parser

  // The parser that begins with frame h of p. Keys that are not used may differ.
  ghost predicate Inner(p: Parser, h: nat, q: Parser) {
    && h < |p.stack| && |q.stack| == |p.stack| - h && q.state == p.state
    && (p.state == PsDictAfterKey || p.state == PsDictAfterColon ==> q.dictKey == p.dictKey)
    && forall i :: 0 <= i < |q.stack| ==> Alike(p.stack, h, q.stack, i)
  }

  predicate Alike(s: seq<Frame>, h: nat, z: seq<Frame>, i: nat)
    requires h + |z| <= |s| && i < |z|
  {
    && z[i].item == s[h + i].item
    && (z[i].back == if i == 0 then PsDone else s[h + i].back)
    && (i > 0 && z[i - 1].item.Dict? ==> z[i].key == s[h + i].key)
  }

  lemma InnerPush(p: Parser, h: nat, q: Parser, p': Parser, q': Parser, f: Frame, g: Frame)
    requires Inner(p, h, q) && p'.stack == p.stack + [f] && q'.stack == q.stack + [g] && q'.state == p'.state
    requires p'.state != PsDictAfterKey && p'.state != PsDictAfterColon
    requires f.item == g.item && f.back == g.back && (p.stack[|p.stack| - 1].item.Dict? ==> f.key == g.key)
    ensures Inner(p', h, q')
  {
    var n := |q.stack|;
    assert Alike(p.stack, h, q.stack, n - 1);
    forall i | 0 <= i < |q'.stack| ensures Alike(p'.stack, h, q'.stack, i) {
      if i < n {
        assert Alike(p.stack, h, q.stack, i);
      }
    }
  }

  lemma InnerAdd(s: seq<Frame>, h: nat, z: seq<Frame>, key: string, key': string, item: Json)
    requires z != [] && h + |z| == |s| && forall i :: 0 <= i < |z| ==> Alike(s, h, z, i)
    requires s[|s| - 1].item.Dict? ==> key == key'
    ensures var s', z' := AddToTop(s, key, item), AddToTop(z, key', item);
            forall i :: 0 <= i < |z'| ==> Alike(s', h, z', i)
  {
    var s', z' := AddToTop(s, key, item), AddToTop(z, key', item);
    var n := |z| - 1;
    assert Alike(s, h, z, n);
    assert z'[n].item == s'[h + n].item && z'[n].back == z[n].back && s'[h + n].back == s[h + n].back;
    assert z'[n].key == z[n].key && s'[h + n].key == s[h + n].key;
    hide Added, Container;
    forall i | 0 <= i < |z'| ensures Alike(s', h, z', i) {
      assert Alike(s, h, z, i);
    }
  }

  lemma PlaceInner(p: Parser, h: nat, q: Parser, item: Json)
    requires WellFormed(p) && p.state != PsTop && p.state != PsDone && Inner(p, h, q) && Place(p, item).Ok?
    ensures Place(q, item).Ok? && Inner(Place(p, item).value, h, Place(q, item).value)
  {
    hide Nested, Added;
    assert Alike(p.stack, h, q.stack, |q.stack| - 1);
    var p', q', s := Place(p, item).value, Place(q, item), AfterItem(p.state).value;
    if Container(item) {
      InnerPush(p, h, q, p', q'.value, Frame(s, item, p.dictKey), Frame(s, item, q.dictKey));
    } else {
      InnerAdd(p.stack, h, q.stack, p.dictKey, q.dictKey, item);
    }
  }

  lemma CloseInner(p: Parser, h: nat, q: Parser)
    requires WellFormed(p) && p.state != PsTop && p.state != PsDone && Inner(p, h, q)
    ensures Close(p).Ok? && Close(q).Ok?
    ensures if h == |p.stack| - 1 then Close(q) == Ok(q.(state := PsDone)) && q.stack[0].item == p.stack[h].item
            else Inner(Close(p).value, h, Close(q).value)
  {
    hide Nested, AddToTop, Container;
    var n := |q.stack| - 1;
    assert Alike(p.stack, h, q.stack, n);
    CloseIs(p);
    OpenOnes(p);
    if n > 0 {
      hide WellFormed;
      BackIs(p);
      InnerBelow(p.stack, h, q.stack);
    }
  }

  lemma InnerBelow(s: seq<Frame>, h: nat, z: seq<Frame>)
    requires |z| > 1 && h + |z| == |s| && forall i :: 0 <= i < |z| ==> Alike(s, h, z, i)
    ensures var n := |z| - 1;
            var s', z' := AddToTop(s[..h + n], s[h + n].key, s[h + n].item), AddToTop(z[..n], z[n].key, z[n].item);
            |z'| == n && |s'| == h + n && forall i :: 0 <= i < |z'| ==> Alike(s', h, z', i)
  {
    var n := |z| - 1;
    assert Alike(s, h, z, n) && Alike(s, h, z, n - 1);
    var below, base := s[..h + n], z[..n];
    forall i | 0 <= i < n ensures Alike(below, h, base, i) {
      assert Alike(s, h, z, i);
    }
    InnerAdd(below, h, base, s[h + n].key, z[n].key, s[h + n].item);
  }

  lemma BackIs(p: Parser)
    requires WellFormed(p) && p.state != PsTop && p.state != PsDone && |p.stack| > 1
    ensures var b := p.stack[|p.stack| - 1].back; b == PsDictAfterItem || b == PsArrayAfterItem
  {
    assert p.stack[|p.stack| - 1].back == Back(p.stack, |p.stack| - 1);
  }

  predicate Closing(kind: LexState) {
    kind == LsEndArray || kind == LsEndDict
  }

  // A token within an item does the same to both parsers. The end of frame h is the end of the inner one.
  lemma HandleInner(p: Parser, h: nat, q: Parser, kind: LexState, token: string)
    requires WellFormed(p) && p.state != PsTop && p.state != PsDone && Inner(p, h, q) && Handle(p, kind, token).Ok?
    ensures Handle(q, kind, token).Ok?
    ensures var q' := Handle(q, kind, token).value;
            if Closing(kind) && h == |p.stack| - 1 then
              q' == q.(state := PsDone) && q.stack[0].item == p.stack[h].item && |q.stack| == 1
            else Inner(Handle(p, kind, token).value, h, q')
  {
    hide Place, Close, Nested, Alike;
    match kind
    case LsBeginDict => PlaceInner(p, h, q, Dict([]));
    case LsBeginArray => PlaceInner(p, h, q, Array([]));
    case LsNumber => PlaceInner(p, h, q, Number(token));
    case LsAlpha => PlaceInner(p, h, q, Keyword(token).value);
    case LsAfterString =>
      if p.state != PsDictBegin && p.state != PsDictAfterComma {
        PlaceInner(p, h, q, Str(token));
      }
    case LsEndArray => CloseInner(p, h, q);
    case LsEndDict => CloseInner(p, h, q);
    case _ =>
  }

  // ---------------------------------------------------------------- every item

  // The text of the item, read with its place in the input, is complete and gives the item.
  ghost predicate Alone(all: string, it: Placed) {
    && it.start <= it.end <= |all|
    && LoneLows(all[it.start..it.end], it.start) <= LoneLows(all, 0)
    && var r := Run(START, all[it.start..it.end], it.start);
       r.Ok? && r.value.state == PsDone && r.value.stack != [] && r.value.stack[|r.value.stack| - 1].item == it.item
  }

  ghost predicate AllAlone(all: string, items: seq<Placed>) {
    forall i :: 0 <= i < |items| ==> Alone(all, items[i])
  }

  // For each frame of p there is a parser of its own, which has read the input from where the frame
  // starts.
  ghost predicate Tracked(all: string, p: Parser, starts: seq<nat>, qs: seq<Parser>, o: nat) {
    && |starts| == |p.stack| == |qs|
    && (p.state != PsDone ==> AllOpen(all, p, starts, qs, o))
  }

  ghost predicate AllOpen(all: string, p: Parser, starts: seq<nat>, qs: seq<Parser>, o: nat) {
    |qs| <= |starts| && forall i :: 0 <= i < |qs| ==> OpenAt(all, p, i, starts[i], qs[i], o)
  }

  lemma AllOpenPush(all: string, p: Parser, starts: seq<nat>, qs: seq<Parser>, o: nat, q: Parser, starts': seq<nat>)
    requires AllOpen(all, p, starts, qs, o) && |qs| < |starts'| && starts'[..|qs|] == starts[..|qs|]
    requires OpenAt(all, p, |qs|, starts'[|qs|], q, o)
    ensures AllOpen(all, p, starts', qs + [q], o)
  {
    hide OpenAt;
    forall i | 0 <= i < |qs| + 1 ensures OpenAt(all, p, i, starts'[i], (qs + [q])[i], o) {
      if i < |qs| {
        assert starts'[i] == starts'[..|qs|][i] == starts[i];
      }
    }
  }

  ghost predicate OpenAt(all: string, p: Parser, h: nat, s: nat, q: Parser, o: nat) {
    Inner(p, h, q) && Resumes(all, s, q, o)
  }

  lemma ResumesDone(all: string, s: nat, q: Parser, o: nat, it: Placed)
    requires Resumes(all, s, q, o) && it.start == s && it.end == o
    requires q.state == PsDone && q.stack != [] && q.stack[|q.stack| - 1].item == it.item
    ensures Alone(all, it)
  {
    hide Run, LoneLows;
    assert Goes(all, s, q, o, o);
    assert all[o..o] == "";
    RunNothing(q, o);
    NoLows(o);
  }

  // A parser that begins with the next token.
  lemma OpenNew(all: string, o: nat, q: Parser)
    requires o <= |all| && Lex(FRESH, all[o..], o).Ok? && TokenLows(FRESH, all[o..], o) <= LoneLows(all, 0)
    requires var t := Lex(FRESH, all[o..], o).value; Handle(START, t.kind, t.token) == Ok(q)
    ensures Resumes(all, TokenStart(all[o..], o), q, Lex(FRESH, all[o..], o).value.offset)
  {
    hide Lex, Handle, Run, TokenLows, LoneLows, TokenStart;
    var s := TokenStart(all[o..], o);
    Blanks(all, o);
    forall n | s <= n <= |all| ensures Goes(all, s, START, s, n) {
    }
    ResumesNext(all, s, START, s);
  }

  lemma {:induction false} Blanks(all: string, o: nat)
    requires o <= |all|
    ensures var s := TokenStart(all[o..], o);
            && s <= |all| && Lex(FRESH, all[s..], s) == Lex(FRESH, all[o..], o)
            && TokenLows(FRESH, all[s..], s) == TokenLows(FRESH, all[o..], o)
    decreases |all| - o
  {
    if o < |all| {
      Drop(all, o);
      LexNext(FRESH, all[o..], o);
      LowsStep(FRESH, all[o..], o);
      BlankStep(all[o], o);
      hide Lex, LexChar, TokenLows, TokenStart, LoneLow, Blank;
      if Blank(all[o]) {
        Blanks(all, o + 1);
      }
    }
  }

  lemma BlankStep(c: char, offset: nat)
    ensures Blank(c) ==> LexChar(FRESH, c, offset) == Used(FRESH) && !LoneLow(FRESH, c)
  {
  }

  // The next token can be read and handled.
  ghost predicate Reads(all: string, p: Parser, o: nat) {
    && o <= |all| && WellFormed(p)
    && Lex(FRESH, all[o..], o).Ok? && TokenLows(FRESH, all[o..], o) <= LoneLows(all, 0)
    && var t := Lex(FRESH, all[o..], o).value; Handle(p, t.kind, t.token).Ok?
  }

  ghost function Token(all: string, p: Parser, o: nat): Lexed
    requires Reads(all, p, o)
  {
    Lex(FRESH, all[o..], o).value
  }

  ghost function Next(all: string, p: Parser, o: nat): Parser
    requires Reads(all, p, o)
  {
    var t := Token(all, p, o);
    Handle(p, t.kind, t.token).value
  }

  // One token: all frames that stay are tracked on.
  lemma TrackedNext(all: string, p: Parser, starts: seq<nat>, qs: seq<Parser>, o: nat, i: nat) returns (q': Parser)
    requires Reads(all, p, o) && p.state != PsTop && p.state != PsDone && Tracked(all, p, starts, qs, o)
    requires i < |qs|
    ensures var t := Token(all, p, o);
            if Closing(t.kind) && i == |p.stack| - 1 then Alone(all, Placed(p.stack[i].item, starts[i], t.offset))
            else OpenAt(all, Next(all, p, o), i, starts[i], q', t.offset)
  {
    var t := Lex(FRESH, all[o..], o).value;
    assert OpenAt(all, p, i, starts[i], qs[i], o);
    hide Lex, Handle, TokenLows, LoneLows, Inner, Resumes, Tracked, WellFormed, Alone;
    HandleInner(p, i, qs[i], t.kind, t.token);
    ResumesNext(all, starts[i], qs[i], o);
    q' := Handle(qs[i], t.kind, t.token).value;
    if Closing(t.kind) && i == |p.stack| - 1 {
      ResumesDone(all, starts[i], q', t.offset, Placed(p.stack[i].item, starts[i], t.offset));
    }
  }

  // The first n frames.
  lemma {:induction false} TrackedOn(all: string, p: Parser, starts: seq<nat>, qs: seq<Parser>, o: nat, n: nat)
    returns (qs': seq<Parser>)
    requires Reads(all, p, o) && p.state != PsTop && p.state != PsDone && Tracked(all, p, starts, qs, o)
    requires n <= if Closing(Token(all, p, o).kind) then |qs| - 1 else |qs|
    ensures |qs'| == n && AllOpen(all, Next(all, p, o), starts, qs', Token(all, p, o).offset)
    decreases n
  {
    assert |qs| == |p.stack| == |starts|;
    qs' := [];
    if n > 0 {
      hide Reads, Token, Next, OpenAt, AllOpen, Tracked, Alone;
      qs' := TrackedOn(all, p, starts, qs, o, n - 1);
      var q := TrackedNext(all, p, starts, qs, o, n - 1);
      AllOpenPush(all, Next(all, p, o), starts, qs', Token(all, p, o).offset, q, starts);
      qs' := qs' + [q];
    }
  }

  predicate IsItem(p: Parser, kind: LexState, token: string) {
    ItemOf(kind, token).Some? && !(kind == LsAfterString && (p.state == PsDictBegin || p.state == PsDictAfterComma))
  }

  // A token starts an item, ends one, or does neither.
  lemma EffectOf(p: Parser, m: Marks, kind: LexState, token: string, start: nat, end: nat)
    requires Handle(p, kind, token).Ok?
    ensures p.state == PsDone ==> kind == LsTop
    ensures IsItem(p, kind, token) ==>
              var item := ItemOf(kind, token).value;
              && Handle(p, kind, token) == Place(p, item) && Handle(START, kind, token) == Place(START, item)
              && Mark(p, m, kind, token, start, end) == MarkPlace(p, m, item, start, end)
              && p.state != PsDone && !Closing(kind)
              && (item.Dict? ==> item == Dict([])) && (item.Array? ==> item == Array([]))
    ensures Closing(kind) ==>
              && Handle(p, kind, token) == Close(p) && Mark(p, m, kind, token, start, end) == MarkClose(p, m, end)
              && p.state != PsTop && p.state != PsDone
    ensures !IsItem(p, kind, token) && !Closing(kind) ==>
              var p' := Handle(p, kind, token).value;
              && Mark(p, m, kind, token, start, end) == m && p'.stack == p.stack
              && (p.state == PsTop || p.state == PsDone ==> p' == p)
  {
    hide Place, Close, MarkPlace, MarkClose;
  }

  // An item that starts: its own parser, and its text if it is complete.
  lemma PlacedNew(all: string, p: Parser, o: nat, item: Json) returns (q: Parser)
    requires Reads(all, p, o) && p.state != PsDone && Place(p, item).Ok?
    requires var t := Token(all, p, o); Handle(START, t.kind, t.token) == Place(START, item)
    requires (item.Dict? ==> item == Dict([])) && (item.Array? ==> item == Array([]))
    ensures var t, s := Token(all, p, o), TokenStart(all[o..], o);
            if Container(item) then OpenAt(all, Place(p, item).value, |p.stack|, s, q, t.offset)
            else Alone(all, Placed(item, s, t.offset))
  {
    q := Place(START, item).value;
    var t, s := Lex(FRESH, all[o..], o).value, TokenStart(all[o..], o);
    assert Container(item) ==> Inner(Place(p, item).value, |p.stack|, q) by {
      hide Lex, Handle, TokenLows, LoneLows, TokenStart, Added, Nested;
      var f := Frame(PsDone, item, "");
      assert [] + [f] == [f];
    }
    assert !Container(item) ==> q.state == PsDone && q.stack == [Frame(PsDone, item, "")];
    hide Lex, Handle, TokenLows, LoneLows, TokenStart, Resumes, Inner, Alone, Place, WellFormed;
    OpenNew(all, o, q);
    if !Container(item) {
      ResumesDone(all, s, q, t.offset, Placed(item, s, t.offset));
    }
  }

  // One token.
  lemma Step(all: string, p: Parser, m: Marks, qs: seq<Parser>, o: nat) returns (qs': seq<Parser>)
    requires Reads(all, p, o) && Tracked(all, p, m.starts, qs, o) && AllAlone(all, m.placed)
    ensures var t := Token(all, p, o);
            var m' := Mark(p, m, t.kind, t.token, TokenStart(all[o..], o), t.offset);
            Tracked(all, Next(all, p, o), m'.starts, qs', t.offset) && AllAlone(all, m'.placed)
  {
    var t := Token(all, p, o);
    hide Lex, Handle, Mark, TokenLows, LoneLows, OpenAt, WellFormed, AllAlone;
    EffectOf(p, m, t.kind, t.token, TokenStart(all[o..], o), t.offset);
    if IsItem(p, t.kind, t.token) {
      qs' := StepPlace(all, p, m, qs, o);
    } else if Closing(t.kind) {
      qs' := StepClose(all, p, m, qs, o);
    } else if p.state == PsTop || p.state == PsDone {
      qs' := qs;
    } else {
      qs' := TrackedOn(all, p, m.starts, qs, o, |qs|);
    }
  }

  lemma StepPlace(all: string, p: Parser, m: Marks, qs: seq<Parser>, o: nat) returns (qs': seq<Parser>)
    requires Reads(all, p, o) && Tracked(all, p, m.starts, qs, o) && AllAlone(all, m.placed)
    requires IsItem(p, Token(all, p, o).kind, Token(all, p, o).token)
    ensures var t := Token(all, p, o);
            var m' := MarkPlace(p, m, ItemOf(t.kind, t.token).value, TokenStart(all[o..], o), t.offset);
            Tracked(all, Next(all, p, o), m'.starts, qs', t.offset) && AllAlone(all, m'.placed)
  {
    hide Lex, Handle, TokenLows, LoneLows, OpenAt, Alone, TokenStart, ItemOf, Closing;
    var t, s := Token(all, p, o), TokenStart(all[o..], o);
    var item := ItemOf(t.kind, t.token).value;
    EffectOf(p, m, t.kind, t.token, s, t.offset);
    assert Next(all, p, o) == Place(p, item).value && Place(p, item).Ok?;
    var q := PlacedNew(all, p, o, item);
    PlacedStack(p, item);
    hide WellFormed, Place, Reads, Token, Next;
    qs' := [];
    if p.state != PsTop {
      qs' := TrackedOn(all, p, m.starts, qs, o, |qs|);
    }
    if Container(item) {
      AllOpenPush(all, Next(all, p, o), m.starts, qs', t.offset, q, m.starts + [s]);
      qs' := qs' + [q];
    } else if p.state == PsTop {
      qs' := [q];
    }
  }

  lemma PlacedStack(p: Parser, item: Json)
    requires WellFormed(p) && p.state != PsDone && Place(p, item).Ok?
    ensures var p' := Place(p, item).value;
            |p'.stack| == |p.stack| + (if Container(item) || p.state == PsTop then 1 else 0)
    ensures p.state == PsTop ==> p.stack == [] && (!Container(item) ==> Place(p, item).value.state == PsDone)
  {
    hide Added, Nested;
  }

  lemma StepClose(all: string, p: Parser, m: Marks, qs: seq<Parser>, o: nat) returns (qs': seq<Parser>)
    requires Reads(all, p, o) && Tracked(all, p, m.starts, qs, o) && AllAlone(all, m.placed)
    requires p.state != PsTop && p.state != PsDone && Closing(Token(all, p, o).kind) && Ok(Next(all, p, o)) == Close(p)
    ensures var t := Token(all, p, o);
            var m' := MarkClose(p, m, t.offset);
            Tracked(all, Next(all, p, o), m'.starts, qs', t.offset) && AllAlone(all, m'.placed)
  {
    hide Lex, Handle, TokenLows, LoneLows, OpenAt, Alone, Closing, AddToTop, Nested;
    CloseIs(p);
    OpenOnes(p);
    if |p.stack| > 1 {
      BelowSize(p);
    }
    hide Reads, Token, Next, WellFormed, Close;
    var n := |qs| - 1;
    var _ := TrackedNext(all, p, m.starts, qs, o, n);
    if n == 0 {
      qs' := qs;
    } else {
      qs' := TrackedOn(all, p, m.starts, qs, o, n);
    }
  }

  lemma BelowSize(p: Parser)
    requires WellFormed(p) && p.state != PsDone && p.state != PsTop && |p.stack| > 1
    ensures var below, f := p.stack[..|p.stack| - 1], p.stack[|p.stack| - 1];
            |AddToTop(below, f.key, f.item)| == |p.stack| - 1
  {
  }

  lemma {:induction false} RunAlone(all: string, p: Parser, m: Marks, qs: seq<Parser>, o: nat)
    requires o <= |all| && WellFormed(p) && Tracked(all, p, m.starts, qs, o) && AllAlone(all, m.placed)
    requires Run(p, all[o..], o).Ok? && LoneLows(all[o..], o) <= LoneLows(all, 0)
    ensures AllAlone(all, RunMarks(p, m, all[o..], o).placed)
    decreases |all| - o
  {
    ReadsNext(all, p, o);
    var t, p' := Token(all, p, o), Next(all, p, o);
    var m' := Mark(p, m, t.kind, t.token, TokenStart(all[o..], o), t.offset);
    var qs' := Step(all, p, m, qs, o);
    hide Lex, Handle, Mark, LoneLows, TokenLows, TokenStart, AllAlone, Tracked, WellFormed;
    RunMarksNext(p, m, all[o..], o);
    hide RunMarks, Run, Next, Token;
    if !t.done {
      RunAlone(all, p', m', qs', t.offset);
    }
  }

  lemma ReadsNext(all: string, p: Parser, o: nat)
    requires o <= |all| && WellFormed(p) && Run(p, all[o..], o).Ok? && LoneLows(all[o..], o) <= LoneLows(all, 0)
    ensures Reads(all, p, o)
    ensures var t, p' := Token(all, p, o), Next(all, p, o);
            && o <= t.offset <= |all| && t.rest == all[t.offset..] && WellFormed(p')
            && (!t.done ==>
                  && t.offset > o && Run(p', all[t.offset..], t.offset) == Run(p, all[o..], o)
                  && LoneLows(all[t.offset..], t.offset) <= LoneLows(all, 0))
  {
    hide Lex, Handle, Run, TokenLows, LoneLows, WellFormed;
    RunNext(p, all[o..], o);
    LowsNext(all[o..], o);
    var t := Lex(FRESH, all[o..], o).value;
    HandleKeeps(p, t.kind, t.token);
    TokenCut(FRESH, all[o..], o, |all| - o);
    assert all[o..][|all| - o - |t.rest|..] == all[t.offset..];
    Shorter(all[o..], o);
  }

  lemma Shorter(input: string, offset: nat)
    requires Lex(FRESH, input, offset).Ok?
    ensures var t := Lex(FRESH, input, offset).value; |t.rest| <= |input| && (!t.done ==> |t.rest| < |input|)
  {
  }

  lemma RunMarksNext(p: Parser, m: Marks, input: string, offset: nat)
    requires Run(p, input, offset).Ok?
    ensures Lex(FRESH, input, offset).Ok?
    ensures var t := Lex(FRESH, input, offset).value;
            && Handle(p, t.kind, t.token).Ok?
            && var m' := Mark(p, m, t.kind, t.token, TokenStart(input, offset), t.offset);
               RunMarks(p, m, input, offset) ==
               if t.done then m' else RunMarks(Handle(p, t.kind, t.token).value, m', t.rest, t.offset)
  {
    hide Lex, Handle, Mark, TokenStart;
  }

  // The recorded part of the input is a text of the item, wherever the item is in the input: with one
  // exception, a low surrogate with no high one, which is let through at offset 6 and nowhere else.
  lemma ItemsParseAlone(input: string, it: Placed)
    requires ParseText(input).Ok? && it in Items(input)
    ensures it.start <= it.end <= |input|
    ensures var text := input[it.start..it.end];
            ParseText(text) ==
            if it.start > 0 && LoneLows(text, it.start) != {} then Err(Malformed) else Ok(it.item)
    ensures LoneLows(input[it.start..it.end], it.start) <= LoneLows(input, 0) <= {6}
  {
    ItemAlone(input, it);
    ParsesFrom(input, it);
    hide LoneLows;
    if it.start > 0 {
      hide Alone;
      AloneMoved(input, it);
    }
  }

  lemma ItemAlone(input: string, it: Placed)
    requires ParseText(input).Ok? && it in Items(input)
    ensures Alone(input, it) && LoneLows(input, 0) <= {6}
  {
    assert input[0..] == input;
    hide RunMarks, Run, LoneLows, Alone;
    RunAlone(input, START, NO_MARKS, [], 0);
    var i :| 0 <= i < |Items(input)| && Items(input)[i] == it;
    RunLows(START, input, 0);
  }

  lemma ParsesFrom(input: string, it: Placed)
    requires Alone(input, it)
    ensures it.start == 0 ==> ParseText(input[it.start..it.end]) == Ok(it.item)
  {
    hide Run, LoneLows;
  }

  lemma AloneMoved(input: string, it: Placed)
    requires Alone(input, it) && it.start > 0
    ensures var text := input[it.start..it.end];
            ParseText(text) == if LoneLows(text, it.start) != {} then Err(Malformed) else Ok(it.item)
  {
    hide Run, LoneLows;
    RunMoved(START, input[it.start..it.end], it.start, it.start);
  }

  // An input that is parsed has such a surrogate at offset 6 or has none.
  lemma {:induction false} RunLows(p: Parser, input: string, offset: nat)
    requires Run(p, input, offset).Ok?
    ensures LoneLows(input, offset) <= {6}
    decreases |input|
  {
    hide Lex, TokenLows, Handle;
    LowsAtSix(FRESH, input, offset);
    var t := Lex(FRESH, input, offset).value;
    LowsNext(input, offset);
    RunNext(p, input, offset);
    hide LoneLows, Run;
    if !t.done {
      RunLows(Handle(p, t.kind, t.token).value, t.rest, t.offset);
    }
  }

  // Without such surrogates every item stands alone.
  lemma AllItemsParseAlone(input: string)
    requires ParseText(input).Ok? && LoneLows(input, 0) == {}
    ensures forall it :: it in Items(input) ==>
              it.start <= it.end <= |input| && ParseText(input[it.start..it.end]) == Ok(it.item)
  {
    hide ParseText, LoneLows, Items;
    forall it | it in Items(input)
      ensures it.start <= it.end <= |input| && ParseText(input[it.start..it.end]) == Ok(it.item)
    {
      ItemsParseAlone(input, it);
    }
  }

  // ---------------------------------------------------------------- nothing goes unrecorded

  // The value and all values within it are items.
  ghost predicate Recorded(j: Json, items: seq<Placed>)
    decreases j
  {
    && (exists i :: 0 <= i < |items| && items[i].item == j)
    && forall k :: 0 <= k < Size(j) ==> Recorded(Child(j, k), items)
  }

  ghost predicate KidsRecorded(j: Json, items: seq<Placed>) {
    forall k :: 0 <= k < Size(j) ==> Recorded(Child(j, k), items)
  }

  lemma {:induction false} RecordedMore(j: Json, items: seq<Placed>, it: Placed)
    requires KidsRecorded(j, items)
    ensures KidsRecorded(j, items + [it]) && (Recorded(j, items) ==> Recorded(j, items + [it]))
    decreases j
  {
    var more := items + [it];
    forall k | 0 <= k < Size(j) ensures Recorded(Child(j, k), more) {
      assert Recorded(Child(j, k), items);
      RecordedMore(Child(j, k), items, it);
    }
    if Recorded(j, items) {
      var i :| 0 <= i < |items| && items[i].item == j;
      assert more[i].item == j;
    }
  }

  lemma {:induction false} PutFrom(ms: seq<Member>, m: Member)
    ensures forall x :: x in Put(ms, m) ==> x == m || x in ms
  {
    if ms != [] && ms[0].key != m.key && !Less(m.key, ms[0].key) {
      PutFrom(ms[1..], m);
    }
  }

  lemma AddedRecorded(f: Frame, key: string, item: Json, items: seq<Placed>)
    requires KidsRecorded(f.item, items) && Recorded(item, items)
    ensures KidsRecorded(Added(f, key, item).item, items)
  {
    var j, j' := f.item, Added(f, key, item).item;
    if j.Dict? {
      PutFrom(j.members, Member(Encode(key), item));
    }
    hide Put, Encode;
    forall k | 0 <= k < Size(j') ensures Recorded(Child(j', k), items) {
      if j.Dict? && j'.members[k] != Member(Encode(key), item) {
        assert j'.members[k] in j'.members;
        var i :| 0 <= i < |j.members| && j.members[i] == j'.members[k];
        assert Child(j, i) == Child(j', k);
      } else if j.Array? && k < |j.items| {
        assert Child(j, k) == Child(j', k);
      }
    }
  }

  ghost predicate StackRecorded(p: Parser, items: seq<Placed>) {
    && (forall i :: 0 <= i < |p.stack| ==> KidsRecorded(p.stack[i].item, items))
    && (p.state == PsDone ==> p.stack != [] && Recorded(p.stack[|p.stack| - 1].item, items))
  }

  lemma AddToTopRecorded(stack: seq<Frame>, key: string, item: Json, items: seq<Placed>, it: Placed)
    requires stack != [] && it.item == item && KidsRecorded(item, items)
    requires forall i :: 0 <= i < |stack| ==> KidsRecorded(stack[i].item, items)
    ensures var s := AddToTop(stack, key, item);
            forall i :: 0 <= i < |s| ==> KidsRecorded(s[i].item, items + [it])
  {
    var s, n, more := AddToTop(stack, key, item), |stack| - 1, items + [it];
    forall i | 0 <= i < |s| ensures KidsRecorded(s[i].item, more) {
      RecordedMore(stack[i].item, items, it);
      if i == n {
        ItemRecorded(items, it);
        AddedRecorded(stack[n], key, item, more);
      }
    }
  }

  lemma ItemRecorded(items: seq<Placed>, it: Placed)
    requires KidsRecorded(it.item, items)
    ensures Recorded(it.item, items + [it])
  {
    RecordedMore(it.item, items, it);
    assert (items + [it])[|items|].item == it.item;
  }

  lemma PlaceRecorded(p: Parser, m: Marks, item: Json, start: nat, end: nat)
    requires WellFormed(p) && StackRecorded(p, m.placed) && Place(p, item).Ok? && Size(item) == 0
    ensures StackRecorded(Place(p, item).value, MarkPlace(p, m, item, start, end).placed)
  {
    var it := Placed(item, start, end);
    assert KidsRecorded(item, m.placed);
    if !Container(item) {
      ItemRecorded(m.placed, it);
      assert KidsRecorded(item, m.placed + [it]);
      hide Recorded, KidsRecorded, Nested, Added, Fits, AddToTop;
      if p.stack != [] {
        AddToTopRecorded(p.stack, p.dictKey, item, m.placed, it);
      }
    }
  }

  lemma CloseRecorded(p: Parser, m: Marks, end: nat)
    requires WellFormed(p) && StackRecorded(p, m.placed) && |m.starts| == |p.stack|
    requires p.state != PsTop && p.state != PsDone
    ensures Close(p).Ok? && StackRecorded(Close(p).value, MarkClose(p, m, end).placed)
  {
    hide Recorded, KidsRecorded, Nested, Added, Fits, AddToTop;
    CloseIs(p);
    OpenOnes(p);
    hide WellFormed, Close;
    var n := |p.stack| - 1;
    var f, it := p.stack[n], Placed(p.stack[n].item, m.starts[n], end);
    if n == 0 {
      ItemRecorded(m.placed, it);
      RecordedMore(f.item, m.placed, it);
    } else {
      BackIs(p);
      AddToTopRecorded(p.stack[..n], f.key, f.item, m.placed, it);
    }
  }

  lemma {:induction false} RunRecorded(p: Parser, m: Marks, input: string, offset: nat)
    requires WellFormed(p) && StackRecorded(p, m.placed) && |m.starts| == |p.stack| && Run(p, input, offset).Ok?
    ensures StackRecorded(Run(p, input, offset).value, RunMarks(p, m, input, offset).placed)
    decreases |input|
  {
    RunNext(p, input, offset);
    RunMarksNext(p, m, input, offset);
    Shorter(input, offset);
    var t, start := Lex(FRESH, input, offset).value, TokenStart(input, offset);
    hide Lex, Handle, Mark, TokenStart, Run, RunMarks, WellFormed, StackRecorded, MarkPlace, MarkClose, Place, Close;
    HandleKeeps(p, t.kind, t.token);
    MarkKeeps(p, m, t.kind, t.token, start, t.offset);
    TokenRecorded(p, m, t.kind, t.token, start, t.offset);
    if !t.done {
      var p' := Handle(p, t.kind, t.token).value;
      RunRecorded(p', Mark(p, m, t.kind, t.token, start, t.offset), t.rest, t.offset);
    }
  }

  lemma TokenRecorded(p: Parser, m: Marks, kind: LexState, token: string, start: nat, end: nat)
    requires WellFormed(p) && StackRecorded(p, m.placed) && |m.starts| == |p.stack| && Handle(p, kind, token).Ok?
    ensures StackRecorded(Handle(p, kind, token).value, Mark(p, m, kind, token, start, end).placed)
  {
    EffectOf(p, m, kind, token, start, end);
    if IsItem(p, kind, token) {
      hide Handle, Mark, WellFormed, StackRecorded, MarkPlace, Place, ItemOf;
      PlaceRecorded(p, m, ItemOf(kind, token).value, start, end);
    } else if Closing(kind) {
      hide Handle, Mark, WellFormed, StackRecorded, MarkClose, Close;
      CloseRecorded(p, m, end);
    } else {
      hide Recorded, KidsRecorded, Mark;
    }
  }

  // The result of a parse and every value within it is among the items.
  lemma ResultRecorded(input: string)
    requires ParseText(input).Ok?
    ensures Recorded(ParseText(input).value, Items(input))
  {
    hide Run, RunMarks;
    RunRecorded(START, NO_MARKS, input, 0);
  }
}
