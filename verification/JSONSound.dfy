/**
 * JSONParser of libqpdf/JSON.cc reads nothing but texts of RFC 8259, as long as no low surrogate is without a
 * high one: what it accepts is a text of a document, and what it returns is the value of that document.
 */
module JSONSound {
  import opened Wrappers
  import opened JSONModel
  import opened JSONLexer
  import opened JSONParser
  import opened JSONOffsets
  import opened JSONRoundTrip
  import opened JSONGrammar
  import opened JSONTokens
  import W = JSONWritten
  import Lit = JSONLiterals

  // ---------------------------------------------------------------- one token

  lemma {:induction false} QuoteKinds(l: Lexer, input: string, offset: nat)
    requires InQuotes(l.state) && Lex(l, input, offset).Ok?
    ensures var k := Lex(l, input, offset).value.kind; k == LsAfterString || InQuotes(k)
    decreases |input|
  {
    hide Lex, LexChar;
    QuoteEnds(l);
    if input == "" {
      LexEnd(l, offset);
    } else {
      LexNext(l, input, offset);
      QuoteStep(l, input[0], offset);
      var s := LexChar(l, input[0], offset);
      if s.Used? {
        QuoteKinds(s.l, input[1..], offset + 1);
      }
    }
  }

  lemma QuoteEnds(l: Lexer)
    requires InQuotes(l.state)
    ensures AtEnd(l).Ok? ==> InQuotes(AtEnd(l).value)
  {
  }

  lemma QuoteStep(l: Lexer, c: char, offset: nat)
    requires InQuotes(l.state)
    ensures var s := LexChar(l, c, offset);
            (s.Used? ==> InQuotes(s.l.state)) && (s.Returned? ==> s.l.state == LsAfterString)
  {
    hide LexNumber, LexTop, Utf8;
  }

  // The kinds of tokens that the parser takes, other than the end.
  predicate Usable(t: Lexed) {
    t.kind in {LsComma, LsColon, LsBeginDict, LsEndDict, LsBeginArray, LsEndArray, LsNumber, LsAfterString}
    || (t.kind == LsAlpha && Keyword(t.token).Some?)
  }

  ghost predicate IsToken(tok: Tok, t: Lexed) {
    Fine(tok) && JSONGrammar.KindOf(tok) == t.kind && JSONGrammar.TokenOf(tok) == t.token
  }

  // A token that begins here.
  lemma TokenHere(input: string, offset: nat, t: Lexed) returns (tok: Tok)
    requires input != "" && !Blank(input[0]) && Lex(FRESH, input, offset) == Ok(t) && Usable(t)
    requires TokenLows(FRESH, input, offset) == {}
    ensures IsToken(tok, t) && input == Spelled(tok) + t.rest
  {
    var c, rest := input[0], input[1..];
    LexNext(FRESH, input, offset);
    LowsStep(FRESH, input, offset);
    FirstChar(c, offset);
    hide Lex, LexChar, TokenLows, Usable, Fine, Lit.AllAllowed, Lit.AllSaid, IsNumber, LoneLow, GoodSoFar;
    assert input == [c] + rest;
    if c in ",:{}[]" {
      tok := Sign(c);
      SignIs(c, t);
    } else if c == '\"' {
      tok := StringHere(rest, offset + 1, t);
      assert input == Spelled(tok) + t.rest;
    } else {
      tok := WordHere(c, rest, offset, t);
    }
  }

  lemma WordHere(c: char, rest: string, offset: nat, t: Lexed) returns (tok: Tok)
    requires var s := LexChar(FRESH, c, offset);
             && s.Used? && Plainly(s.l.state) && GoodSoFar(s.l) && s.l.token == [c]
             && Lex(s.l, rest, offset + 1) == Ok(t) && Usable(t)
    ensures IsToken(tok, t) && [c] + rest == Spelled(tok) + t.rest
  {
    hide Lex, LexChar, Usable, IsToken, Spelled, GoodSoFar;
    var w := PlainRest(LexChar(FRESH, c, offset).l, rest, offset + 1);
    assert [c] + w == t.token && [c] + rest == t.token + t.rest;
    tok := WordIs(t);
  }

  lemma FirstChar(c: char, offset: nat)
    requires !Blank(c) && !LexChar(FRESH, c, offset).Failed?
    ensures var s := LexChar(FRESH, c, offset);
            if c in ",:{}[]" then s == Returned(FRESH.IgnoreTo(JSONGrammar.KindOf(Sign(c))))
            else if c == '\"' then s == Used(FRESH.IgnoreTo(LsString))
            else s.Used? && Plainly(s.l.state) && GoodSoFar(s.l) && s.l.token == [c]
  {
    if c !in ",:{}[]" && c != '\"' {
      var l := LexChar(FRESH, c, offset).l;
      assert "" + [c] == [c];
      if l.state == LsNumberMinus {
        assert NumberSoFar(l.state, l.token, "-", "", "", "");
      } else if l.state != LsAlpha {
        assert NumberSoFar(l.state, l.token, "", [c], "", "");
      }
    }
  }

  lemma SignIs(c: char, t: Lexed)
    requires c in ",:{}[]" && t.kind == JSONGrammar.KindOf(Sign(c)) && t.token == ""
    ensures IsToken(Sign(c), t)
  {
  }

  lemma StringHere(rest: string, offset: nat, t: Lexed) returns (tok: Tok)
    requires Lex(FRESH.IgnoreTo(LsString), rest, offset) == Ok(t) && Usable(t) && offset >= 1
    requires TokenLows(FRESH.IgnoreTo(LsString), rest, offset) == {}
    ensures IsToken(tok, t) && ['\"'] + rest == Spelled(tok) + t.rest
  {
    hide Lex, TokenLows, Lit.AllAllowed, Lit.AllSaid, Lit.Body, IsToken, Spelled, Usable;
    var l := FRESH.IgnoreTo(LsString);
    QuoteKinds(l, rest, offset);
    UsableQuotes(t);
    var ps := StringRest(l, rest, offset, t);
    tok := Scalar(DStr(ps));
    assert "" + Lit.AllSaid(ps) == Lit.AllSaid(ps);
    QuotedIs(ps, t);
    assert ['\"'] + (Lit.Body(ps) + (['\"'] + t.rest)) == "\"" + Lit.Body(ps) + "\"" + t.rest;
  }

  lemma UsableQuotes(t: Lexed)
    requires Usable(t) && (t.kind == LsAfterString || InQuotes(t.kind))
    ensures t.kind == LsAfterString
  {
  }

  lemma QuotedIs(ps: seq<Lit.Piece>, t: Lexed)
    requires Lit.AllAllowed(ps) && t.kind == LsAfterString && t.token == Lit.AllSaid(ps)
    ensures IsToken(Scalar(DStr(ps)), t) && Spelled(Scalar(DStr(ps))) == "\"" + Lit.Body(ps) + "\""
  {
    hide Lit.AllAllowed, Lit.AllSaid, Lit.Body;
  }

  lemma WordIs(t: Lexed) returns (tok: Tok)
    requires Usable(t)
    requires (t.kind == LsAlpha && Letters(t.token)) || (t.kind == LsNumber && IsNumber(t.token))
    ensures IsToken(tok, t) && Spelled(tok) == t.token
  {
    tok := if t.kind == LsNumber then Scalar(DNum(t.token)) else if t.token == "true" then Scalar(DTrue)
           else if t.token == "false" then Scalar(DFalse) else Scalar(DNull);
  }

  // Blanks come before it, or nothing comes but blanks.
  lemma {:induction false} TokenTaken(input: string, offset: nat, t: Lexed) returns (gap: string, tok: Tok)
    requires Lex(FRESH, input, offset) == Ok(t) && TokenLows(FRESH, input, offset) == {}
    requires t.kind == LsTop || Usable(t)
    ensures Lit.AllBlank(gap)
    ensures t.kind == LsTop ==> input == gap && t.done
    ensures t.kind != LsTop ==> IsToken(tok, t) && input == gap + (Spelled(tok) + t.rest)
    decreases |input|
  {
    hide Lex, LexChar, TokenLows, Usable, IsToken, Spelled;
    tok := Sign(',');
    gap := "";
    LexEnd(FRESH, offset);
    NoneOrTop(t);
    if input == "" {
    } else if Blank(input[0]) {
      LexNext(FRESH, input, offset);
      LowsStep(FRESH, input, offset);
      BlankStep(input[0], offset);
      gap, tok := TokenTaken(input[1..], offset + 1, t);
      gap := [input[0]] + gap;
      assert input == [input[0]] + input[1..];
    } else {
      NotTop(input, offset);
      tok := TokenHere(input, offset, t);
      assert input == "" + input;
    }
  }

  lemma NoneOrTop(t: Lexed)
    ensures Usable(t) ==> t.kind != LsTop
    ensures AtEnd(FRESH) == Ok(LsTop)
  {
  }

  // Once a token has begun it is one.
  lemma NotTop(input: string, offset: nat)
    requires input != "" && !Blank(input[0]) && Lex(FRESH, input, offset).Ok?
    ensures Lex(FRESH, input, offset).value.kind != LsTop
  {
    LexNext(FRESH, input, offset);
    FirstChar(input[0], offset);
    var s := LexChar(FRESH, input[0], offset);
    hide Lex, LexChar;
    if s.Used? {
      if InQuotes(s.l.state) {
        QuoteKinds(s.l, input[1..], offset + 1);
      } else {
        var _ := PlainRest(s.l, input[1..], offset + 1);
      }
    }
  }

  // ---------------------------------------------------------------- containers that are open

  // A container as far as it has been read, and the key of the member that comes next.
  datatype Level = Level(d: Doc, key: seq<Lit.Piece>)

  function Comma(d: Doc): seq<Tok> {
    if Count(d) > 0 then [Sign(',')] else []
  }

  // Up to the end of its last item.
  function Head(d: Doc): seq<Tok> {
    [Sign(if d.DObj? then '{' else '[')] + TokensOf(d, Count(d))
  }

  // What stands before its next item.
  function Lead(l: Level): seq<Tok> {
    Comma(l.d) + if l.d.DObj? then [Scalar(DStr(l.key)), Sign(':')] else []
  }

  function Ahead(ls: seq<Level>): seq<Tok> {
    if ls == [] then [] else Ahead(ls[..|ls| - 1]) + (Head(ls[|ls| - 1].d) + Lead(ls[|ls| - 1]))
  }

  ghost predicate Good(l: Level) {
    (l.d.DList? || l.d.DObj?) && ProperParts(l.d, Count(l.d)) && Lit.AllAllowed(l.key)
  }

  ghost predicate AllGood(ls: seq<Level>) {
    forall i :: 0 <= i < |ls| ==> Good(ls[i])
  }

  // What the stack holds are their values, and the keys that they are for.
  ghost predicate Same(stack: seq<Frame>, ls: seq<Level>) {
    && |stack| == |ls|
    && AllGood(ls)
    && (forall i :: 0 <= i < |ls| ==> stack[i].item == Parts(ls[i].d, Count(ls[i].d)))
    && (forall i :: 0 < i < |ls| && ls[i - 1].d.DObj? ==> stack[i].key == Lit.AllSaid(ls[i - 1].key))
  }

  // The state says how far the innermost one has been read.
  ghost predicate Stands(p: Parser, l: Level)
    requires Lit.AllAllowed(l.key)
  {
    match p.state
    case PsDictBegin => l.d.DObj? && Count(l.d) == 0
    case PsDictAfterItem => l.d.DObj? && Count(l.d) > 0
    case PsDictAfterComma => l.d.DObj? && Count(l.d) > 0
    case PsDictAfterKey => l.d.DObj? && p.dictKey == Lit.AllSaid(l.key)
    case PsDictAfterColon => l.d.DObj? && p.dictKey == Lit.AllSaid(l.key)
    case PsArrayBegin => l.d.DList? && Count(l.d) == 0
    case PsArrayAfterItem => l.d.DList? && Count(l.d) > 0
    case PsArrayAfterComma => l.d.DList? && Count(l.d) > 0
    case _ => false
  }

  function Pending(s: ParserState, l: Level): seq<Tok> {
    match s
    case PsDictAfterComma => [Sign(',')]
    case PsArrayAfterComma => [Sign(',')]
    case PsDictAfterKey => Comma(l.d) + [Scalar(DStr(l.key))]
    case PsDictAfterColon => Lead(l)
    case _ => []
  }

  // After these tokens the parser is in this state.
  ghost predicate At(p: Parser, ls: seq<Level>, ts: seq<Tok>) {
    if ls == [] then p.state == PsTop && p.stack == [] && ts == []
    else
      var n := |ls| - 1;
      Same(p.stack, ls) && Stands(p, ls[n]) && ts == Ahead(ls[..n]) + (Head(ls[n].d) + Pending(p.state, ls[n]))
  }

  ghost predicate DoneAt(p: Parser, d: Doc, ts: seq<Tok>) {
    p.state == PsDone && Proper(d) && ts == Tokens(d) && |p.stack| == 1 && p.stack[0].item == Value(d)
  }

  // ---------------------------------------------------------------- one more item

  lemma HeadMore(l: Level, x: Doc)
    requires Good(l)
    ensures var m := W.More(l.d, l.key, x);
            && Count(m) == Count(l.d) + 1 && (m.DObj? <==> l.d.DObj?) && Head(m) == Head(l.d) + Lead(l) + Tokens(x)
  {
    hide ProperParts, Tokens, TokensOf, LeadOf, Lead, Lit.AllAllowed, W.More;
    var n := Count(l.d);
    var m := W.More(l.d, l.key, x);
    W.MoreKeeps(l.d, l.key, x, n);
    W.LastOf(l.d, l.key, x);
    LeadMore(l, x);
    OneMoreItem(m, n);
    var open := [Sign(if m.DObj? then '{' else '[')];
    assert Head(m) == open + TokensOf(m, n + 1) && Head(l.d) == open + TokensOf(m, n);
    hide Head;
    FourJoined(open, TokensOf(m, n), LeadOf(m, n), Tokens(x));
  }

  lemma LeadMore(l: Level, x: Doc)
    requires l.d.DList? || l.d.DObj?
    ensures var m := W.More(l.d, l.key, x); Count(l.d) < Count(m) && LeadOf(m, Count(l.d)) == Lead(l)
  {
  }

  lemma OneMoreItem(m: Doc, n: nat)
    requires n < Count(m)
    ensures TokensOf(m, n + 1) == TokensOf(m, n) + LeadOf(m, n) + Tokens(Sub(m, n))
  {
    hide LeadOf, Tokens;
  }

  lemma FourJoined(a: seq<Tok>, b: seq<Tok>, c: seq<Tok>, d: seq<Tok>)
    ensures a + (b + c + d) == a + b + c + d
  {
  }

  lemma PartsMore(l: Level, x: Doc)
    requires Good(l) && Proper(x)
    ensures var m := W.More(l.d, l.key, x);
            && Good(Level(m, []))
            && Parts(m, Count(m)) == if l.d.DList? then Array(Parts(l.d, Count(l.d)).items + [Value(x)])
                                     else AddMember(Parts(l.d, Count(l.d)), Lit.AllSaid(l.key), Value(x))
  {
    hide Parts, ProperParts, Proper, Value, Lit.AllAllowed, Lit.AllSaid, W.More, AddMember;
    var n := Count(l.d);
    var m := W.More(l.d, l.key, x);
    W.MoreKeeps(l.d, l.key, x, n);
    W.LastOf(l.d, l.key, x);
    NoKey();
    W.PartsNext(m, n);
  }

  lemma NoKey()
    ensures Lit.AllAllowed([])
  {
  }

  // The innermost container with one item more.
  function Grown(ls: seq<Level>, x: Doc): seq<Level>
    requires ls != [] && (ls[|ls| - 1].d.DList? || ls[|ls| - 1].d.DObj?)
  {
    var l := ls[|ls| - 1];
    ls[..|ls| - 1] + [Level(W.More(l.d, l.key, x), [])]
  }

  lemma SameGrown(stack: seq<Frame>, ls: seq<Level>, key: string, x: Doc)
    requires Same(stack, ls) && ls != [] && Proper(x) && IsGrown(ls)
    requires ls[|ls| - 1].d.DObj? ==> key == Lit.AllSaid(ls[|ls| - 1].key)
    ensures stack != [] && Same(AddToTop(stack, key, Value(x)), Grown(ls, x))
  {
    var n := |ls| - 1;
    var l, f := ls[n], stack[n];
    assert Good(l) && f.item == Parts(l.d, Count(l.d));
    PartsMore(l, x);
    var m, g := Level(W.More(l.d, l.key, x), []), Added(f, key, Value(x));
    AddedKey(f, key, Value(x));
    hide Good, Proper, ProperParts, Parts, Value, W.More, Lit.AllSaid, Lit.AllAllowed, AddMember;
    assert g.item == Parts(m.d, Count(m.d));
    hide Added;
    SameReplace(stack, ls, g, m);
  }

  lemma SameReplace(stack: seq<Frame>, ls: seq<Level>, g: Frame, m: Level)
    requires Same(stack, ls) && ls != [] && Good(m) && g.item == Parts(m.d, Count(m.d))
    requires g.key == stack[|ls| - 1].key
    ensures Same(stack[|ls| - 1 := g], ls[..|ls| - 1] + [m])
  {
    hide Good, Parts, Lit.AllSaid;
    var n := |ls| - 1;
    var ls', stack' := ls[..n] + [m], stack[n := g];
    assert forall i :: 0 <= i < n ==> ls'[i] == ls[i] && stack'[i] == stack[i];
    assert AllGood(ls');
  }

  // An item that is complete has been added to the container on top of the stack.
  lemma ItemAtTop(stack: seq<Frame>, ls: seq<Level>, key: string, x: Doc, p: Parser)
    requires Same(stack, ls) && IsGrown(ls) && Proper(x)
    requires ls[|ls| - 1].d.DObj? ==> key == Lit.AllSaid(ls[|ls| - 1].key)
    requires stack != [] && p.stack == AddToTop(stack, key, Value(x))
    requires p.state == if ls[|ls| - 1].d.DObj? then PsDictAfterItem else PsArrayAfterItem
    ensures At(p, Grown(ls, x), Ahead(ls) + Tokens(x))
  {
    hide At, Good, Same, Proper, Value, W.More, Tokens, Head, Lead, Ahead, Lit.AllSaid, Lit.AllAllowed, AddToTop;
    hide Stands, Pending;
    var n := |ls| - 1;
    IsGood(stack, ls);
    SameGrown(stack, ls, key, x);
    HeadMore(ls[n], x);
    var m := Level(W.More(ls[n].d, ls[n].key, x), []);
    NoKey();
    ItemEnds(p, m);
    AheadLast(ls);
    var a, h, l, t := Ahead(ls[..n]), Head(ls[n].d), Lead(ls[n]), Tokens(x);
    assert a + (h + l) + t == a + ((h + l + t) + []);
    IntoAt(p, ls[..n], m, Ahead(ls) + t);
  }

  lemma ItemEnds(p: Parser, m: Level)
    requires (m.d.DList? || m.d.DObj?) && Count(m.d) > 0 && Lit.AllAllowed(m.key)
    requires p.state == if m.d.DObj? then PsDictAfterItem else PsArrayAfterItem
    ensures Stands(p, m) && Pending(p.state, m) == []
  {
  }

  lemma AheadLast(ls: seq<Level>)
    requires ls != []
    ensures Ahead(ls) == Ahead(ls[..|ls| - 1]) + (Head(ls[|ls| - 1].d) + Lead(ls[|ls| - 1]))
  {
    hide Head, Lead;
  }

  lemma AddedKey(f: Frame, key: string, item: Json)
    ensures Added(f, key, item).key == f.key
  {
  }

  // ---------------------------------------------------------------- one token

  // At the place of an item.
  lemma AtItem(p: Parser, ls: seq<Level>, ts: seq<Tok>)
    requires At(p, ls, ts) && AfterItem(p.state).Some?
    ensures ts == Ahead(ls) && (ls == [] <==> p.state == PsTop)
    ensures ls != [] ==> Same(p.stack, ls) && Lit.AllAllowed(ls[|ls| - 1].key)
    ensures ls != [] ==> (ls[|ls| - 1].d.DObj? ==> p.dictKey == Lit.AllSaid(ls[|ls| - 1].key))
    ensures AfterItem(p.state).value ==
              if ls == [] then PsDone else if ls[|ls| - 1].d.DObj? then PsDictAfterItem else PsArrayAfterItem
  {
    hide Same, Head, Parts, Lit.AllSaid;
    if ls != [] {
      assert Good(ls[|ls| - 1]) by { assert Same(p.stack, ls); IsGood(p.stack, ls); }
      hide Good;
      assert Comma(ls[|ls| - 1].d) + [] == Comma(ls[|ls| - 1].d);
    }
  }

  lemma IsGood(stack: seq<Frame>, ls: seq<Level>)
    requires Same(stack, ls) && ls != []
    ensures Good(ls[|ls| - 1])
  {
    hide Good, Parts;
  }

  lemma ScalarStep(p: Parser, ls: seq<Level>, ts: seq<Tok>, x: Doc, q: Parser)
    requires At(p, ls, ts) && Fine(Scalar(x)) && Place(p, Value(x)) == Ok(q)
    ensures ls == [] ==> DoneAt(q, x, ts + [Scalar(x)])
    ensures ls != [] ==> q.state != PsDone && IsGrown(ls) && At(q, Grown(ls, x), ts + [Scalar(x)])
  {
    hide At, AddToTop, Same, Ahead, IsNumber, Lit.AllAllowed, Lit.AllSaid;
    AtItem(p, ls, ts);
    assert Tokens(x) == [Scalar(x)];
    if ls == [] {
      TopIs(p, ls, ts);
    } else {
      IsGood(p.stack, ls);
      ItemAtTop(p.stack, ls, p.dictKey, x, q);
    }
  }

  ghost predicate IsGrown(ls: seq<Level>) {
    ls != [] && (ls[|ls| - 1].d.DList? || ls[|ls| - 1].d.DObj?)
  }

  lemma TopIs(p: Parser, ls: seq<Level>, ts: seq<Tok>)
    requires At(p, ls, ts) && p.state == PsTop
    ensures ls == [] && p.stack == [] && ts == []
  {
    hide Same;
    if ls != [] {
      IsGood(p.stack, ls);
    }
  }

  function Empty(obj: bool): Doc {
    if obj then DObj([]) else DList([])
  }

  lemma OpenStep(p: Parser, ls: seq<Level>, ts: seq<Tok>, obj: bool, q: Parser)
    requires At(p, ls, ts) && Place(p, if obj then Dict([]) else Array([])) == Ok(q)
    ensures At(q, ls + [Level(Empty(obj), [])], ts + [Sign(if obj then '{' else '[')])
  {
    var open := Sign(if obj then '{' else '[');
    var l := Level(Empty(obj), []);
    AtItem(p, ls, ts);
    if ls == [] {
      TopIs(p, ls, ts);
    }
    hide At, Ahead, Head, Good, Parts, Stands, Same, Lit.AllSaid;
    NewLevel(obj);
    var f := Frame(AfterItem(p.state).value, if obj then Dict([]) else Array([]), p.dictKey);
    assert q == Parser(if obj then PsDictBegin else PsArrayBegin, p.stack + [f], p.dictKey);
    SameOpen(p.stack, ls, f, l);
    assert Stands(q, l) by { NewStands(q, obj); }
    IntoAt(q, ls, l, ts + [open]);
  }

  lemma NewLevel(obj: bool)
    ensures var l := Level(Empty(obj), []);
            && Good(l) && Head(l.d) == [Sign(if obj then '{' else '[')]
            && Parts(l.d, Count(l.d)) == if obj then Dict([]) else Array([])
  {
  }

  lemma NewStands(q: Parser, obj: bool)
    requires q.state == if obj then PsDictBegin else PsArrayBegin
    ensures var l := Level(Empty(obj), []); Lit.AllAllowed(l.key) && Stands(q, l)
  {
  }

  lemma SameOpen(stack: seq<Frame>, ls: seq<Level>, f: Frame, l: Level)
    requires (if ls == [] then stack == [] else Same(stack, ls)) && Good(l) && f.item == Parts(l.d, Count(l.d))
    requires ls != [] ==> Lit.AllAllowed(ls[|ls| - 1].key)
    requires ls != [] && ls[|ls| - 1].d.DObj? ==> f.key == Lit.AllSaid(ls[|ls| - 1].key)
    ensures Same(stack + [f], ls + [l])
  {
    hide Good, Parts, Lit.AllSaid, Lit.AllAllowed;
    var ls', stack' := ls + [l], stack + [f];
    assert forall i :: 0 <= i < |ls| ==> ls'[i] == ls[i] && stack'[i] == stack[i];
    assert AllGood(ls');
  }

  lemma IntoAt(q: Parser, ls: seq<Level>, l: Level, ts: seq<Tok>)
    requires Same(q.stack, ls + [l]) && Lit.AllAllowed(l.key) && Stands(q, l)
    requires ts == Ahead(ls) + (Head(l.d) + Pending(q.state, l))
    ensures At(q, ls + [l], ts)
  {
    hide Same, Stands, Ahead, Head, Pending, Lit.AllAllowed;
    assert (ls + [l])[..|ls|] == ls;
  }

  // Within a container.
  lemma AtIs(p: Parser, ls: seq<Level>, ts: seq<Tok>)
    requires At(p, ls, ts) && p.state != PsTop
    ensures ls != [] && Same(p.stack, ls) && Good(ls[|ls| - 1]) && Lit.AllAllowed(ls[|ls| - 1].key)
    ensures Stands(p, ls[|ls| - 1])
    ensures ts == Ahead(ls[..|ls| - 1]) + (Head(ls[|ls| - 1].d) + Pending(p.state, ls[|ls| - 1]))
  {
    hide Same, Ahead, Head, Pending, Stands;
    IsGood(p.stack, ls);
  }

  // The container on top of the stack, once it is closed.
  lemma ClosedDoc(p: Parser, ls: seq<Level>, ts: seq<Tok>, close: Tok)
    requires At(p, ls, ts) && p.state in {PsDictBegin, PsDictAfterItem, PsArrayBegin, PsArrayAfterItem}
    requires close == Sign(if p.state == PsDictBegin || p.state == PsDictAfterItem then '}' else ']')
    ensures ls != [] && Same(p.stack, ls)
    ensures var n := |ls| - 1;
            var x := ls[n].d;
            Proper(x) && Value(x) == p.stack[n].item && ts + [close] == Ahead(ls[..n]) + Tokens(x)
  {
    var n := |ls| - 1;
    IsGood(p.stack, ls);
    var x := ls[n].d;
    assert p.stack[n].item == Parts(x, Count(x));
    assert Pending(p.state, ls[n]) == [];
    assert Tokens(x) == Head(x) + [close];
    hide Same, Ahead, Head, Tokens, Parts, Lit.AllSaid;
    assert ts == Ahead(ls[..n]) + (Head(x) + []);
  }

  // Where the parser goes when it is closed.
  lemma BelowIs(p: Parser, ls: seq<Level>)
    requires WellFormed(p) && p.state != PsTop && p.state != PsDone && Same(p.stack, ls) && ls != []
    ensures |p.stack| == |ls|
    ensures var n := |ls| - 1;
            && (n == 0 <==> p.stack[n].back == PsDone)
            && (n > 0 ==> p.stack[n].back == if ls[n - 1].d.DObj? then PsDictAfterItem else PsArrayAfterItem)
  {
    var n := |ls| - 1;
    assert Nested(p.stack);
    hide WellFormed, Same;
    SameSize(p.stack, ls);
    assert p.stack[n].back == Back(p.stack, n);
    hide Nested;
    if n > 0 {
      PartsKind(p.stack, ls, n - 1);
    }
  }

  lemma SameBelow(stack: seq<Frame>, ls: seq<Level>)
    requires Same(stack, ls) && |ls| > 1
    ensures var n := |ls| - 1;
            && |stack| == n + 1 && Same(stack[..n], ls[..n]) && Lit.AllAllowed(ls[n - 1].key)
            && (ls[n - 1].d.DObj? ==> stack[n].key == Lit.AllSaid(ls[n - 1].key))
  {
    var n := |ls| - 1;
    assert Good(ls[n - 1]);
    hide Good, Parts, Lit.AllSaid;
    assert AllGood(ls[..n]);
  }

  lemma PartsKind(stack: seq<Frame>, ls: seq<Level>, i: nat)
    requires Same(stack, ls) && i < |ls|
    ensures stack[i].item.Dict? <==> ls[i].d.DObj?
  {
    assert Good(ls[i]);
  }

  lemma CloseStep(p: Parser, ls: seq<Level>, ts: seq<Tok>, close: Tok, q: Parser) returns (ls': seq<Level>, x: Doc)
    requires At(p, ls, ts) && p.state in {PsDictBegin, PsDictAfterItem, PsArrayBegin, PsArrayAfterItem}
    requires close == Sign(if p.state == PsDictBegin || p.state == PsDictAfterItem then '}' else ']')
    requires WellFormed(p) && Close(p) == Ok(q)
    ensures if q.state == PsDone then DoneAt(q, x, ts + [close]) else At(q, ls', ts + [close])
  {
    hide At, WellFormed, AddToTop, Proper, Value, Tokens, Same, Close;
    var n := |ls| - 1;
    ClosedDoc(p, ls, ts, close);
    CloseIs(p);
    BelowIs(p, ls);
    x, ls' := ls[n].d, ls;
    SameSize(p.stack, ls);
    if n == 0 {
      assert ls[..0] == [] && [] + Tokens(x) == Tokens(x);
    } else {
      var below := ls[..n];
      SameBelow(p.stack, ls);
      IsGood(p.stack[..n], below);
      hide Ahead, Good;
      GoodKind(below);
      ls' := Grown(below, x);
      ItemAtTop(p.stack[..n], below, p.stack[n].key, x, q);
    }
  }

  lemma GoodKind(ls: seq<Level>)
    requires ls != [] && Good(ls[|ls| - 1])
    ensures IsGrown(ls) && Lit.AllAllowed(ls[|ls| - 1].key)
  {
  }

  lemma SameSize(stack: seq<Frame>, ls: seq<Level>)
    requires Same(stack, ls)
    ensures |stack| == |ls|
  {
    hide Good, Parts, Lit.AllSaid;
  }

  // A comma, a colon or a key.
  ghost predicate Leads(p: Parser, tok: Tok, q: Parser)
    requires Fine(tok)
  {
    || (tok == Sign(',') && p.state == PsDictAfterItem && q == p.(state := PsDictAfterComma))
    || (tok == Sign(',') && p.state == PsArrayAfterItem && q == p.(state := PsArrayAfterComma))
    || (tok == Sign(':') && p.state == PsDictAfterKey && q == p.(state := PsDictAfterColon))
    || (tok.Scalar? && tok.d.DStr? && (p.state == PsDictBegin || p.state == PsDictAfterComma)
        && q == p.(dictKey := Lit.AllSaid(tok.d.ps), state := PsDictAfterKey))
  }

  lemma PendingMore(p: Parser, l: Level, tok: Tok, q: Parser, m: Level)
    requires Fine(tok) && Leads(p, tok, q) && Good(l) && Stands(p, l)
    requires m == if tok.Scalar? then Level(l.d, tok.d.ps) else l
    ensures Good(m) && Lit.AllAllowed(m.key) && Stands(q, m) && Pending(q.state, m) == Pending(p.state, l) + [tok]
  {
    hide ProperParts, Lit.AllAllowed, Lit.AllSaid;
  }

  lemma SameKey(stack: seq<Frame>, ls: seq<Level>, l: Level)
    requires Same(stack, ls) && ls != [] && Good(l) && l.d == ls[|ls| - 1].d
    ensures Same(stack, ls[|ls| - 1 := l])
  {
    hide Parts, Lit.AllSaid, ProperParts, Lit.AllAllowed;
    var n := |ls| - 1;
    var ls' := ls[n := l];
    assert forall i :: 0 <= i < n ==> ls'[i] == ls[i];
    assert AllGood(ls');
    forall i | 0 < i < |ls| && ls'[i - 1].d.DObj?
      ensures Good(ls[i - 1]) && ls'[i - 1] == ls[i - 1] && stack[i].key == Lit.AllSaid(ls[i - 1].key)
    {
    }
  }

  lemma LeadStep(p: Parser, ls: seq<Level>, ts: seq<Tok>, tok: Tok, q: Parser) returns (ls': seq<Level>)
    requires At(p, ls, ts) && Fine(tok) && Leads(p, tok, q)
    ensures At(q, ls', ts + [tok])
  {
    var n := |ls| - 1;
    hide At, Same, Ahead, Head, Parts, Stands, Good, Lit.AllSaid, Lit.AllAllowed, Pending;
    AtIs(p, ls, ts);
    var l := if tok.Scalar? then Level(ls[n].d, tok.d.ps) else ls[n];
    ls' := ls[..n] + [l];
    PendingMore(p, ls[n], tok, q, l);
    SameKey(p.stack, ls, l);
    assert ls[n := l] == ls';
    IntoAt(q, ls[..n], l, ts + [tok]);
  }

  // What the parser does with a token is what the grammar says of it.
  lemma TokStep(p: Parser, ls: seq<Level>, ts: seq<Tok>, tok: Tok, q: Parser) returns (ls': seq<Level>, d: Doc)
    requires At(p, ls, ts) && WellFormed(p) && p.state != PsDone && Fine(tok)
    requires Handle(p, JSONGrammar.KindOf(tok), JSONGrammar.TokenOf(tok)) == Ok(q)
    ensures if q.state == PsDone then DoneAt(q, d, ts + [tok]) else At(q, ls', ts + [tok])
  {
    hide At, WellFormed, Place, Close, DoneAt, IsNumber, Lit.AllAllowed, Lit.AllSaid;
    ls', d := ls, DNull;
    if tok.Scalar? && tok.d.DStr? && (p.state == PsDictBegin || p.state == PsDictAfterComma) {
      ls' := LeadStep(p, ls, ts, tok, q);
    } else if tok.Scalar? {
      d := tok.d;
      assert Place(p, Value(d)) == Ok(q);
      ScalarStep(p, ls, ts, d, q);
      if ls == [] {
        IsDone(q, d, ts + [tok]);
      } else {
        ls' := Grown(ls, d);
      }
    } else if tok.c == '{' || tok.c == '[' {
      OpenStep(p, ls, ts, tok.c == '{', q);
      ls' := ls + [Level(Empty(tok.c == '{'), [])];
      Opened(p, if tok.c == '{' then Dict([]) else Array([]), q);
    } else if tok.c == '}' || tok.c == ']' {
      ls', d := CloseStep(p, ls, ts, tok, q);
    } else {
      ls' := LeadStep(p, ls, ts, tok, q);
    }
  }

  lemma IsDone(q: Parser, d: Doc, ts: seq<Tok>)
    requires DoneAt(q, d, ts)
    ensures q.state == PsDone
  {
    hide Proper, Value;
  }

  lemma Opened(p: Parser, item: Json, q: Parser)
    requires Place(p, item) == Ok(q) && Container(item)
    ensures q.state != PsDone
  {
  }

  // ---------------------------------------------------------------- all tokens

  lemma HandleUsable(p: Parser, t: Lexed)
    requires Handle(p, t.kind, t.token).Ok?
    ensures t.kind == LsTop || Usable(t)
    ensures p.state == PsDone ==> t.kind == LsTop
    ensures t.kind == LsTop ==> Handle(p, t.kind, t.token) == Ok(p)
  {
    hide Place, Close;
  }

  lemma {:induction false} DoneAtEnd(l: Lexer, input: string, offset: nat)
    requires Lex(l, input, offset).Ok? && Lex(l, input, offset).value.done
    ensures Lex(l, input, offset).value.rest == ""
    decreases |input|
  {
    hide Lex, LexChar;
    if input == "" {
      LexEnd(l, offset);
    } else {
      LexNext(l, input, offset);
      var s := LexChar(l, input[0], offset);
      if s.Used? {
        DoneAtEnd(s.l, input[1..], offset + 1);
      }
    }
  }

  // The document that has been read in the end, and the tokens and blanks that were left of it.
  lemma {:induction false} RunSound(p: Parser, ls: seq<Level>, ts: seq<Tok>, d0: Doc, input: string, offset: nat)
    returns (d: Doc, more: seq<Tok>, gaps: seq<string>, after: string)
    requires if p.state == PsDone then DoneAt(p, d0, ts) else At(p, ls, ts) && WellFormed(p)
    requires Run(p, input, offset).Ok? && Run(p, input, offset).value.state == PsDone
    requires LoneLows(input, offset) == {}
    ensures |gaps| == |more| && Gaps(gaps) && Lit.AllBlank(after) && input == Laid(more, gaps) + after
    ensures DoneAt(Run(p, input, offset).value, d, ts + more)
    decreases |input|
  {
    hide Lex, TokenLows, Handle, At, WellFormed, DoneAt, Usable, IsToken, Laid, Gaps, Spelled;
    RunNext(p, input, offset);
    LowsNext(input, offset);
    var t := Lex(FRESH, input, offset).value;
    HandleUsable(p, t);
    var q := Handle(p, t.kind, t.token).value;
    var gap, tok := TokenTaken(input, offset, t);
    if t.kind == LsTop {
      d, more, gaps, after := d0, [], [], input;
      NothingLaid(input);
      assert ts + [] == ts;
      assert Run(p, input, offset) == Ok(p);
      return;
    }
    TokenIs(tok, t);
    var ls', d' := TokStep(p, ls, ts, tok, q);
    HandleKeeps(p, t.kind, t.token);
    var rest, rg;
    if t.done {
      DoneAtEnd(FRESH, input, offset);
      d, rest, rg, after := d', [], [], "";
      NothingLaid("");
      assert ts + [tok] + rest == ts + [tok];
    } else {
      Shorter(input, offset);
      hide Run, LoneLows;
      d, rest, rg, after := RunSound(q, ls', ts + [tok], d', t.rest, t.offset);
    }
    more, gaps := [tok] + rest, [gap] + rg;
    LaidFirst(tok, gap, rest, rg);
    assert ts + more == ts + [tok] + rest;
  }

  lemma TokenIs(tok: Tok, t: Lexed)
    requires IsToken(tok, t)
    ensures Fine(tok) && JSONGrammar.KindOf(tok) == t.kind && JSONGrammar.TokenOf(tok) == t.token
  {
  }

  lemma NothingLaid(s: string)
    ensures Gaps([]) && Laid([], []) + s == s && Lit.AllBlank("")
  {
  }

  lemma LaidFirst(t: Tok, gap: string, ts: seq<Tok>, gaps: seq<string>)
    requires |gaps| == |ts| && Gaps(gaps) && Lit.AllBlank(gap)
    ensures Gaps([gap] + gaps) && Laid([t] + ts, [gap] + gaps) == gap + (Spelled(t) + Laid(ts, gaps))
  {
    hide Lit.AllBlank, Spelled;
    assert ([t] + ts)[1..] == ts && ([gap] + gaps)[1..] == gaps;
  }

  // What is accepted is a text of a document, and what is returned is its value.
  lemma Sound(input: string) returns (d: Doc, gaps: seq<string>, after: string)
    requires ParseText(input).Ok? && LoneLows(input, 0) == {}
    ensures Proper(d) && |gaps| == |Tokens(d)| && Gaps(gaps) && Lit.AllBlank(after)
    ensures input == Laid(Tokens(d), gaps) + after && ParseText(input) == Ok(Value(d)) && Nesting(d) <= 500
  {
    hide Run, LoneLows, Gaps, Laid, Tokens, Value, Nesting, Proper;
    var r := Run(START, input, 0).value;
    RunKeeps(START, input, 0);
    StartAt();
    hide At, WellFormed, Same;
    var ts;
    d, ts, gaps, after := RunSound(START, [], [], DNull, input, 0);
    assert [] + ts == ts;
    TextRead(d, gaps, after);
  }

  lemma StartAt()
    ensures At(START, [], []) && WellFormed(START) && START.state != PsDone
  {
  }

  // The texts of a value.
  ghost predicate IsText(input: string, j: Json) {
    exists d: Doc, gaps: seq<string>, after: string ::
      && Proper(d) && |gaps| == |Tokens(d)| && Gaps(gaps) && Lit.AllBlank(after)
      && input == Laid(Tokens(d), gaps) + after && Value(d) == j && Nesting(d) <= 500
  }

  // The parser reads the texts of a value that is nested at most 500 deep as that value, and reads nothing else.
  lemma Decides(input: string, j: Json)
    requires LoneLows(input, 0) == {}
    ensures ParseText(input) == Ok(j) <==> IsText(input, j)
  {
    hide ParseText, LoneLows, Gaps, Laid, Tokens, Value, Nesting, Proper;
    if ParseText(input) == Ok(j) {
      var d, gaps, after := Sound(input);
    }
    if IsText(input, j) {
      var d: Doc, gaps: seq<string>, after: string :|
        && Proper(d) && |gaps| == |Tokens(d)| && Gaps(gaps) && Lit.AllBlank(after)
        && input == Laid(Tokens(d), gaps) + after && Value(d) == j && Nesting(d) <= 500;
      TextRead(d, gaps, after);
    }
  }
}
