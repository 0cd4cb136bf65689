/**
 * The texts of RFC 8259: values in any spelling, with any blanks before every token and at the end.
 * JSONParser of libqpdf/JSON.cc reads each as the value that it is a text of, and JSON::unparse writes
 * one of the texts of a value.
 */
module JSONGrammar {
  import opened Wrappers
  import opened JSONModel
  import opened JSONLexer
  import opened JSONParser
  import opened JSONOffsets
  import opened JSONRoundTrip
  import Lit = JSONLiterals

  // ---------------------------------------------------------------- documents

  datatype Doc =
    | DNull
    | DTrue
    | DFalse
    | DNum(text: string)
    | DStr(ps: seq<Lit.Piece>)
    | DList(items: seq<Doc>)
    | DObj(members: seq<DMember>)

  datatype DMember = DMember(key: seq<Lit.Piece>, value: Doc)

  function Count(d: Doc): nat {
    match d
    case DList(items) => |items|
    case DObj(ms) => |ms|
    case _ => 0
  }

  function Sub(d: Doc, i: nat): (r: Doc)
    requires i < Count(d)
    ensures r < d
  {
    if d.DList? then d.items[i] else d.members[i].value
  }

  ghost predicate Proper(d: Doc)
    decreases d, 1
  {
    match d
    case DNum(text) => IsNumber(text)
    case DStr(ps) => Lit.AllAllowed(ps)
    case _ => ProperParts(d, Count(d))
  }

  ghost predicate ProperParts(d: Doc, n: nat)
    requires n <= Count(d)
    decreases d, 0, n
  {
    n == 0 ||
    (ProperParts(d, n - 1) && Proper(Sub(d, n - 1)) && (d.DObj? ==> Lit.AllAllowed(d.members[n - 1].key)))
  }

  function Nesting(d: Doc): nat
    decreases d, 1
  {
    if d.DList? || d.DObj? then 1 + NestingOf(d, Count(d)) else 0
  }

  function NestingOf(d: Doc, n: nat): nat
    requires n <= Count(d)
    decreases d, 0, n
  {
    if n == 0 then 0 else Max(NestingOf(d, n - 1), Nesting(Sub(d, n - 1)))
  }

  // The value: of a key that is there more than once, it has the last member.
  ghost function Value(d: Doc): Json
    requires Proper(d)
    decreases d, 1
  {
    match d
    case DNull => Null
    case DTrue => Bool(true)
    case DFalse => Bool(false)
    case DNum(text) => Number(text)
    case DStr(ps) => Str(Lit.AllSaid(ps))
    case _ => Parts(d, Count(d))
  }

  ghost function Parts(d: Doc, n: nat): (r: Json)
    requires (d.DList? || d.DObj?) && n <= Count(d) && ProperParts(d, n)
    ensures if d.DList? then r.Array? && |r.items| == n else r.Dict?
    decreases d, 0, n
  {
    if n == 0 then if d.DList? then Array([]) else Dict([])
    else
      var j, v := Parts(d, n - 1), Value(Sub(d, n - 1));
      if d.DList? then Array(j.items + [v]) else AddMember(j, Lit.AllSaid(d.members[n - 1].key), v)
  }

  // ---------------------------------------------------------------- tokens and texts

  datatype Tok = Sign(c: char) | Scalar(d: Doc)

  function Tokens(d: Doc): seq<Tok>
    decreases d, 1
  {
    match d
    case DList(_) => [Sign('[')] + TokensOf(d, Count(d)) + [Sign(']')]
    case DObj(_) => [Sign('{')] + TokensOf(d, Count(d)) + [Sign('}')]
    case _ => [Scalar(d)]
  }

  function TokensOf(d: Doc, n: nat): seq<Tok>
    requires n <= Count(d)
    decreases d, 0, n
  {
    if n == 0 then [] else TokensOf(d, n - 1) + LeadOf(d, n - 1) + Tokens(Sub(d, n - 1))
  }

  function LeadOf(d: Doc, i: nat): seq<Tok>
    requires i < Count(d)
  {
    (if i > 0 then [Sign(',')] else []) + if d.DObj? then [Scalar(DStr(d.members[i].key)), Sign(':')] else []
  }

  function Spelled(t: Tok): string {
    match t
    case Sign(c) => [c]
    case Scalar(d) =>
      match d
      case DNull => "null"
      case DTrue => "true"
      case DFalse => "false"
      case DNum(text) => text
      case DStr(ps) => Lit.Literal(ps)
      case _ => ""
  }

  predicate Gaps(gaps: seq<string>) {
    forall i :: 0 <= i < |gaps| ==> Lit.AllBlank(gaps[i])
  }

  // With blanks before every token.
  function Laid(ts: seq<Tok>, gaps: seq<string>): string
    requires |gaps| == |ts|
  {
    if ts == [] then "" else gaps[0] + (Spelled(ts[0]) + Laid(ts[1..], gaps[1..]))
  }

  // ---------------------------------------------------------------- tokens as the lexer reads them

  function KindOf(t: Tok): LexState {
    match t
    case Sign(c) =>
      if c == ',' then LsComma else if c == ':' then LsColon else if c == '{' then LsBeginDict
      else if c == '}' then LsEndDict else if c == '[' then LsBeginArray else LsEndArray
    case Scalar(d) => if d.DNum? then LsNumber else if d.DStr? then LsAfterString else LsAlpha
  }

  ghost function TokenOf(t: Tok): string
    requires Fine(t)
  {
    match t
    case Sign(_) => ""
    case Scalar(d) => if d.DStr? then Lit.AllSaid(d.ps) else Spelled(t)
  }

  ghost predicate Fine(t: Tok) {
    match t
    case Sign(c) => c in ",:{}[]"
    case Scalar(d) =>
      match d
      case DNum(text) => IsNumber(text)
      case DStr(ps) => Lit.AllAllowed(ps)
      case DList(_) => false
      case DObj(_) => false
      case _ => true
  }

  // Tokens that would run together have a sign between them.
  ghost predicate AllFine(ts: seq<Tok>) {
    forall i :: 0 <= i < |ts| ==> Fine(ts[i])
  }

  ghost predicate Apart(ts: seq<Tok>) {
    && AllFine(ts)
    && (forall i :: 0 < i < |ts| ==> ts[i - 1].Sign? || ts[i].Sign?)
  }

  // What the parser does with tokens.
  ghost function RunTokens(p: Parser, ts: seq<Tok>): Result<Parser, Error>
    requires AllFine(ts)
    decreases |ts|
  {
    if ts == [] then Ok(p)
    else
      var h := Handle(p, KindOf(ts[0]), TokenOf(ts[0]));
      if h.Err? then h else RunTokens(h.value, ts[1..])
  }

  // What the lexer makes of a token.
  ghost function LexedTok(t: Tok, rest: string, offset: nat): Lexed
    requires Fine(t)
  {
    Lexed(KindOf(t), TokenOf(t), rest, offset + |Spelled(t)|, rest == "" && !t.Sign? && !t.d.DStr?)
  }

  lemma SignRead(c: char, rest: string, offset: nat)
    requires c in ",:{}[]"
    ensures Lex(FRESH, [c] + rest, offset) == Ok(Lexed(KindOf(Sign(c)), "", rest, offset + 1, false))
  {
    hide Lex;
    assert LexChar(FRESH, c, offset) == Returned(FRESH.IgnoreTo(KindOf(Sign(c))));
    LexReturned(FRESH, c, rest, offset);
  }

  lemma ScalarRead(d: Doc, rest: string, offset: nat)
    requires Fine(Scalar(d)) && Ends(rest)
    ensures Lex(FRESH, Spelled(Scalar(d)) + rest, offset) == Ok(LexedTok(Scalar(d), rest, offset))
  {
    hide Lex, Ends, LexChar, Letters, IsNumber, Lit.AllAllowed, Lit.Literal, Lit.AllSaid;
    ThreeWords();
    match d
    case DNull => LexWord("null", rest, offset);
    case DTrue => LexWord("true", rest, offset);
    case DFalse => LexWord("false", rest, offset);
    case DNum(text) => LexNumberText(text, rest, offset);
    case DStr(ps) => Lit.LiteralRead(ps, rest, offset);
  }

  lemma ThreeWords()
    ensures Letters("null") && Letters("true") && Letters("false")
  {
  }

  lemma TokenRead(t: Tok, rest: string, offset: nat)
    requires Fine(t) && (t.Sign? || Ends(rest))
    ensures Lex(FRESH, Spelled(t) + rest, offset) == Ok(LexedTok(t, rest, offset))
  {
    hide Lex, Ends;
    match t
    case Sign(c) => SignRead(c, rest, offset);
    case Scalar(d) => ScalarRead(d, rest, offset);
  }

  // What follows a scalar ends it.
  lemma NextEnds(ts: seq<Tok>, gaps: seq<string>, after: string)
    requires |gaps| == |ts| && Gaps(gaps) && Lit.AllBlank(after) && Apart(ts)
    requires ts != [] ==> ts[0].Sign?
    ensures Ends(Laid(ts, gaps) + after)
  {
    var rest := Laid(ts, gaps) + after;
    if ts != [] {
      assert rest == gaps[0] + (Spelled(ts[0]) + Laid(ts[1..], gaps[1..])) + after;
      if gaps[0] != "" {
        assert rest[0] == gaps[0][0];
      } else {
        assert rest[0] == ts[0].c;
      }
    } else {
      assert rest == after;
    }
  }

  lemma ApartRest(ts: seq<Tok>)
    requires Apart(ts) && ts != []
    ensures Fine(ts[0]) && Apart(ts[1..]) && (ts[0].Scalar? && |ts| > 1 ==> ts[1].Sign?)
  {
    hide Fine;
    var rest := ts[1..];
    assert forall i :: 0 <= i < |rest| ==> rest[i] == ts[i + 1];
    assert |ts| > 1 ==> ts[1 - 1].Sign? || ts[1].Sign?;
  }

  // The parser reads any tokens as they are, wherever there are blanks.
  lemma {:induction false} RunLaid(p: Parser, ts: seq<Tok>, gaps: seq<string>, after: string, offset: nat)
    requires |gaps| == |ts| && Gaps(gaps) && Lit.AllBlank(after) && Apart(ts)
    ensures Run(p, Laid(ts, gaps) + after, offset) == RunTokens(p, ts)
    decreases |ts|
  {
    hide Run, Lex, Handle, Apart, Ends, Lit.AllBlank, KindOf, TokenOf, Spelled, Gaps;
    if ts == [] {
      assert Laid(ts, gaps) + after == after;
      Lit.BlanksEnd(after, offset);
      RunNext(p, after, offset);
      NothingHandled(p);
    } else {
      ApartRest(ts);
      GapsRest(gaps);
      var more := Laid(ts[1..], gaps[1..]) + after;
      var text := Spelled(ts[0]) + more;
      assert Laid(ts, gaps) + after == gaps[0] + text;
      if ts[0].Scalar? {
        NextEnds(ts[1..], gaps[1..], after);
      }
      var at := offset + |gaps[0]|;
      TokenRead(ts[0], more, at);
      Lit.BlanksRead(gaps[0], text, offset);
      RunNext(p, gaps[0] + text, offset);
      var h := Handle(p, KindOf(ts[0]), TokenOf(ts[0]));
      if h.Ok? {
        RunLaid(h.value, ts[1..], gaps[1..], after, at + |Spelled(ts[0])|);
        if more == "" {
          AtTheEnd(h.value, ts[1..], gaps[1..], after, at + |Spelled(ts[0])|);
        }
      } else {
        HandleError(p, KindOf(ts[0]), TokenOf(ts[0]));
      }
    }
  }

  lemma GapsRest(gaps: seq<string>)
    requires Gaps(gaps) && gaps != []
    ensures Lit.AllBlank(gaps[0]) && Gaps(gaps[1..])
  {
  }

  lemma NothingHandled(p: Parser)
    ensures Handle(p, LsTop, "") == Ok(p)
  {
  }

  lemma HandleError(p: Parser, kind: LexState, token: string)
    ensures Handle(p, kind, token).Err? ==> Handle(p, kind, token) == Err(Malformed)
  {
  }

  lemma AtTheEnd(p: Parser, ts: seq<Tok>, gaps: seq<string>, after: string, offset: nat)
    requires |gaps| == |ts| && Laid(ts, gaps) + after == ""
    ensures Run(p, Laid(ts, gaps) + after, offset) == Ok(p)
  {
    RunNothing(p, offset);
  }

  // ---------------------------------------------------------------- the tokens of a document

  lemma ApartJoin(a: seq<Tok>, b: seq<Tok>)
    requires Apart(a) && Apart(b) && (a == [] || b == [] || a[|a| - 1].Sign? || b[0].Sign?)
    ensures Apart(a + b)
  {
    hide Fine;
    var c := a + b;
    assert forall i :: 0 <= i < |a| ==> c[i] == a[i];
    assert forall i :: 0 <= i < |b| ==> c[|a| + i] == b[i];
    forall i | 0 < i < |c|
      ensures c[i - 1].Sign? || c[i].Sign?
    {
      if i > |a| {
        assert c[i] == b[i - |a|] && c[i - 1] == b[i - |a| - 1];
      }
    }
  }

  lemma SignsApart(c: char)
    requires c in ",:{}[]"
    ensures Apart([Sign(c)])
  {
  }

  lemma LeadApart(d: Doc, i: nat)
    requires i < Count(d) && (d.DObj? ==> Lit.AllAllowed(d.members[i].key))
    ensures Apart(LeadOf(d, i))
    ensures i > 0 ==> LeadOf(d, i) != [] && LeadOf(d, i)[0].Sign?
    ensures LeadOf(d, i) != [] ==> LeadOf(d, i)[|LeadOf(d, i)| - 1].Sign?
  {
  }

  lemma {:induction false} TokensApart(d: Doc)
    requires Proper(d)
    ensures Apart(Tokens(d)) && Tokens(d) != []
    decreases d, 1, 0
  {
    if d.DList? || d.DObj? {
      PartsApart(d, Count(d));
      var open, close := Sign(if d.DList? then '[' else '{'), Sign(if d.DList? then ']' else '}');
      SignsApart(open.c);
      SignsApart(close.c);
      hide Apart;
      ApartJoin([open], TokensOf(d, Count(d)));
      ApartJoin([open] + TokensOf(d, Count(d)), [close]);
    }
  }

  lemma {:induction false} PartsApart(d: Doc, n: nat)
    requires n <= Count(d) && ProperParts(d, n)
    ensures Apart(TokensOf(d, n)) && (n == 0 ==> TokensOf(d, n) == [])
    decreases d, 0, n
  {
    hide Apart, Proper;
    if n == 0 {
      NoneApart();
    } else {
      PartsApart(d, n - 1);
      TokensApart(Sub(d, n - 1));
      LeadApart(d, n - 1);
      var a, b, c := TokensOf(d, n - 1), LeadOf(d, n - 1), Tokens(Sub(d, n - 1));
      hide TokensOf, LeadOf, Tokens;
      ApartJoin(a, b);
      if b != [] {
        assert (a + b)[|a + b| - 1] == b[|b| - 1];
      }
      ApartJoin(a + b, c);
    }
  }

  lemma NoneApart()
    ensures Apart([])
  {
  }

  // ---------------------------------------------------------------- what they are read as

  lemma {:induction false} RunTokensJoin(p: Parser, a: seq<Tok>, b: seq<Tok>)
    requires AllFine(a) && AllFine(b)
    ensures AllFine(a + b)
    ensures var r := RunTokens(p, a); RunTokens(p, a + b) == if r.Err? then r else RunTokens(r.value, b)
    decreases |a|
  {
    hide Fine, Handle, KindOf, TokenOf;
    if a == [] {
      assert a + b == b;
    } else {
      assert (a + b)[0] == a[0] && (a + b)[1..] == a[1..] + b;
      var h := Handle(p, KindOf(a[0]), TokenOf(a[0]));
      if h.Ok? {
        RunTokensJoin(h.value, a[1..], b);
      }
    }
  }

  lemma RunOne(p: Parser, t: Tok)
    requires Fine(t)
    ensures AllFine([t]) && RunTokens(p, [t]) == Handle(p, KindOf(t), TokenOf(t))
  {
    hide Fine, Handle, KindOf, TokenOf;
    assert [t][1..] == [];
    assert forall q :: RunTokens(q, []) == Ok(q);
  }

  // Within a container, after n of its items, and at the place of the next.
  ghost function Inside(base: seq<Frame>, back: ParserState, key: string, d: Doc, n: nat, k: string): Parser
    requires (d.DList? || d.DObj?) && n <= Count(d) && ProperParts(d, n)
  {
    Parser(if d.DObj? then if n == 0 then PsDictBegin else PsDictAfterItem
           else if n == 0 then PsArrayBegin else PsArrayAfterItem,
           base + [Frame(back, Parts(d, n), key)], k)
  }

  ghost function Before(base: seq<Frame>, back: ParserState, key: string, d: Doc, n: nat, k: string): Parser
    requires (d.DList? || d.DObj?) && n <= Count(d) && ProperParts(d, n)
  {
    Parser(if d.DObj? then PsDictAfterColon else if n == 0 then PsArrayBegin else PsArrayAfterComma,
           base + [Frame(back, Parts(d, n), key)], k)
  }

  lemma ReadsComma(base: seq<Frame>, back: ParserState, key: string, d: Doc, n: nat, k: string)
    requires (d.DList? || d.DObj?) && 0 < n < Count(d) && ProperParts(d, n)
    ensures AllFine([Sign(',')])
    ensures RunTokens(Inside(base, back, key, d, n, k), [Sign(',')]) ==
            Ok(Inside(base, back, key, d, n, k).(state := if d.DObj? then PsDictAfterComma else PsArrayAfterComma))
  {
    RunOne(Inside(base, back, key, d, n, k), Sign(','));
    hide Parts, RunTokens;
  }

  lemma ReadsKey(p: Parser, ps: seq<Lit.Piece>)
    requires Lit.AllAllowed(ps) && (p.state == PsDictBegin || p.state == PsDictAfterComma)
    ensures AllFine([Scalar(DStr(ps)), Sign(':')])
    ensures RunTokens(p, [Scalar(DStr(ps)), Sign(':')]) ==
            Ok(p.(state := PsDictAfterColon, dictKey := Lit.AllSaid(ps)))
  {
    hide Lit.AllAllowed, Lit.AllSaid;
    var t, q := Scalar(DStr(ps)), p.(dictKey := Lit.AllSaid(ps), state := PsDictAfterKey);
    RunOne(p, t);
    RunOne(q, Sign(':'));
    assert [t, Sign(':')] == [t] + [Sign(':')];
    assert Handle(p, KindOf(t), TokenOf(t)) == Ok(q);
    assert Handle(q, LsColon, "") == Ok(q.(state := PsDictAfterColon));
    hide RunTokens, Handle;
    RunTokensJoin(p, [t], [Sign(':')]);
  }

  function KeyOf(d: Doc, n: nat, k: string): string
    requires n < Count(d) && (d.DObj? ==> Lit.AllAllowed(d.members[n].key))
  {
    if d.DObj? then Lit.AllSaid(d.members[n].key) else k
  }

  lemma ReadsLeadOf(base: seq<Frame>, back: ParserState, key: string, d: Doc, n: nat, k: string)
    requires (d.DList? || d.DObj?) && n < Count(d) && ProperParts(d, n)
    requires d.DObj? ==> Lit.AllAllowed(d.members[n].key)
    ensures AllFine(LeadOf(d, n))
    ensures RunTokens(Inside(base, back, key, d, n, k), LeadOf(d, n)) ==
            Ok(Before(base, back, key, d, n, KeyOf(d, n, k)))
  {
    var p := Inside(base, back, key, d, n, k);
    var comma := if n > 0 then [Sign(',')] else [];
    var q := if n > 0 then p.(state := if d.DObj? then PsDictAfterComma else PsArrayAfterComma) else p;
    NoTokens(p);
    if n > 0 {
      ReadsComma(base, back, key, d, n, k);
    }
    if d.DObj? {
      var ps := d.members[n].key;
      ReadsKey(q, ps);
      hide RunTokens, Parts, AllFine, Lit.AllSaid, Lit.AllAllowed;
      assert LeadOf(d, n) == comma + [Scalar(DStr(ps)), Sign(':')];
      RunTokensJoin(p, comma, [Scalar(DStr(ps)), Sign(':')]);
    } else {
      assert LeadOf(d, n) == comma;
    }
  }

  lemma NoTokens(p: Parser)
    ensures AllFine([]) && RunTokens(p, []) == Ok(p)
  {
  }

  lemma ItemAdded(base: seq<Frame>, back: ParserState, key: string, d: Doc, n: nat, k': string, k: string)
    requires (d.DList? || d.DObj?) && n < Count(d) && ProperParts(d, n + 1) && |base| + 1 <= MAX_DEPTH
    requires d.DObj? ==> k' == Lit.AllSaid(d.members[n].key)
    ensures Expects(Before(base, back, key, d, n, k')) && |Before(base, back, key, d, n, k').stack| == |base| + 1
    ensures Read(Before(base, back, key, d, n, k'), Value(Sub(d, n)), k) == Inside(base, back, key, d, n + 1, k)
  {
    hide Lit.AllSaid, Lit.AllAllowed, Proper, Value, Put;
    var f := Frame(back, Parts(d, n), key);
    var g := Added(f, k', Value(Sub(d, n)));
    assert (base + [f])[|base|] == f && (base + [f])[|base| := g] == base + [g];
  }

  // A document is read as its value, or is nested too deep.
  lemma {:induction false} ReadsDoc(p: Parser, d: Doc) returns (k: string)
    requires Expects(p) && Proper(d)
    ensures AllFine(Tokens(d))
    ensures var r := RunTokens(p, Tokens(d));
            if |p.stack| + Nesting(d) > 500 then r.Err? else r == Ok(Read(p, Value(d), k))
    decreases d, 1, 0
  {
    k := p.dictKey;
    if d.DList? || d.DObj? {
      k := ReadsBrackets(p, d);
    } else {
      ReadsOne(p, d);
    }
  }

  lemma ReadsOne(p: Parser, d: Doc)
    requires Expects(p) && Proper(d) && !d.DList? && !d.DObj?
    ensures AllFine(Tokens(d)) && RunTokens(p, Tokens(d)) == Ok(Read(p, Value(d), p.dictKey)) && Nesting(d) == 0
  {
    var t := Scalar(d);
    assert Fine(t);
    RunOne(p, t);
    hide RunTokens, Read, Handle, Lit.AllAllowed, Lit.AllSaid, IsNumber, Expects;
    assert KindOf(t) == JSONRoundTrip.KindOf(Value(d)) && TokenOf(t) == JSONRoundTrip.TokenOf(Value(d));
    PlaceScalar(p, Value(d));
  }

  lemma {:induction false} ReadsBrackets(p: Parser, d: Doc) returns (k: string)
    requires Expects(p) && Proper(d) && (d.DList? || d.DObj?)
    ensures AllFine(Tokens(d))
    ensures var r := RunTokens(p, Tokens(d));
            if |p.stack| + Nesting(d) > 500 then r.Err? else r == Ok(Read(p, Value(d), k))
    decreases d, 0, Count(d) + 1
  {
    var open, close := Sign(if d.DList? then '[' else '{'), Sign(if d.DList? then ']' else '}');
    var body, back := TokensOf(d, Count(d)), AfterItem(p.state).value;
    k := p.dictKey;
    RunOne(p, open);
    TokensApart(d);
    PartsApart(d, Count(d));
    assert Nesting(d) == 1 + NestingOf(d, Count(d)) && Value(d) == Parts(d, Count(d));
    assert Tokens(d) == [open] + (body + [close]);
    hide RunTokens, TokensOf, Tokens, Nesting, NestingOf, Proper, Value, Inside, Read;
    OpenHandled(p, d);
    if |p.stack| < 500 {
      k := ReadsParts(p.stack, back, p.dictKey, d, Count(d), p.dictKey);
      var q := Inside(p.stack, back, p.dictKey, d, Count(d), k);
      RunOne(q, close);
      CloseHandled(p, d, k);
      RunTokensJoin(Inside(p.stack, back, p.dictKey, d, 0, p.dictKey), body, [close]);
    } else {
      RunOne(p, close);
      BothFine(body, [close]);
    }
    RunTokensJoin(p, [open], body + [close]);
  }

  lemma BothFine(a: seq<Tok>, b: seq<Tok>)
    requires AllFine(a) && AllFine(b)
    ensures AllFine(a + b)
  {
    hide Fine;
  }

  lemma OpenHandled(p: Parser, d: Doc)
    requires Expects(p) && (d.DList? || d.DObj?)
    ensures var r := Handle(p, KindOf(Sign(if d.DList? then '[' else '{')), "");
            if |p.stack| >= 500 then r.Err?
            else r == Ok(Inside(p.stack, AfterItem(p.state).value, p.dictKey, d, 0, p.dictKey))
  {
  }

  lemma CloseHandled(p: Parser, d: Doc, k: string)
    requires Expects(p) && Proper(d) && (d.DList? || d.DObj?) && |p.stack| < 500
    ensures Handle(Inside(p.stack, AfterItem(p.state).value, p.dictKey, d, Count(d), k),
                   KindOf(Sign(if d.DList? then ']' else '}')), "") == Ok(Read(p, Value(d), k))
  {
    var f := Frame(AfterItem(p.state).value, Value(d), p.dictKey);
    InsideIs(p, d, k, f);
    hide Value, Parts, Inside, Handle, Close, Read, Expects, Proper, ProperParts;
    var q := Inside(p.stack, AfterItem(p.state).value, p.dictKey, d, Count(d), k);
    Closed(p, q, f, k);
    HandleCloses(q, d.DObj?);
  }

  lemma InsideIs(p: Parser, d: Doc, k: string, f: Frame)
    requires Expects(p) && Proper(d) && (d.DList? || d.DObj?)
    requires f == Frame(AfterItem(p.state).value, Value(d), p.dictKey)
    ensures ProperParts(d, Count(d)) && Container(Value(d))
    ensures var q := Inside(p.stack, AfterItem(p.state).value, p.dictKey, d, Count(d), k);
            && q.stack == p.stack + [f] && q.dictKey == k
            && if d.DObj? then q.state == PsDictBegin || q.state == PsDictAfterItem
               else q.state == PsArrayBegin || q.state == PsArrayAfterItem
  {
    assert Value(d) == Parts(d, Count(d));
    hide Value;
  }

  lemma HandleCloses(q: Parser, obj: bool)
    requires if obj then q.state == PsDictBegin || q.state == PsDictAfterItem
             else q.state == PsArrayBegin || q.state == PsArrayAfterItem
    ensures Handle(q, KindOf(Sign(if obj then '}' else ']')), "") == Close(q)
  {
    hide Close;
  }

  lemma Closed(p: Parser, q: Parser, f: Frame, k: string)
    requires Expects(p) && Container(f.item) && q.stack == p.stack + [f] && q.dictKey == k
    requires f.back == AfterItem(p.state).value && f.key == p.dictKey
    ensures Close(q) == Ok(Read(p, f.item, k))
  {
    assert q.stack[|q.stack| - 1] == f && q.stack[..|q.stack| - 1] == p.stack;
    assert p.stack == [] ==> q.stack == [f];
    hide AddToTop;
  }

  lemma {:induction false} ReadsParts(base: seq<Frame>, back: ParserState, key: string, d: Doc, n: nat, k: string)
    returns (k': string)
    requires (d.DList? || d.DObj?) && n <= Count(d) && ProperParts(d, n) && |base| < 500
    ensures AllFine(TokensOf(d, n))
    ensures var r := RunTokens(Inside(base, back, key, d, 0, k), TokensOf(d, n));
            if |base| + 1 + NestingOf(d, n) > 500 then r.Err? else r == Ok(Inside(base, back, key, d, n, k'))
    decreases d, 0, n
  {
    if n == 0 {
      NoTokens(Inside(base, back, key, d, 0, k));
      return k;
    }
    var i := n - 1;
    var a, b, c := TokensOf(d, i), LeadOf(d, i), Tokens(Sub(d, i));
    assert TokensOf(d, n) == a + b + c && NestingOf(d, n) == Max(NestingOf(d, i), Nesting(Sub(d, i)));
    hide RunTokens, TokensOf, LeadOf, Tokens, Nesting, NestingOf, Inside, Read, Value, Parts, Expects;
    PartsApart(d, n);
    var k1 := ReadsParts(base, back, key, d, i, k);
    ReadsLeadOf(base, back, key, d, i, k1);
    var k2 := KeyOf(d, i, k1);
    ItemAdded(base, back, key, d, i, k2, k1);
    k' := ReadsDoc(Before(base, back, key, d, i, k2), Sub(d, i));
    ItemAdded(base, back, key, d, i, k2, k');
    var p := Inside(base, back, key, d, 0, k);
    RunTokensJoin(p, a, b);
    RunTokensJoin(p, a + b, c);
  }

  // Every text of a document is read as its value, exactly if it is nested at most 500 deep.
  lemma TextRead(d: Doc, gaps: seq<string>, after: string)
    requires Proper(d) && |gaps| == |Tokens(d)| && Gaps(gaps) && Lit.AllBlank(after)
    ensures var r := ParseText(Laid(Tokens(d), gaps) + after);
            if Nesting(d) <= 500 then r == Ok(Value(d)) else r == Err(Malformed)
  {
    hide Run, RunTokens, Value, Nesting, Tokens, Laid, Read, Expects, ParseText, Apart, AllFine, Proper, Gaps;
    StartExpects();
    var k := ReadsDoc(START, d);
    TokensApart(d);
    RunLaid(START, Tokens(d), gaps, after, 0);
    if Nesting(d) <= 500 {
      IsParsed(Laid(Tokens(d), gaps) + after, Value(d), k);
    } else {
      NotParsed(Laid(Tokens(d), gaps) + after);
    }
  }

  lemma StartExpects()
    ensures Expects(START) && |START.stack| == 0
  {
  }

  lemma IsParsed(text: string, j: Json, k: string)
    requires Expects(START) && Run(START, text, 0) == Ok(Read(START, j, k))
    ensures ParseText(text) == Ok(j)
  {
    hide Run;
  }

  lemma NotParsed(text: string)
    requires Run(START, text, 0).Err?
    ensures ParseText(text) == Err(Malformed)
  {
    hide Run;
    assert Run(START, text, 0).error == Malformed;
  }
}
