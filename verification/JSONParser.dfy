/**
 * JSONParser of libqpdf/JSON.cc: a lexer and a parser with an explicit stack of the containers that
 * are open.
 */
module JSONParser {
  import opened Wrappers
  import opened JSONModel
  import opened JSONLexer

  datatype ParserState =
    | PsTop | PsDictBegin | PsDictAfterKey | PsDictAfterColon | PsDictAfterItem | PsDictAfterComma
    | PsArrayBegin | PsArrayAfterItem | PsArrayAfterComma | PsDone

  // A container that is open, the state to go back to when it closes, and the key it is for.
  datatype Frame = Frame(back: ParserState, item: Json, key: string)

  const MAX_DEPTH := 500

  datatype Parser = Parser(state: ParserState, stack: seq<Frame>, dictKey: string)

  const START := Parser(PsTop, [], "")

  predicate Container(j: Json) {
    j.Dict? || j.Array?
  }

  // The container with one item more: addDictionaryMember or addArrayElement.
  function Added(f: Frame, key: string, item: Json): Frame {
    match f.item
    case Dict(_) => f.(item := AddMember(f.item, key, item))
    case Array(items) => f.(item := Array(items + [item]))
    case _ => f
  }

  function AddToTop(stack: seq<Frame>, key: string, item: Json): seq<Frame>
    requires stack != []
  {
    stack[|stack| - 1 := Added(stack[|stack| - 1], key, item)]
  }

  // The state once an item has been read, or none where no item can stand.
  function AfterItem(s: ParserState): Option<ParserState> {
    match s
    case PsDictAfterColon => Some(PsDictAfterItem)
    case PsArrayBegin => Some(PsArrayAfterItem)
    case PsArrayAfterComma => Some(PsArrayAfterItem)
    case PsTop => Some(PsDone)
    case _ => None
  }

  function Open(p: Parser, item: Json, back: ParserState): Result<Parser, Error>
    requires Container(item)
  {
    if |p.stack| + 1 > MAX_DEPTH then Err(Malformed)
    else
      var stack := p.stack + [Frame(back, item, p.dictKey)];
      Ok(Parser(if item.Dict? then PsDictBegin else PsArrayBegin, stack, p.dictKey))
  }

  function Place(p: Parser, item: Json): Result<Parser, Error> {
    var s := AfterItem(p.state);
    if s.None? then Err(Malformed)
    else if Container(item) then Open(p, item, s.value)
    else if p.state == PsTop then Ok(p.(state := PsDone, stack := p.stack + [Frame(PsDone, item, "")]))
    else if p.stack == [] then Err(Malformed)
    else Ok(p.(state := s.value, stack := AddToTop(p.stack, p.dictKey, item)))
  }

  function Close(p: Parser): Result<Parser, Error> {
    if p.stack == [] then Err(Malformed)
    else
      var f, below := p.stack[|p.stack| - 1], p.stack[..|p.stack| - 1];
      if f.back == PsDone then Ok(p.(state := PsDone))
      else if below == [] then Err(Malformed)
      else Ok(p.(state := f.back, stack := AddToTop(below, f.key, f.item)))
  }

  function Keyword(token: string): Option<Json> {
    if token == "true" then Some(Bool(true))
    else if token == "false" then Some(Bool(false))
    else if token == "null" then Some(Null)
    else None
  }

  // The item that starts with a token.
  function ItemOf(kind: LexState, token: string): Option<Json> {
    match kind
    case LsBeginDict => Some(Dict([]))
    case LsBeginArray => Some(Array([]))
    case LsNumber => Some(Number(token))
    case LsAlpha => Keyword(token)
    case LsAfterString => Some(Str(token))
    case _ => None
  }

  function Handle(p: Parser, kind: LexState, token: string): Result<Parser, Error> {
    if kind == LsTop then Ok(p)
    else if p.state == PsDone then Err(Malformed)
    else
      match kind
      case LsBeginDict => Place(p, Dict([]))
      case LsBeginArray => Place(p, Array([]))
      case LsColon => if p.state == PsDictAfterKey then Ok(p.(state := PsDictAfterColon)) else Err(Malformed)
      case LsComma =>
        if p.state == PsDictAfterItem then Ok(p.(state := PsDictAfterComma))
        else if p.state == PsArrayAfterItem then Ok(p.(state := PsArrayAfterComma))
        else Err(Malformed)
      case LsEndArray => if p.state == PsArrayBegin || p.state == PsArrayAfterItem then Close(p) else Err(Malformed)
      case LsEndDict => if p.state == PsDictBegin || p.state == PsDictAfterItem then Close(p) else Err(Malformed)
      case LsNumber => Place(p, Number(token))
      case LsAlpha => if Keyword(token).None? then Err(Malformed) else Place(p, Keyword(token).value)
      case LsAfterString =>
        if p.state == PsDictBegin || p.state == PsDictAfterComma then Ok(p.(dictKey := token, state := PsDictAfterKey))
        else Place(p, Str(token))
      case _ => Err(Malformed)
  }

  // All tokens of the input.
  function Run(p: Parser, input: string, offset: nat): Result<Parser, Error>
    decreases |input|
  {
    var t := Lex(FRESH, input, offset);
    if t.Err? then Err(t.error)
    else
      var h := Handle(p, t.value.kind, t.value.token);
      if h.Err? || t.value.done then h else Run(h.value, t.value.rest, t.value.offset)
  }

  function ParseText(input: string): Result<Json, Error> {
    var r := Run(START, input, 0);
    if r.Err? then Err(r.error)
    else if r.value.state != PsDone || r.value.stack == [] then Err(Malformed)
    else Ok(r.value.stack[|r.value.stack| - 1].item)
  }

  // ---------------------------------------------------------------- where items start and end

  // An item that is complete, and the part of the input that it was read from: setStart and setEnd.
  datatype Placed = Placed(item: Json, start: nat, end: nat)

  // The starts of the items on the stack, and the complete items in the order in which they ended.
  datatype Marks = Marks(starts: seq<nat>, placed: seq<Placed>)

  const NO_MARKS := Marks([], [])

  function MarkPlace(p: Parser, m: Marks, item: Json, start: nat, end: nat): Marks {
    Marks(if Container(item) || p.state == PsTop then m.starts + [start] else m.starts,
          if Container(item) then m.placed else m.placed + [Placed(item, start, end)])
  }

  function MarkClose(p: Parser, m: Marks, end: nat): Marks {
    if p.stack == [] || m.starts == [] then m
    else
      var f, n := p.stack[|p.stack| - 1], |m.starts| - 1;
      Marks(if f.back == PsDone then m.starts else m.starts[..n], m.placed + [Placed(f.item, m.starts[n], end)])
  }

  // What a token from start to end does.
  function Mark(p: Parser, m: Marks, kind: LexState, token: string, start: nat, end: nat): Marks {
    match kind
    case LsBeginDict => MarkPlace(p, m, Dict([]), start, end)
    case LsBeginArray => MarkPlace(p, m, Array([]), start, end)
    case LsEndArray => MarkClose(p, m, end)
    case LsEndDict => MarkClose(p, m, end)
    case LsNumber => MarkPlace(p, m, Number(token), start, end)
    case LsAlpha => if Keyword(token).None? then m else MarkPlace(p, m, Keyword(token).value, start, end)
    case LsAfterString =>
      if p.state == PsDictBegin || p.state == PsDictAfterComma then m else MarkPlace(p, m, Str(token), start, end)
    case _ => m
  }

  function RunMarks(p: Parser, m: Marks, input: string, offset: nat): Marks
    decreases |input|
  {
    var t := Lex(FRESH, input, offset);
    if t.Err? then m
    else
      var h := Handle(p, t.value.kind, t.value.token);
      if h.Err? then m
      else
        var m' := Mark(p, m, t.value.kind, t.value.token, TokenStart(input, offset), t.value.offset);
        if t.value.done then m' else RunMarks(h.value, m', t.value.rest, t.value.offset)
  }

  // All items of the input.
  function Items(input: string): seq<Placed> {
    RunMarks(START, NO_MARKS, input, 0).placed
  }

  // ---------------------------------------------------------------- what every state keeps

  // The state says what the innermost container is.
  predicate Fits(s: ParserState, j: Json) {
    match s
    case PsDictBegin => j == Dict([])
    case PsDictAfterKey => j.Dict?
    case PsDictAfterColon => j.Dict?
    case PsDictAfterItem => j.Dict? && j.members != []
    case PsDictAfterComma => j.Dict? && j.members != []
    case PsArrayBegin => j == Array([])
    case PsArrayAfterItem => j.Array? && j.items != []
    case PsArrayAfterComma => j.Array? && j.items != []
    case _ => true
  }

  // The stack is empty only at the top. Its bottom goes back to the end, every other frame goes back
  // to the state after an item of the container below it.
  ghost predicate WellFormed(p: Parser) {
    && (p.stack == [] <==> p.state == PsTop)
    && |p.stack| <= MAX_DEPTH
    && (p.state == PsDone ==> |p.stack| == 1 && p.stack[0].back == PsDone)
    && (p.state != PsTop && p.state != PsDone ==> Nested(p.stack) && Fits(p.state, p.stack[|p.stack| - 1].item))
  }

  ghost predicate Nested(stack: seq<Frame>) {
    forall i :: 0 <= i < |stack| ==> Container(stack[i].item) && stack[i].back == Back(stack, i)
  }

  lemma NestedBelow(stack: seq<Frame>)
    requires Nested(stack) && stack != []
    ensures Nested(stack[..|stack| - 1])
  {
    var b := stack[..|stack| - 1];
    forall i | 0 <= i < |b| ensures Container(b[i].item) && b[i].back == Back(b, i) {
      assert b[i] == stack[i] && Back(b, i) == Back(stack, i);
    }
  }

  lemma NestedPush(stack: seq<Frame>, f: Frame)
    requires Nested(stack) && Container(f.item)
    requires f.back == if stack == [] then PsDone
                       else if stack[|stack| - 1].item.Dict? then PsDictAfterItem else PsArrayAfterItem
    ensures Nested(stack + [f])
  {
    var b := stack + [f];
    assert f.back == Back(b, |stack|);
    hide Container, Back;
    forall i | 0 <= i < |b| ensures Container(b[i].item) && b[i].back == Back(b, i) {
      if i < |stack| {
        SameBack(stack, b, i);
      }
    }
  }

  lemma NestedAdd(stack: seq<Frame>, key: string, item: Json)
    requires Nested(stack) && stack != []
    ensures var b := AddToTop(stack, key, item); var n := |stack|;
            && |b| == n && Nested(b)
            && (stack[n - 1].item.Dict? ==> Fits(PsDictAfterItem, b[n - 1].item))
            && (stack[n - 1].item.Array? ==> Fits(PsArrayAfterItem, b[n - 1].item))
  {
    var n := |stack|;
    var f := stack[n - 1];
    AddedKeeps(f, key, item);
    var g := Added(f, key, item);
    assert f.item.Dict? ==> Fits(PsDictAfterItem, g.item);
    assert f.item.Array? ==> Fits(PsArrayAfterItem, g.item);
    hide Added, Fits;
    NestedReplace(stack, g);
  }

  lemma NestedReplace(stack: seq<Frame>, g: Frame)
    requires Nested(stack) && stack != []
    requires var f := stack[|stack| - 1]; g.back == f.back && Container(g.item) && (g.item.Dict? <==> f.item.Dict?)
    ensures Nested(stack[|stack| - 1 := g])
  {
    var b := stack[|stack| - 1 := g];
    hide Container, Back;
    forall i | 0 <= i < |b| ensures Container(b[i].item) && b[i].back == Back(b, i) {
      assert Container(stack[i].item) && stack[i].back == Back(stack, i);
      SameBack(stack, b, i);
    }
  }

  lemma SameBack(stack: seq<Frame>, b: seq<Frame>, i: nat)
    requires i < |stack| && i < |b| && (i > 0 ==> b[i - 1] == stack[i - 1])
    ensures Back(b, i) == Back(stack, i)
  {
  }

  function Back(stack: seq<Frame>, i: nat): ParserState
    requires i < |stack|
  {
    if i == 0 then PsDone else if stack[i - 1].item.Dict? then PsDictAfterItem else PsArrayAfterItem
  }

  lemma {:induction false} PutSome(ms: seq<Member>, m: Member)
    ensures Put(ms, m) != []
  {
    if ms != [] && ms[0].key != m.key && !Less(m.key, ms[0].key) {
      PutSome(ms[1..], m);
    }
  }

  lemma AddedKeeps(f: Frame, key: string, item: Json)
    requires Container(f.item)
    ensures var g := Added(f, key, item);
            && g.back == f.back && (g.item.Dict? <==> f.item.Dict?) && (g.item.Array? <==> f.item.Array?)
            && (g.item.Dict? ==> g.item.members != []) && (g.item.Array? ==> g.item.items != [])
  {
    if f.item.Dict? {
      PutSome(f.item.members, Member(Encode(key), item));
    }
  }

  lemma PlaceKeeps(p: Parser, item: Json)
    requires WellFormed(p) && p.state != PsDone && (item.Dict? ==> item == Dict([])) &&
              (item.Array? ==> item == Array([]))
    ensures Place(p, item).Ok? ==> WellFormed(Place(p, item).value)
  {
    hide Nested, AddToTop;
    if Place(p, item).Ok? {
      if Container(item) {
        if p.state == PsTop {
          NestedNone();
        }
        NestedPush(p.stack, Frame(AfterItem(p.state).value, item, p.dictKey));
      } else if p.state != PsTop {
        NestedAdd(p.stack, p.dictKey, item);
      }
    }
  }

  lemma NestedNone()
    ensures Nested([])
  {
  }

  lemma CloseKeeps(p: Parser)
    requires WellFormed(p) && p.state != PsDone && p.state != PsTop
    ensures Close(p).Ok? && WellFormed(Close(p).value)
  {
    CloseIs(p);
    OpenOnes(p);
    hide Close;
    if |p.stack| > 1 {
      CloseNested(p);
    } else {
      hide Nested, Fits;
    }
  }

  lemma CloseNested(p: Parser)
    requires WellFormed(p) && p.state != PsDone && p.state != PsTop && |p.stack| > 1
    ensures var n := |p.stack|;
            var f, below := p.stack[n - 1], p.stack[..n - 1];
            WellFormed(Parser(f.back, AddToTop(below, f.key, f.item), p.dictKey))
  {
    var n := |p.stack|;
    var f, below := p.stack[n - 1], p.stack[..n - 1];
    NestedBelow(p.stack);
    assert below[n - 2] == p.stack[n - 2] && Container(below[n - 2].item);
    assert f.back == Back(p.stack, n - 1);
    hide Nested, AddToTop;
    NestedAdd(below, f.key, f.item);
  }

  lemma CloseIs(p: Parser)
    requires WellFormed(p) && p.state != PsDone && p.state != PsTop
    ensures p.stack != []
    ensures var f, below := p.stack[|p.stack| - 1], p.stack[..|p.stack| - 1];
            if f.back == PsDone then Close(p) == Ok(Parser(PsDone, p.stack, p.dictKey))
            else below != [] && Close(p) == Ok(Parser(f.back, AddToTop(below, f.key, f.item), p.dictKey))
  {
    OpenOnes(p);
    hide WellFormed, AddToTop;
  }

  lemma OpenOnes(p: Parser)
    requires WellFormed(p) && p.state != PsDone && p.state != PsTop
    ensures p.stack != [] && (p.stack[|p.stack| - 1].back == PsDone <==> |p.stack| == 1)
  {
    var n := |p.stack|;
    assert p.stack[n - 1].back == Back(p.stack, n - 1);
  }

  lemma HandleKeeps(p: Parser, kind: LexState, token: string)
    requires WellFormed(p) && Handle(p, kind, token).Ok?
    ensures WellFormed(Handle(p, kind, token).value)
  {
    hide Place, Close, Nested;
    match kind
    case LsBeginDict => PlaceKeeps(p, Dict([]));
    case LsBeginArray => PlaceKeeps(p, Array([]));
    case LsNumber => PlaceKeeps(p, Number(token));
    case LsAlpha => PlaceKeeps(p, Keyword(token).value);
    case LsAfterString =>
      if p.state != PsDictBegin && p.state != PsDictAfterComma {
        PlaceKeeps(p, Str(token));
      }
    case LsEndArray => CloseKeeps(p);
    case LsEndDict => CloseKeeps(p);
    case _ =>
  }

  // Every state that any input leads to is well formed, and a parse that gets to the end has an item.
  lemma {:induction false} RunKeeps(p: Parser, input: string, offset: nat)
    requires WellFormed(p)
    ensures Run(p, input, offset).Ok? ==> WellFormed(Run(p, input, offset).value)
    decreases |input|
  {
    var t := Lex(FRESH, input, offset);
    if t.Ok? && Handle(p, t.value.kind, t.value.token).Ok? {
      HandleKeeps(p, t.value.kind, t.value.token);
      if !t.value.done {
        RunKeeps(Handle(p, t.value.kind, t.value.token).value, t.value.rest, t.value.offset);
      }
    }
  }

  lemma MarkKeeps(p: Parser, m: Marks, kind: LexState, token: string, start: nat, end: nat)
    requires WellFormed(p) && Handle(p, kind, token).Ok? && |m.starts| == |p.stack|
    ensures |Mark(p, m, kind, token, start, end).starts| == |Handle(p, kind, token).value.stack|
  {
    hide Added, Nested, Fits;
    if kind == LsEndArray || kind == LsEndDict {
      OpenOnes(p);
    }
  }

  lemma DelimiterIs(p: Parser, m: Marks, kind: LexState, token: string, start: nat, end: nat)
    requires p.state != PsDone
    ensures kind == LsColon ==>
              Handle(p, kind, token) ==
              if p.state == PsDictAfterKey then Ok(p.(state := PsDictAfterColon)) else Err(Malformed)
    ensures kind == LsComma ==>
              Handle(p, kind, token) ==
              if p.state == PsDictAfterItem then Ok(p.(state := PsDictAfterComma))
              else if p.state == PsArrayAfterItem then Ok(p.(state := PsArrayAfterComma))
              else Err(Malformed)
    ensures kind == LsEndArray ==>
              Handle(p, kind, token) ==
              if p.state == PsArrayBegin || p.state == PsArrayAfterItem then Close(p) else Err(Malformed)
    ensures kind == LsEndDict ==>
              Handle(p, kind, token) ==
              if p.state == PsDictBegin || p.state == PsDictAfterItem then Close(p) else Err(Malformed)
    ensures kind == LsColon || kind == LsComma ==> Mark(p, m, kind, token, start, end) == m
    ensures kind == LsEndArray || kind == LsEndDict ==> Mark(p, m, kind, token, start, end) == MarkClose(p, m, end)
  {
    hide Close, MarkClose;
  }

  // The tokens that an item starts with.
  predicate OpensItem(kind: LexState) {
    kind == LsBeginDict || kind == LsBeginArray || kind == LsNumber || kind == LsAlpha || kind == LsAfterString
  }

  // For other tokens it does not matter where they start.
  lemma MarkAlike(p: Parser, m: Marks, kind: LexState, token: string, start: nat, start': nat, end: nat)
    requires OpensItem(kind) ==> start' == start
    ensures Mark(p, m, kind, token, start', end) == Mark(p, m, kind, token, start, end)
  {
  }

  lemma Drop(s: string, i: nat)
    requires i < |s|
    ensures s[i..] != "" && s[i..][0] == s[i] && s[i..][1..] == s[i + 1..]
  {
  }

  // Lex and TokenStart, one character on.
  lemma LexNext(l: Lexer, input: string, offset: nat)
    requires input != ""
    ensures Lex(l, input, offset) ==
            match LexChar(l, input[0], offset)
            case Used(l') => Lex(l', input[1..], offset + 1)
            case Returned(l') => Ok(Lexed(l'.state, l'.token, input[1..], offset + 1, false))
            case Stopped => Ended(l, input, offset, false)
            case Failed => Err(Malformed)
    ensures TokenStart(input, offset) == if Blank(input[0]) then TokenStart(input[1..], offset + 1) else offset
  {
  }

  lemma LexEnd(l: Lexer, offset: nat)
    ensures Lex(l, "", offset) == Ended(l, "", offset, true)
  {
  }

  // A token starts with the first character that is not white space.
  lemma InToken(l: Lexer, c: char, offset: nat)
    ensures var step := LexChar(l, c, offset);
            && (Blank(c) && l.state == LsTop ==> step == Used(l) && !StartsItem(c))
            && (!Blank(c) && l.state == LsTop ==> !step.Stopped? && (step.Used? ==> step.l.state != LsTop))
            && (!Blank(c) && l.state == LsTop && !StartsItem(c) ==>
                  step.Failed? || (step.Returned? && !OpensItem(step.l.state)))
            && (l.state != LsTop && step.Used? ==> step.l.state != LsTop)
  {
  }

  // ---------------------------------------------------------------- the parser

  class JSONParser {
    const input: string
    var lexState: LexState
    var token: string
    var offset: nat
    var done: bool
    var parserState: ParserState
    var stack: seq<Frame>
    var dictKey: string
    var tokenStart: nat
    var starts: seq<nat>
    var placed: seq<Placed>

    constructor (input: string)
      ensures this.input == input && lexState == LsTop && offset == 0 && !done && State() == START
      ensures Recorded() == NO_MARKS
    {
      this.input := input;
      lexState, token, offset, done := LsTop, "", 0, false;
      parserState, stack, dictKey := PsTop, [], "";
      tokenStart, starts, placed := 0, [], [];
    }

    ghost function State(): Parser
      reads this
    {
      Parser(parserState, stack, dictKey)
    }

    ghost function Recorded(): Marks
      reads this
    {
      Marks(starts, placed)
    }

    // The token is in the fields, and the rest of the input comes next.
    ghost predicate Got(t: Result<Lexed, Error>, r: Option<Error>)
      reads this
    {
      && offset <= |input|
      && if t.Err? then r == Some(t.error)
         else r == None && t.value == Lexed(lexState, token, input[offset..], offset, done)
    }

    method GetToken() returns (r: Option<Error>)
      requires lexState == LsTop && offset <= |input|
      modifies this`lexState, this`token, this`offset, this`done, this`tokenStart
      ensures Got(Lex(FRESH, old(input[offset..]), old(offset)), r)
      ensures r.None? && OpensItem(lexState) ==> tokenStart == TokenStart(old(input[offset..]), old(offset))
    {
      ghost var all := Lex(FRESH, input[offset..], offset);
      ghost var begin := TokenStart(input[offset..], offset);
      hide Lex, LexChar, TokenStart, Ended, OpensItem;
      var l := FRESH;
      done := false;
      while true
        invariant offset <= |input| && !done && all == Lex(l, input[offset..], offset) && Begun(l, begin)
        decreases |input| - offset
      {
        if offset == |input| {
          LexEnd(l, offset);
          done := true;
          break;
        }
        var step := NextChar(l, begin);
        match step {
          case Used(next) => l := next;
          case Returned(next) =>
            lexState, token := next.state, next.token;
            return None;
          case Stopped => break;
          case Failed => return Some(Malformed);
        }
      }
      r := EndToken(l);
    }

    // Either the token has begun or it is still to come.
    ghost predicate Begun(l: Lexer, begin: nat)
      reads this
      requires offset <= |input|
    {
      begin == if l.state == LsTop then TokenStart(input[offset..], offset) else tokenStart
    }

    method NextChar(l: Lexer, ghost begin: nat) returns (step: Step)
      requires offset < |input| && Begun(l, begin)
      modifies this`offset, this`tokenStart
      ensures step.Used? || step.Returned? ==> offset == old(offset) + 1 <= |input|
      ensures step.Stopped? || step.Failed? ==> offset == old(offset)
      ensures Lex(l, old(input[offset..]), old(offset)) ==
              match step
              case Used(l') => Lex(l', input[offset..], offset)
              case Returned(l') => Ok(Lexed(l'.state, l'.token, input[offset..], offset, false))
              case Stopped => Ended(l, input[offset..], offset, false)
              case Failed => Err(Malformed)
      ensures step.Used? ==> Begun(step.l, begin)
      ensures step.Returned? && OpensItem(step.l.state) ==> tokenStart == begin
      ensures step.Stopped? ==> l.state != LsTop && tokenStart == begin
    {
      hide Lex, LexChar, TokenStart, Ended, Blank, StartsItem, OpensItem;
      LexNext(l, input[offset..], offset);
      Drop(input, offset);
      if l.state == LsTop && StartsItem(input[offset]) {
        tokenStart := offset;
      }
      step := LexChar(l, input[offset], offset);
      InToken(l, input[offset], offset);
      if step.Used? || step.Returned? {
        offset := offset + 1;
      }
    }

    // The end of the input, or a character that cannot be part of the token, has come.
    method EndToken(l: Lexer) returns (r: Option<Error>)
      requires offset <= |input|
      modifies this`lexState, this`token
      ensures Got(Ended(l, input[offset..], offset, done), r)
      ensures r.None? && OpensItem(lexState) ==> l.state != LsTop
    {
      var kind := AtEnd(l);
      if kind.Err? {
        return Some(kind.error);
      }
      lexState, token := kind.value, l.token;
      r := None;
    }

    // The state and the items are what they should be, or there is the error that there should be.
    ghost predicate Handled(h: Result<Parser, Error>, m: Marks, r: Option<Error>)
      reads this
    {
      if h.Err? then r == Some(h.error)
      else r == None && State() == h.value && WellFormed(h.value) && lexState == LsTop && Recorded() == m &&
           |starts| == |stack|
    }

    method HandleToken() returns (r: Option<Error>)
      requires WellFormed(State()) && |starts| == |stack|
      modifies this`lexState, this`parserState, this`stack, this`dictKey, this`starts, this`placed
      ensures Handled(Handle(old(State()), old(lexState), token),
                Mark(old(State()), old(Recorded()), old(lexState), token, tokenStart, offset), r)
    {
      hide AddToTop, Nested, Keyword, Place, Close, MarkPlace, MarkClose, WellFormed;
      if Handle(State(), lexState, token).Ok? {
        HandleKeeps(State(), lexState, token);
        MarkKeeps(State(), Recorded(), lexState, token, tokenStart, offset);
      }
      r := None;
      if lexState == LsTop {
        return;
      }
      if parserState == PsDone {
        return Some(Malformed);
      }
      if lexState == LsColon || lexState == LsComma || lexState == LsEndArray || lexState == LsEndDict {
        r := HandleDelimiter();
        return;
      }
      if lexState == LsAfterString && (parserState == PsDictBegin || parserState == PsDictAfterComma) {
        dictKey := token;
        parserState := PsDictAfterKey;
      } else {
        var item := ItemOf(lexState, token);
        if item.None? {
          return Some(Malformed);
        }
        r := PlaceItem(item.value);
      }
      lexState := LsTop;
    }

    method HandleDelimiter() returns (r: Option<Error>)
      requires WellFormed(State()) && |starts| == |stack| && parserState != PsDone
      requires lexState == LsColon || lexState == LsComma || lexState == LsEndArray || lexState == LsEndDict
      modifies this`lexState, this`parserState, this`stack, this`starts, this`placed
      ensures Handled(Handle(old(State()), old(lexState), token),
                Mark(old(State()), old(Recorded()), old(lexState), token, tokenStart, offset), r)
    {
      hide AddToTop, Nested, Close, MarkClose, WellFormed, Handle, Mark;
      if Handle(State(), lexState, token).Ok? {
        HandleKeeps(State(), lexState, token);
        MarkKeeps(State(), Recorded(), lexState, token, tokenStart, offset);
      }
      DelimiterIs(State(), Recorded(), lexState, token, tokenStart, offset);
      r := None;
      if lexState == LsColon {
        if parserState != PsDictAfterKey {
          return Some(Malformed);
        }
        parserState := PsDictAfterColon;
      } else if lexState == LsComma {
        if parserState == PsDictAfterItem {
          parserState := PsDictAfterComma;
        } else if parserState == PsArrayAfterItem {
          parserState := PsArrayAfterComma;
        } else {
          return Some(Malformed);
        }
      } else {
        if lexState == LsEndArray && !(parserState == PsArrayBegin || parserState == PsArrayAfterItem) {
          return Some(Malformed);
        }
        if lexState == LsEndDict && !(parserState == PsDictBegin || parserState == PsDictAfterItem) {
          return Some(Malformed);
        }
        CloseContainer();
      }
      lexState := LsTop;
    }

    // The item goes into the innermost container, and becomes that itself if it is one.
    method PlaceItem(item: Json) returns (r: Option<Error>)
      requires WellFormed(State()) && parserState != PsDone
      modifies this`parserState, this`stack, this`starts, this`placed
      ensures var h := Place(old(State()), item);
              if h.Err? then r == Some(h.error) else r == None && State() == h.value
      ensures r.None? ==> Recorded() == MarkPlace(old(State()), old(Recorded()), item, tokenStart, offset)
    {
      hide AddToTop, Nested;
      if !Container(item) {
        placed := placed + [Placed(item, tokenStart, offset)];
      }
      match parserState {
        case PsDictAfterColon =>
          if !Container(item) {
            stack := AddToTop(stack, dictKey, item);
          }
          parserState := PsDictAfterItem;
        case PsArrayBegin =>
          if !Container(item) {
            stack := AddToTop(stack, dictKey, item);
          }
          parserState := PsArrayAfterItem;
        case PsArrayAfterComma =>
          if !Container(item) {
            stack := AddToTop(stack, dictKey, item);
          }
          parserState := PsArrayAfterItem;
        case PsTop =>
          parserState := PsDone;
          if !Container(item) {
            stack := stack + [Frame(PsDone, item, "")];
            starts := starts + [tokenStart];
            return None;
          }
        case _ => return Some(Malformed);
      }
      if Container(item) {
        stack := stack + [Frame(parserState, item, dictKey)];
        starts := starts + [tokenStart];
        parserState := if item.Dict? then PsDictBegin else PsArrayBegin;
        if |stack| > MAX_DEPTH {
          return Some(Malformed);
        }
      }
      r := None;
    }

    method CloseContainer()
      requires WellFormed(State()) && parserState != PsDone && parserState != PsTop && |starts| == |stack|
      modifies this`parserState, this`stack, this`starts, this`placed
      ensures Close(old(State())) == Ok(State())
      ensures Recorded() == MarkClose(old(State()), old(Recorded()), offset)
    {
      hide AddToTop, Nested, WellFormed, Close;
      CloseIs(State());
      assert stack != [];
      var frame, start := stack[|stack| - 1], starts[|starts| - 1];
      parserState := frame.back;
      placed := placed + [Placed(frame.item, start, offset)];
      if parserState != PsDone {
        starts := starts[..|starts| - 1];
        stack := AddToTop(stack[..|stack| - 1], frame.key, frame.item);
      }
    }

    method Parse() returns (r: Result<Json, Error>)
      requires lexState == LsTop && offset == 0 && !done && State() == START && Recorded() == NO_MARKS
      modifies this
      ensures r == ParseText(input)
      ensures r.Ok? ==> placed == Items(input)
    {
      ghost var all, marks := Run(START, input, 0), RunMarks(START, NO_MARKS, input, 0);
      assert input[0..] == input;
      while !done
        invariant offset <= |input| && lexState == LsTop && WellFormed(State()) && |starts| == |stack|
        invariant marks == if done then Recorded() else RunMarks(State(), Recorded(), input[offset..], offset)
        invariant all == if done then Ok(State()) else Run(State(), input[offset..], offset)
        decreases !done, |input| - offset
      {
        hide Lex, Handle, WellFormed, Mark;
        ghost var p, m, start := State(), Recorded(), TokenStart(input[offset..], offset);
        var e := GetToken();
        if e.Some? {
          return Err(e.value);
        }
        MarkAlike(p, m, lexState, token, start, tokenStart, offset);
        e := HandleToken();
        if e.Some? {
          return Err(e.value);
        }
      }
      if parserState != PsDone {
        return Err(Malformed);
      }
      r := Ok(stack[|stack| - 1].item);
    }
  }
}
