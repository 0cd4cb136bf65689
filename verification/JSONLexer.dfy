/**
 * The lexer of JSONParser, getToken of libqpdf/JSON.cc, one character after the other.
 */
module JSONLexer {
  import opened Wrappers
  import opened JSONModel

  datatype LexState =
    | LsTop | LsNumber | LsNumberMinus | LsNumberLeadingZero | LsNumberBeforePoint | LsNumberPoint
    | LsNumberAfterPoint | LsNumberE | LsNumberESign | LsAlpha | LsString | LsAfterString | LsBackslash
    | LsU4 | LsBeginArray | LsEndArray | LsBeginDict | LsEndDict | LsColon | LsComma

  datatype Error = Malformed

  // The fields of the parser that lexing uses. highOffset is 0 if no high surrogate waits.
  datatype Lexer = Lexer(state: LexState, token: string, uCount: nat, uValue: nat, high: nat, highOffset: nat) {
    // append and ignore
    function Append(c: char): Lexer {
      this.(token := token + [c])
    }

    function AppendTo(c: char, next: LexState): Lexer {
      this.(token := token + [c], state := next)
    }

    function IgnoreTo(next: LexState): Lexer {
      this.(state := next)
    }
  }

  const FRESH := Lexer(LsTop, "", 0, 0, 0, 0)

  // What one character does: it is used up, it ends a token with itself or before itself, or it is wrong.
  datatype Step = Used(l: Lexer) | Returned(l: Lexer) | Stopped | Failed

  // ---------------------------------------------------------------- unicode

  function Utf8(u: nat): (r: string)
    requires u < 0x110000
    ensures u < 128 ==> r == [u as char]
  {
    if u < 0x80 then [u as char]
    else if u < 0x800 then [(0xC0 + u / 64) as char, (0x80 + u % 64) as char]
    else if u < 0x10000 then [(0xE0 + u / 4096) as char, (0x80 + u / 64 % 64) as char, (0x80 + u % 64) as char]
    else
      [(0xF0 + u / 262144) as char, (0x80 + u / 4096 % 64) as char] +
      [(0x80 + u / 64 % 64) as char, (0x80 + u % 64) as char]
  }

  predicate HighSurrogate(u: nat) {
    0xD800 <= u < 0xDC00
  }

  predicate LowSurrogate(u: nat) {
    0xDC00 <= u < 0xE000
  }

  // handle_u_code, for a code whose backslash is at the offset.
  function HandleUCode(l: Lexer, code: nat, offset: nat): Option<Lexer>
    requires code < 0x10000
  {
    if HighSurrogate(code) then
      if l.highOffset != 0 then None else Some(l.(highOffset := offset, high := code))
    else if LowSurrogate(code) then
      if offset != l.highOffset + 6 then None
      else
        var u := 0x10000 + l.high % 0x400 * 0x400 + code % 0x400;
        Some(l.(highOffset := 0, token := l.token + Utf8(u)))
    else Some(l.(token := l.token + Utf8(code)))
  }

  // 16 for what is not a digit.
  function HexValue(c: char): nat {
    if '0' <= c <= '9' then c as int - '0' as int
    else if c >= 'a' then c as int - 'a' as int + 10
    else if c >= 'A' then c as int - 'A' as int + 10
    else 16
  }

  // ---------------------------------------------------------------- one character

  function LexSeparator(l: Lexer, c: char): Step {
    if l.state == LsString then Used(l.Append(c))
    else if l.state != LsTop then Stopped
    else
      match c
      case ',' => Returned(l.IgnoreTo(LsComma))
      case ':' => Returned(l.IgnoreTo(LsColon))
      case '{' => Returned(l.IgnoreTo(LsBeginDict))
      case '}' => Returned(l.IgnoreTo(LsEndDict))
      case '[' => Returned(l.IgnoreTo(LsBeginArray))
      case ']' => Returned(l.IgnoreTo(LsEndArray))
      case _ => Used(l)
  }

  function LexTop(l: Lexer, c: char): Step {
    if c == '\"' then Used(l.IgnoreTo(LsString))
    else if 'a' <= c <= 'z' then Used(l.AppendTo(c, LsAlpha))
    else if c == '-' then Used(l.AppendTo(c, LsNumberMinus))
    else if '1' <= c <= '9' then Used(l.AppendTo(c, LsNumberBeforePoint))
    else if c == '0' then Used(l.AppendTo(c, LsNumberLeadingZero))
    else Failed
  }

  function LexNumber(l: Lexer, c: char): Step {
    match l.state
    case LsNumberMinus =>
      if '1' <= c <= '9' then Used(l.AppendTo(c, LsNumberBeforePoint))
      else if c == '0' then Used(l.AppendTo(c, LsNumberLeadingZero))
      else Failed
    case LsNumberLeadingZero =>
      if c == '.' then Used(l.AppendTo(c, LsNumberPoint))
      else if c == 'e' || c == 'E' then Used(l.AppendTo(c, LsNumberE))
      else Failed
    case LsNumberBeforePoint =>
      if Digit(c) then Used(l.Append(c))
      else if c == '.' then Used(l.AppendTo(c, LsNumberPoint))
      else if c == 'e' || c == 'E' then Used(l.AppendTo(c, LsNumberE))
      else Failed
    case LsNumberPoint => if Digit(c) then Used(l.AppendTo(c, LsNumberAfterPoint)) else Failed
    case LsNumberAfterPoint =>
      if Digit(c) then Used(l.Append(c))
      else if c == 'e' || c == 'E' then Used(l.AppendTo(c, LsNumberE))
      else Failed
    case LsNumberE =>
      if Digit(c) then Used(l.AppendTo(c, LsNumber))
      else if c == '+' || c == '-' then Used(l.AppendTo(c, LsNumberESign))
      else Failed
    case LsNumberESign => if Digit(c) then Used(l.AppendTo(c, LsNumber)) else Failed
    case LsNumber => if Digit(c) then Used(l.Append(c)) else Failed
    case _ => Failed
  }

  function LexString(l: Lexer, c: char, offset: nat): Step {
    if c == '\"' then
      if l.highOffset != 0 then Failed else Returned(l.IgnoreTo(LsAfterString))
    else if c == '\\' then Used(l.IgnoreTo(LsBackslash))
    else Used(l.Append(c))
  }

  function LexBackslash(l: Lexer, c: char): Step {
    match c
    case '\\' => Used(l.AppendTo(c, LsString))
    case '\"' => Used(l.AppendTo(c, LsString))
    case '/' => Used(l.AppendTo(c, LsString))
    case 'b' => Used(l.AppendTo(BACKSPACE, LsString))
    case 'f' => Used(l.AppendTo(FORM_FEED, LsString))
    case 'n' => Used(l.AppendTo('\n', LsString))
    case 'r' => Used(l.AppendTo('\r', LsString))
    case 't' => Used(l.AppendTo('\t', LsString))
    case 'u' => Used(l.(state := LsU4, uCount := 0, uValue := 0))
    case _ => Failed
  }

  // Four digits are below 0x10000, and a backslash and a u come before them.
  function LexU4(l: Lexer, c: char, offset: nat): Step {
    if HexValue(c) >= 16 then Failed
    else
      var l' := l.(uValue := 16 * l.uValue + HexValue(c), uCount := l.uCount + 1);
      if l'.uCount == 4 then
        if l'.uValue >= 0x10000 || offset < 5 then Failed
        else
          var h := HandleUCode(l', l'.uValue, offset - 5);
          if h.None? then Failed else Used(h.value.IgnoreTo(LsString))
      else Used(l')
  }

  function LexChar(l: Lexer, c: char, offset: nat): Step {
    if c < ' ' then
      if c != '\t' && c != '\n' && c != '\r' then Failed
      else if l.state == LsTop then Used(l) else Stopped
    else if c in ",: {}[]" then LexSeparator(l, c)
    else
      match l.state
      case LsTop => LexTop(l, c)
      case LsAlpha => if 'a' <= c <= 'z' then Used(l.Append(c)) else Failed
      case LsString => LexString(l, c, offset)
      case LsBackslash => LexBackslash(l, c)
      case LsU4 => LexU4(l, c, offset)
      case _ => LexNumber(l, c)
  }

  // ---------------------------------------------------------------- one token

  // A token, and what comes after it. Done says that the end of the input was met.
  datatype Lexed = Lexed(kind: LexState, token: string, rest: string, offset: nat, done: bool)

  // The end of the input, or a character that ends the token, was met.
  function AtEnd(l: Lexer): Result<LexState, Error> {
    if l.token == "" then Ok(l.state)
    else
      match l.state
      case LsNumberLeadingZero => Ok(LsNumber)
      case LsNumberBeforePoint => Ok(LsNumber)
      case LsNumberAfterPoint => Ok(LsNumber)
      case LsNumber => Ok(LsNumber)
      case LsAlpha => Ok(LsAlpha)
      case _ => Err(Malformed)
  }

  function Ended(l: Lexer, rest: string, offset: nat, done: bool): Result<Lexed, Error> {
    var r := AtEnd(l);
    if r.Err? then Err(r.error) else Ok(Lexed(r.value, l.token, rest, offset, done))
  }

  predicate Blank(c: char) {
    c == ' ' || c == '\t' || c == '\n' || c == '\r'
  }

  // A character at which token_start is set if it is the first of a token.
  predicate StartsItem(c: char) {
    c >= ' ' && c !in ",: }]"
  }

  // Where the next token starts: white space comes before it.
  function TokenStart(input: string, offset: nat): (start: nat)
    ensures offset <= start <= offset + |input|
  {
    if input == "" || !Blank(input[0]) then offset else TokenStart(input[1..], offset + 1)
  }

  function Lex(l: Lexer, input: string, offset: nat): (r: Result<Lexed, Error>)
    ensures r.Ok? ==> |r.value.rest| <= |input|
    ensures r.Ok? && l.state == LsTop && !r.value.done ==> |r.value.rest| < |input|
    decreases |input|
  {
    if input == "" then Ended(l, input, offset, true)
    else
      match LexChar(l, input[0], offset)
      case Used(l') => Lex(l', input[1..], offset + 1)
      case Returned(l') => Ok(Lexed(l'.state, l'.token, input[1..], offset + 1, false))
      case Stopped => Ended(l, input, offset, false)
      case Failed => Err(Malformed)
  }
}
