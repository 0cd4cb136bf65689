/**
 * What JSON::unparse of libqpdf/JSON.cc writes of a value is a text of RFC 8259 of that value.
 */
module JSONWritten {
  import opened JSONModel
  import opened JSONGrammar
  import opened JSONRoundTrip
  import Lit = JSONLiterals
  import JSONLexer
  import JSONParser

  // ---------------------------------------------------------------- strings

  function PieceOf(c: char): Lit.Piece {
    if JSONModel.Plain(c) then Lit.Plain(c)
    else if c == '\\' || c == '\"' then Lit.Short(c)
    else if c == BACKSPACE then Lit.Short('b')
    else if c == FORM_FEED then Lit.Short('f')
    else if c == '\n' then Lit.Short('n')
    else if c == '\r' then Lit.Short('r')
    else if c == '\t' then Lit.Short('t')
    else Lit.Code((if c as int < 16 then "000" else "001") + [HexDigit(c as int % 16)])
  }

  lemma HexDigitIs(n: nat)
    requires n < 16
    ensures Lit.IsDigit(HexDigit(n)) && Lit.Digit(HexDigit(n)) == n
  {
  }

  lemma PieceIs(c: char)
    ensures var p := PieceOf(c); Lit.Allowed(p) && Lit.Spelled(p) == EncodeChar(c) && Lit.Said(p) == [c]
  {
    if PieceOf(c).Code? {
      var h := PieceOf(c).h;
      HexDigitIs(c as int % 16);
      hide HexDigit;
      assert h[0] == '0' && h[1] == '0' && (h[2] == '0' || h[2] == '1') && h[3] == HexDigit(c as int % 16);
      assert Lit.FourDigits(h) && Lit.Number(h) == c as int;
    }
  }

  lemma {:induction false} BodyJoin(a: seq<Lit.Piece>, b: seq<Lit.Piece>)
    requires Lit.AllAllowed(a) && Lit.AllAllowed(b)
    ensures Lit.AllAllowed(a + b) && Lit.Body(a + b) == Lit.Body(a) + Lit.Body(b)
    ensures Lit.AllSaid(a + b) == Lit.AllSaid(a) + Lit.AllSaid(b)
  {
    hide Lit.Allowed, Lit.Said, Lit.Spelled;
    if a == [] {
      assert a + b == b;
    } else {
      assert (a + b)[0] == a[0] && (a + b)[1..] == a[1..] + b;
      BodyJoin(a[1..], b);
    }
  }

  lemma OnePiece(p: Lit.Piece)
    requires Lit.Allowed(p)
    ensures Lit.AllAllowed([p]) && Lit.Body([p]) == Lit.Spelled(p) && Lit.AllSaid([p]) == Lit.Said(p)
  {
    hide Lit.Allowed, Lit.Said, Lit.Spelled;
    assert [p][1..] == [];
    assert Lit.Body([]) == "" && Lit.AllSaid([]) == "";
  }

  lemma {:induction false} EncodedPieces(s: string) returns (ps: seq<Lit.Piece>)
    ensures Lit.AllAllowed(ps) && Lit.Body(ps) == Encode(s) && Lit.AllSaid(ps) == s
  {
    hide Lit.AllAllowed, Lit.Body, Lit.AllSaid, EncodeChar, PieceOf;
    if s == "" {
      NoPieces();
      return [];
    }
    var c := s[|s| - 1];
    var before := EncodedPieces(s[..|s| - 1]);
    PieceIs(c);
    OnePiece(PieceOf(c));
    BodyJoin(before, [PieceOf(c)]);
    ps := before + [PieceOf(c)];
    assert s[..|s| - 1] + [c] == s;
  }

  lemma NoPieces()
    ensures Lit.AllAllowed([]) && Lit.Body([]) == "" && Lit.AllSaid([]) == ""
  {
  }

  // ---------------------------------------------------------------- texts put together

  lemma {:induction false} LaidJoin(a: seq<Tok>, ga: seq<string>, b: seq<Tok>, gb: seq<string>)
    requires |ga| == |a| && |gb| == |b|
    ensures Laid(a + b, ga + gb) == Laid(a, ga) + Laid(b, gb)
    decreases |a|
  {
    hide Spelled;
    if a == [] {
      assert a + b == b && ga + gb == gb;
    } else {
      assert (a + b)[0] == a[0] && (a + b)[1..] == a[1..] + b;
      assert (ga + gb)[0] == ga[0] && (ga + gb)[1..] == ga[1..] + gb;
      LaidJoin(a[1..], ga[1..], b, gb);
    }
  }

  lemma GapsJoin(a: seq<string>, b: seq<string>)
    requires Gaps(a) && Gaps(b)
    ensures Gaps(a + b)
  {
    hide Lit.AllBlank;
  }

  lemma LaidOne(t: Tok, gap: string)
    ensures Laid([t], [gap]) == gap + Spelled(t)
  {
    assert [t][1..] == [] && [gap][1..] == [];
    assert Laid([], []) == "";
  }

  lemma LaidAfter(ts: seq<Tok>, gaps: seq<string>, gap: string)
    requires |gaps| == |ts| > 0 && gaps[0] == "" && Gaps(gaps) && Lit.AllBlank(gap)
    ensures Gaps(gaps[0 := gap]) && Laid(ts, gaps[0 := gap]) == gap + Laid(ts, gaps)
  {
    hide Lit.AllBlank;
    assert gaps[0 := gap][1..] == gaps[1..];
  }

  lemma IndentBlank(depth: nat)
    ensures Lit.AllBlank(Indent(depth)) && Lit.AllBlank("") && Lit.AllBlank(" ")
  {
  }

  // ---------------------------------------------------------------- containers that grow

  function More(d: Doc, key: seq<Lit.Piece>, x: Doc): Doc
    requires d.DList? || d.DObj?
  {
    if d.DList? then DList(d.items + [x]) else DObj(d.members + [DMember(key, x)])
  }

  lemma {:induction false} MoreKeeps(d: Doc, key: seq<Lit.Piece>, x: Doc, n: nat)
    requires (d.DList? || d.DObj?) && n <= Count(d)
    ensures TokensOf(More(d, key, x), n) == TokensOf(d, n) && NestingOf(More(d, key, x), n) == NestingOf(d, n)
    ensures ProperParts(d, n) ==> ProperParts(More(d, key, x), n) && Parts(More(d, key, x), n) == Parts(d, n)
    decreases n
  {
    if n > 0 {
      MoreKeeps(d, key, x, n - 1);
      var m := More(d, key, x);
      assert Sub(m, n - 1) == Sub(d, n - 1);
      assert d.DObj? ==> m.members[n - 1] == d.members[n - 1];
      hide Tokens, Nesting, Proper, Value, More;
    }
  }

  // ---------------------------------------------------------------- what is written

  lemma {:induction false} Written(j: Json, depth: nat) returns (d: Doc, gaps: seq<string>)
    requires Valid(j)
    ensures Proper(d) && Value(d) == j && Nesting(d) == Depth(j)
    ensures |gaps| == |Tokens(d)| > 0 && gaps[0] == "" && Gaps(gaps) && Laid(Tokens(d), gaps) == Text(j, depth)
    decreases j, 1, 0
  {
    if j.Array? || j.Dict? {
      d, gaps := WrittenBrackets(j, depth);
    } else {
      d, gaps := WrittenScalar(j, depth);
    }
  }

  lemma WrittenScalar(j: Json, depth: nat) returns (d: Doc, gaps: seq<string>)
    requires Valid(j) && !j.Array? && !j.Dict?
    ensures Proper(d) && Value(d) == j && Nesting(d) == Depth(j) && Tokens(d) == [Scalar(d)]
    ensures gaps == [""] && Gaps(gaps) && Laid(Tokens(d), gaps) == Text(j, depth)
  {
    hide IsNumber, Lit.AllAllowed, Lit.AllSaid, Lit.Body, Encode;
    match j {
      case Null => d := DNull;
      case Bool(b) => d := if b then DTrue else DFalse;
      case Number(text) => d := DNum(text);
      case Str(s) =>
        var ps := EncodedPieces(s);
        d := DStr(ps);
    }
    gaps := [""];
    LaidOne(Scalar(d), "");
    assert Lit.AllBlank("");
  }

  lemma {:induction false} WrittenBrackets(j: Json, depth: nat) returns (d: Doc, gaps: seq<string>)
    requires Valid(j) && (j.Array? || j.Dict?)
    ensures Proper(d) && Value(d) == j && Nesting(d) == Depth(j)
    ensures |gaps| == |Tokens(d)| > 0 && gaps[0] == "" && Gaps(gaps) && Laid(Tokens(d), gaps) == Text(j, depth)
    decreases j, 0, Size(j) + 1
  {
    hide Tokens, TokensOf, Laid, Gaps, Spelled, Proper, ProperParts, Parts, Value, Nesting, NestingOf, Depth, DepthOf;
    hide Text, TextOf, Closing, Lit.AllBlank, Valid, Part;
    var n := Size(j);
    var body;
    d, body := WrittenParts(j, n, depth + 1);
    var ts := TokensOf(d, n);
    var open, close := Sign(if j.Array? then '[' else '{'), Sign(if j.Array? then ']' else '}');
    var last := Closing(j, depth);
    WholeDoc(j, d);
    WholeText(j, depth);
    LaidOne(open, "");
    LaidOne(close, last);
    LaidJoin([open], [""], ts, body);
    LaidJoin([open] + ts, [""] + body, [close], [last]);
    OneGap("");
    OneGap(last);
    GapsJoin([""], body);
    GapsJoin([""] + body, [last]);
    gaps := [""] + body + [last];
    assert "" + Spelled(open) == Spelled(open);
  }

  lemma WholeDoc(j: Json, d: Doc)
    requires (if j.Array? then d.DList? else j.Dict? && d.DObj?) && Count(d) == Size(j) && ProperParts(d, Size(j))
    requires Parts(d, Size(j)) == Part(j, Size(j)) && NestingOf(d, Size(j)) == DepthOf(j, Size(j))
    ensures Proper(d) && Value(d) == j && Nesting(d) == Depth(j)
    ensures Tokens(d) == [Sign(if j.Array? then '[' else '{')] + TokensOf(d, Size(j)) +
              [Sign(if j.Array? then ']' else '}')]
  {
    assert Part(j, Size(j)) == j;
    hide ProperParts, Parts, NestingOf, DepthOf, TokensOf;
  }

  lemma WholeText(j: Json, depth: nat)
    requires j.Array? || j.Dict?
    ensures Lit.AllBlank(Closing(j, depth)) && Lit.AllBlank("")
    ensures Text(j, depth) == Spelled(Sign(if j.Array? then '[' else '{')) + TextOf(j, Size(j), depth + 1) +
              (Closing(j, depth) + Spelled(Sign(if j.Array? then ']' else '}')))
  {
    IndentBlank(depth);
    hide TextOf, Indent;
  }

  lemma OneGap(gap: string)
    requires Lit.AllBlank(gap)
    ensures Gaps([gap])
  {
    hide Lit.AllBlank;
  }

  lemma {:induction false} WrittenParts(j: Json, n: nat, depth: nat) returns (d: Doc, gaps: seq<string>)
    requires Valid(j) && (j.Array? || j.Dict?) && n <= Size(j)
    ensures (if j.Array? then d.DList? else d.DObj?) && Count(d) == n && ProperParts(d, n)
    ensures Parts(d, n) == Part(j, n) && NestingOf(d, n) == DepthOf(j, n)
    ensures |gaps| == |TokensOf(d, n)| && Gaps(gaps) && Laid(TokensOf(d, n), gaps) == TextOf(j, n, depth)
    decreases j, 0, n
  {
    if n == 0 {
      d, gaps := if j.Array? then DList([]) else DObj([]), [];
      return;
    }
    hide Tokens, TokensOf, Laid, Gaps, Spelled, Proper, ProperParts, Parts, Value, Nesting, NestingOf, Depth, DepthOf;
    hide Text, TextOf, Lit.AllBlank, Valid, Part, Lead, More, Lit.AllAllowed, Lit.AllSaid, Lit.Body, Encode;
    var i := n - 1;
    var before, gb := WrittenParts(j, i, depth);
    ChildValid(j, i);
    var x, gx := Written(Child(j, i), depth);
    var key := KeyPieces(j, i);
    d := More(before, key, x);
    MoreKeeps(before, key, x, i);
    LastOf(before, key, x);
    OneMore(j, i, d, depth);
    PartMore(j, i, before, key, x);
    var gl := WrittenLead(j, i, depth, d, x, gx);
    LaidJoin(TokensOf(d, i), gb, LeadOf(d, i) + Tokens(x), gl);
    GapsJoin(gb, gl);
    gaps := gb + gl;
  }

  lemma OneMore(j: Json, i: nat, d: Doc, depth: nat)
    requires i < Size(j) && i < Count(d)
    ensures TextOf(j, i + 1, depth) == TextOf(j, i, depth) + (Lead(j, i, depth) + Text(Child(j, i), depth))
    ensures DepthOf(j, i + 1) == Max(DepthOf(j, i), Depth(Child(j, i)))
    ensures NestingOf(d, i + 1) == Max(NestingOf(d, i), Nesting(Sub(d, i)))
    ensures TokensOf(d, i + 1) == TokensOf(d, i) + (LeadOf(d, i) + Tokens(Sub(d, i)))
  {
    hide Text, Depth, Nesting, Tokens, Lead;
  }

  lemma LastOf(d: Doc, key: seq<Lit.Piece>, x: Doc)
    requires d.DList? || d.DObj?
    ensures var m, n := More(d, key, x), Count(d);
            Count(m) == n + 1 && Sub(m, n) == x && (m.DList? <==> d.DList?) && (m.DObj? ==> m.members[n].key == key)
  {
  }

  lemma KeyPieces(j: Json, i: nat) returns (ps: seq<Lit.Piece>)
    requires Valid(j) && i < Size(j)
    ensures Lit.AllAllowed(ps) && (j.Dict? ==> j.members[i].key == Lit.Body(ps) == Encode(Lit.AllSaid(ps)))
  {
    hide Lit.AllAllowed, Lit.Body, Lit.AllSaid, Encode;
    if j.Dict? {
      assert IsEncoded(j.members[i].key);
      var k :| j.members[i].key == Encode(k);
      ps := EncodedPieces(k);
    } else {
      ps := [];
      NoPieces();
    }
  }

  // The value grows by the same member.
  lemma PartMore(j: Json, i: nat, before: Doc, key: seq<Lit.Piece>, x: Doc)
    requires Valid(j) && i < Size(j) && (if j.Array? then before.DList? else j.Dict? && before.DObj?)
    requires Count(before) == i && ProperParts(before, i) && Parts(before, i) == Part(j, i)
    requires Proper(x) && Value(x) == Child(j, i) && Lit.AllAllowed(key)
    requires j.Dict? ==> j.members[i].key == Encode(Lit.AllSaid(key))
    ensures var d := More(before, key, x); ProperParts(d, i + 1) && Parts(d, i + 1) == Part(j, i + 1)
  {
    hide Encode, Lit.AllSaid, Lit.AllAllowed, Value, Proper, ProperParts, Parts, Part, IsNumber, More, Valid;
    var d := More(before, key, x);
    MoreKeeps(before, key, x, i);
    LastOf(before, key, x);
    PartsNext(d, i);
    PartNext(j, i, Lit.AllSaid(key));
  }

  lemma PartsNext(d: Doc, n: nat)
    requires (d.DList? || d.DObj?) && n < Count(d) && ProperParts(d, n) && Proper(Sub(d, n))
    requires d.DObj? ==> Lit.AllAllowed(d.members[n].key)
    ensures ProperParts(d, n + 1)
    ensures Parts(d, n + 1) == if d.DList? then Array(Parts(d, n).items + [Value(Sub(d, n))])
                               else AddMember(Parts(d, n), Lit.AllSaid(d.members[n].key), Value(Sub(d, n)))
  {
    hide Proper, Value, Lit.AllAllowed, Lit.AllSaid, AddMember;
  }

  lemma PartNext(j: Json, i: nat, k: string)
    requires Valid(j) && (j.Array? || j.Dict?) && i < Size(j) && (j.Dict? ==> j.members[i].key == Encode(k))
    ensures Part(j, i + 1) == if j.Array? then Array(Part(j, i).items + [Child(j, i)])
                              else AddMember(Part(j, i), k, Child(j, i))
  {
    hide Encode, IsNumber;
    if j.Array? {
      assert j.items[..i] + [j.items[i]] == j.items[..i + 1];
    } else {
      var ms := j.members;
      PutLast(ms[..i], ms[i]);
      assert Member(Encode(k), Child(j, i)) == ms[i];
      assert ms[..i] + [ms[i]] == ms[..i + 1];
    }
  }

  // The gaps before an item and within it.
  lemma WrittenLead(j: Json, i: nat, depth: nat, d: Doc, x: Doc, gx: seq<string>) returns (gaps: seq<string>)
    requires i < Size(j) && i < Count(d) && (if j.Array? then d.DList? else j.Dict? && d.DObj?)
    requires d.DObj? ==> j.members[i].key == Lit.Body(d.members[i].key)
    requires |gx| == |Tokens(x)| > 0 && gx[0] == "" && Gaps(gx) && Laid(Tokens(x), gx) == Text(Child(j, i), depth)
    ensures |gaps| == |LeadOf(d, i) + Tokens(x)| && Gaps(gaps)
    ensures Laid(LeadOf(d, i) + Tokens(x), gaps) == Lead(j, i, depth) + Text(Child(j, i), depth)
  {
    IndentBlank(depth);
    hide Tokens, Laid, Text, Lit.AllBlank, Gaps, Indent, Lit.Body;
    var ts := Tokens(x);
    var comma := if i > 0 then [Sign(',')] else [];
    var gc := if i > 0 then [""] else [];
    CommaLaid(i);
    if d.DList? {
      LaidAfter(ts, gx, Indent(depth));
      gaps := gc + gx[0 := Indent(depth)];
      assert LeadOf(d, i) == comma;
      LaidJoin(comma, gc, ts, gx[0 := Indent(depth)]);
      GapsJoin(gc, gx[0 := Indent(depth)]);
    } else {
      LaidAfter(ts, gx, " ");
      var key, colon := Scalar(DStr(d.members[i].key)), Sign(':');
      LaidOne(key, Indent(depth));
      LaidOne(colon, "");
      LaidJoin([key], [Indent(depth)], [colon], [""]);
      assert [key] + [colon] == [key, colon] && [Indent(depth)] + [""] == [Indent(depth), ""];
      OneGap(Indent(depth));
      OneGap("");
      GapsJoin([Indent(depth)], [""]);
      LaidJoin(comma, gc, [key, colon], [Indent(depth), ""]);
      GapsJoin(gc, [Indent(depth), ""]);
      var gl := gc + [Indent(depth), ""];
      assert LeadOf(d, i) == comma + [key, colon];
      LaidJoin(LeadOf(d, i), gl, ts, gx[0 := " "]);
      GapsJoin(gl, gx[0 := " "]);
      gaps := gl + gx[0 := " "];
      LeadText(j, i, depth, d.members[i].key);
    }
  }

  lemma CommaLaid(i: nat)
    ensures Gaps(if i > 0 then [""] else [])
    ensures Laid(if i > 0 then [Sign(',')] else [], if i > 0 then [""] else []) == if i > 0 then "," else ""
  {
    LaidOne(Sign(','), "");
    assert Lit.AllBlank("");
  }

  lemma LeadText(j: Json, i: nat, depth: nat, key: seq<Lit.Piece>)
    requires j.Dict? && i < Size(j) && j.members[i].key == Lit.Body(key)
    ensures Lead(j, i, depth) ==
            (if i > 0 then "," else "") + ((Indent(depth) + Spelled(Scalar(DStr(key)))) + ("" + ":")) + " "
  {
    hide Lit.Body, Indent;
  }

  // ---------------------------------------------------------------- lines

  function NewLine(depth: nat): string {
    "\n" + seq(2 * depth, _ => ' ')
  }

  function Line(j: Json, i: nat, depth: nat): string
    requires i < Size(j)
  {
    NewLine(depth) + (if j.Dict? then "\"" + j.members[i].key + "\": " else "") + Text(Child(j, i), depth)
  }

  function Lines(j: Json, n: nat, depth: nat): seq<string>
    requires n <= Size(j)
  {
    seq(n, i requires 0 <= i < n => Line(j, i, depth))
  }

  function Joined(lines: seq<string>): string {
    if lines == [] then ""
    else if |lines| == 1 then lines[0]
    else Joined(lines[..|lines| - 1]) + "," + lines[|lines| - 1]
  }

  // The items of a container are on lines of their own, two spaces further in, with commas between.
  lemma TextLines(j: Json, depth: nat)
    requires j.Array? || j.Dict?
    ensures Text(j, depth) ==
            (if j.Array? then "[" else "{") + Joined(Lines(j, Size(j), depth + 1)) +
            (if Size(j) == 0 then "" else NewLine(depth)) + (if j.Array? then "]" else "}")
  {
    hide Joined, Lines, TextOf;
    LinesJoined(j, Size(j), depth + 1);
    IndentIs(depth);
  }

  lemma {:induction false} LinesJoined(j: Json, n: nat, depth: nat)
    requires n <= Size(j)
    ensures Joined(Lines(j, n, depth)) == TextOf(j, n, depth)
    decreases n
  {
    hide Line, Text;
    if n > 0 {
      LinesJoined(j, n - 1, depth);
      assert Lines(j, n, depth)[..n - 1] == Lines(j, n - 1, depth);
      LineIs(j, n - 1, depth);
    }
  }

  lemma LineIs(j: Json, i: nat, depth: nat)
    requires i < Size(j)
    ensures ItemText(j, i, depth) == (if i == 0 then "" else ",") + Line(j, i, depth)
  {
    IndentIs(depth);
    hide Indent, NewLine, Text;
  }

  lemma IndentIs(depth: nat)
    ensures Indent(depth) == NewLine(depth)
  {
  }
}
