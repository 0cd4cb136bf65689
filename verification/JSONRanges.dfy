/**
 * The ranges that JSONParser of libqpdf/JSON.cc records with the items hold no white space around them.
 */
module JSONRanges {
  import opened Wrappers
  import opened JSONModel
  import opened JSONLexer
  import opened JSONParser
  import opened JSONOffsets
  import JSONTokens

  // ---------------------------------------------------------------- where a token begins and ends

  // A token that has begun goes up to a character that is no white space.
  lemma {:induction false} LastChar(l: Lexer, input: string, offset: nat)
    requires l.state != LsTop && Lex(l, input, offset).Ok?
    ensures var t := Lex(l, input, offset).value;
            && offset <= t.offset <= offset + |input|
            && (!JSONTokens.InQuotes(t.kind) ==>
                  if t.offset == offset then !JSONTokens.InQuotes(l.state) else !Blank(input[t.offset - offset - 1]))
    decreases |input|
  {
    hide Lex, LexChar, Blank;
    StopsHere(l);
    if input == "" {
      LexEnd(l, offset);
    } else {
      LexNext(l, input, offset);
      CharOfToken(l, input[0], offset);
      var s := LexChar(l, input[0], offset);
      if s.Used? {
        LastChar(s.l, input[1..], offset + 1);
      }
    }
  }

  lemma StopsHere(l: Lexer)
    ensures JSONTokens.InQuotes(l.state) && AtEnd(l).Ok? ==> JSONTokens.InQuotes(AtEnd(l).value)
  {
  }

  lemma CharOfToken(l: Lexer, c: char, offset: nat)
    requires l.state != LsTop
    ensures var s := LexChar(l, c, offset);
            && (s.Used? ==> s.l.state != LsTop)
            && (s.Used? && !JSONTokens.InQuotes(s.l.state) ==> !Blank(c))
            && (s.Returned? ==> !Blank(c))
  {
    hide Utf8;
  }

  // The range of a token: only white space comes before it, and it begins and ends with something else.
  lemma {:induction false} TokenRange(input: string, offset: nat)
    requires Lex(FRESH, input, offset).Ok? && Lex(FRESH, input, offset).value.kind != LsTop
    requires !JSONTokens.InQuotes(Lex(FRESH, input, offset).value.kind)
    ensures var s, t := TokenStart(input, offset), Lex(FRESH, input, offset).value;
            && offset <= s < t.offset <= offset + |input|
            && (forall i :: 0 <= i < s - offset ==> Blank(input[i]))
            && !Blank(input[s - offset]) && !Blank(input[t.offset - offset - 1])
    decreases |input|
  {
    hide Lex, LexChar, Blank;
    if input == "" {
      LexEnd(FRESH, offset);
      assert false;
    } else {
      LexNext(FRESH, input, offset);
      InToken(FRESH, input[0], offset);
      BlankStep(input[0], offset);
      var s := LexChar(FRESH, input[0], offset);
      if Blank(input[0]) {
        TokenRange(input[1..], offset + 1);
      } else if s.Used? {
        LastChar(s.l, input[1..], offset + 1);
      }
    }
  }

  // ---------------------------------------------------------------- the items

  // Not empty, and with no white space at either end.
  ghost predicate Trimmed(all: string, it: Placed) {
    it.start < it.end <= |all| && !Blank(all[it.start]) && !Blank(all[it.end - 1])
  }

  ghost predicate StartsAt(all: string, s: nat, o: nat)
    requires o <= |all|
  {
    s < o && !Blank(all[s])
  }

  // The containers that are open, and the items that are complete.
  ghost predicate AllTrimmed(all: string, m: Marks, o: nat) {
    && o <= |all|
    && (forall i :: 0 <= i < |m.starts| ==> StartsAt(all, m.starts[i], o))
    && (forall i :: 0 <= i < |m.placed| ==> Trimmed(all, m.placed[i]))
  }

  lemma TokenMarked(all: string, p: Parser, m: Marks, kind: LexState, token: string, o: nat, s: nat, e: nat)
    requires AllTrimmed(all, m, o) && o <= s < e <= |all| && !Blank(all[s]) && !Blank(all[e - 1])
    ensures AllTrimmed(all, Mark(p, m, kind, token, s, e), e)
  {
    hide Blank, AllTrimmed, MarkPlace, MarkClose;
    MarkedIs(p, m, kind, token, s, e);
    LaterTrimmed(all, m, o, e);
    var m' := Mark(p, m, kind, token, s, e);
    if m' != m {
      if item :| m' == MarkPlace(p, m, item, s, e) {
        PlaceTrimmed(all, p, m, item, s, e);
      } else {
        CloseTrimmed(all, p, m, e);
      }
    }
  }

  // A token starts or ends an item or does nothing.
  lemma MarkedIs(p: Parser, m: Marks, kind: LexState, token: string, s: nat, e: nat)
    ensures var m' := Mark(p, m, kind, token, s, e);
            m' == m || m' == MarkClose(p, m, e) || exists item :: m' == MarkPlace(p, m, item, s, e)
  {
    hide MarkPlace, MarkClose;
  }

  lemma PlaceTrimmed(all: string, p: Parser, m: Marks, item: Json, s: nat, e: nat)
    requires AllTrimmed(all, m, e) && s < e <= |all| && !Blank(all[s]) && !Blank(all[e - 1])
    ensures AllTrimmed(all, MarkPlace(p, m, item, s, e), e)
  {
    assert StartsAt(all, s, e) && Trimmed(all, Placed(item, s, e));
    hide Blank, StartsAt, Trimmed, Container;
  }

  lemma CloseTrimmed(all: string, p: Parser, m: Marks, e: nat)
    requires AllTrimmed(all, m, e) && 0 < e <= |all| && !Blank(all[e - 1])
    ensures AllTrimmed(all, MarkClose(p, m, e), e)
  {
    hide Blank;
    if p.stack != [] && m.starts != [] {
      var f, n := p.stack[|p.stack| - 1], |m.starts| - 1;
      assert StartsAt(all, m.starts[n], e) && Trimmed(all, Placed(f.item, m.starts[n], e));
      hide StartsAt, Trimmed;
    }
  }

  lemma NothingMarked(p: Parser, m: Marks, token: string, s: nat, e: nat)
    ensures Mark(p, m, LsTop, token, s, e) == m
  {
  }

  lemma KindsHandled(p: Parser, kind: LexState, token: string)
    requires Handle(p, kind, token).Ok?
    ensures !JSONTokens.InQuotes(kind)
  {
  }

  lemma {:induction false} RunTrimmed(all: string, p: Parser, m: Marks, o: nat)
    requires o <= |all| && WellFormed(p) && AllTrimmed(all, m, o)
    requires Run(p, all[o..], o).Ok? && LoneLows(all[o..], o) <= LoneLows(all, 0)
    ensures forall it :: it in RunMarks(p, m, all[o..], o).placed ==> Trimmed(all, it)
    decreases |all| - o
  {
    hide Lex, Handle, Mark, LoneLows, TokenLows, TokenStart, AllTrimmed, WellFormed, Run, RunMarks, Blank;
    ReadsNext(all, p, o);
    var t, p', s := Token(all, p, o), Next(all, p, o), TokenStart(all[o..], o);
    var m' := Mark(p, m, t.kind, t.token, s, t.offset);
    RunMarksNext(p, m, all[o..], o);
    KindsHandled(p, t.kind, t.token);
    if t.kind == LsTop {
      NothingMarked(p, m, t.token, s, t.offset);
      LaterTrimmed(all, m, o, t.offset);
    } else {
      TokenRange(all[o..], o);
      TokenMarked(all, p, m, t.kind, t.token, o, s, t.offset);
    }
    if t.done {
      PlacedTrimmed(all, m', t.offset);
    } else {
      RunTrimmed(all, p', m', t.offset);
    }
  }

  lemma LaterTrimmed(all: string, m: Marks, o: nat, e: nat)
    requires AllTrimmed(all, m, o) && o <= e <= |all|
    ensures AllTrimmed(all, m, e)
  {
  }

  lemma PlacedTrimmed(all: string, m: Marks, o: nat)
    requires AllTrimmed(all, m, o)
    ensures forall it :: it in m.placed ==> Trimmed(all, it)
  {
  }

  // Every item that is recorded starts at its first character and ends behind its last one.
  lemma ItemsTrimmed(input: string, it: Placed)
    requires ParseText(input).Ok? && it in Items(input)
    ensures it.start < it.end <= |input|
    ensures input[it.start] !in " \t\n\r" && input[it.end - 1] !in " \t\n\r"
  {
    hide RunMarks, Run, LoneLows, Blank;
    assert input[0..] == input;
    RunTrimmed(input, START, NO_MARKS, 0);
    FourBlanks(input[it.start]);
    FourBlanks(input[it.end - 1]);
  }

  lemma FourBlanks(c: char)
    ensures Blank(c) <==> c in " \t\n\r"
  {
  }
}
