/**
 * parse_remainder of libqpdf/QPDFParser.cc: one loop over the tokens, a stack of open containers, and
 * a buffer of the last two integers in case an R follows.
 */
module QPDFParser {
  import opened Wrappers
  import opened QPDFParserModel
  import opened QPDFParserTrees

  class Parser {
    const tokens: seq<Token>
    const sanityChecks: bool
    var pos: nat
    var stack: seq<Frame>
    var intCount: nat
    const intBuffer: array<int>

    constructor (tokens: seq<Token>, sanityChecks: bool)
      ensures Valid() && this.tokens == tokens && this.sanityChecks == sanityChecks && fresh(intBuffer)
      ensures pos == 0 && stack == [] && intCount == 0
    {
      this.tokens, this.sanityChecks := tokens, sanityChecks;
      pos, stack, intCount := 0, [], 0;
      intBuffer := new int[2](_ => 0);
    }

    ghost predicate Valid()
      reads this
    {
      pos <= |tokens| && intBuffer.Length == 2
    }

    // The integers that have been read and are in no container yet.
    ghost function Pending(): (r: seq<Token>)
      reads this, intBuffer
      requires Valid()
      ensures |r| <= 2 && forall x :: x in r ==> x.IntTok?
    {
      if intCount == 0 then []
      else if intCount == 1 then [IntTok(intBuffer[1])]
      else [IntTok(intBuffer[(intCount - 1) % 2]), IntTok(intBuffer[intCount % 2])]
    }

    // What is left to do.
    ghost function Outcome(): Option<Obj>
      reads this, intBuffer
      requires Valid() && stack != []
    {
      RunStack(stack, Group(Pending() + tokens[pos..]), sanityChecks)
    }

    // The first token of the object and then the rest, for an array or dictionary.
    method ParseContainer() returns (r: Option<Obj>)
      requires Valid() && intCount == 0 && pos < |tokens| && (tokens[pos] == ArrayOpen || tokens[pos] == DictOpen)
      modifies this, intBuffer
      ensures Valid()
      ensures var d := Descend(NewFrame(old(tokens[pos])), Group(old(tokens[pos + 1..])), sanityChecks);
              r == if d.None? then None else Some(d.value.0)
    {
      stack := [NewFrame(tokens[pos])];
      pos := pos + 1;
      StackDescends([], stack[0], Group(tokens[pos..]), sanityChecks);
      assert [] + stack == stack && [] + tokens[pos..] == tokens[pos..];
      r := ParseRemainder();
    }

    method ParseRemainder() returns (r: Option<Obj>)
      requires Valid() && stack != [] && intCount == 0
      modifies this, intBuffer
      ensures Valid() && r == old(Outcome())
    {
      ghost var all := Outcome();
      while pos < |tokens|
        invariant Valid() && stack != [] && Outcome() == all
        decreases |tokens| - pos
      {
        hide RunStack, Group;
        var token := tokens[pos];
        if intCount != 0 && token.IntTok? {
          BufferAnother();
        } else if intCount >= 2 && token == WordTok("R") {
          var ok := TakeReference();
          if !ok {
            return None;
          }
        } else {
          FlushInts();
          var done: bool;
          done, r := TakeToken();
          if done {
            return;
          }
        }
      }
      EndOfTokens(stack, Pending() + tokens[pos..], sanityChecks);
      r := None;
    }

    // Another integer: of two before it, the older one is no part of a reference.
    method BufferAnother()
      requires Valid() && stack != [] && intCount > 0 && pos < |tokens| && tokens[pos].IntTok?
      modifies this`pos, this`stack, this`intCount, intBuffer
      ensures Valid() && stack != [] && Outcome() == old(Outcome()) && pos == old(pos) + 1
    {
      hide RunStack, Group, Add;
      ghost var before, rest := Pending(), tokens[pos + 1..];
      assert tokens[pos..] == [tokens[pos]] + rest;
      intCount := intCount + 1;
      assert intCount % 2 == (intCount - 2) % 2 && (intCount - 1) % 2 != intCount % 2;
      if intCount > 2 {
        assert before == [IntTok(intBuffer[intCount % 2]), IntTok(intBuffer[(intCount - 1) % 2])];
        ThirdInt(stack, before, tokens[pos], rest, sanityChecks);
        AddInt(intCount);
      } else {
        assert before == [IntTok(intBuffer[1])];
        assert before + ([tokens[pos]] + rest) == [before[0], tokens[pos]] + rest;
      }
      intBuffer[intCount % 2] := tokens[pos].i;
      pos := pos + 1;
      assert Pending() == [before[|before| - 1], tokens[pos - 1]];
    }

    method TakeReference() returns (ok: bool)
      requires Valid() && stack != [] && intCount >= 2 && pos < |tokens| && tokens[pos] == WordTok("R")
      modifies this`pos, this`stack, this`intCount
      ensures Valid() && stack != [] && pos == old(pos) + 1
      ensures if ok then Outcome() == old(Outcome()) else old(Outcome()) == None
    {
      hide RunStack, Group, Add;
      var id, gen := intBuffer[(intCount - 1) % 2], intBuffer[intCount % 2];
      ghost var rest := tokens[pos + 1..];
      assert Pending() + tokens[pos..] == [IntTok(id), IntTok(gen), WordTok("R")] + rest;
      IsRef(stack, id, gen, rest, sanityChecks);
      assert [] + rest == rest;
      pos := pos + 1;
      ok := FitsInt(id) && FitsInt(gen);
      if ok {
        if !(id < 1 || gen < 0 || gen >= 65535) {
          AddObj(Ref(id, gen));
        } else {
          AddObj(Null);
        }
      }
      intCount := 0;
    }

    // The integers that wait are no part of a reference.
    method FlushInts()
      requires Valid() && stack != [] && pos < |tokens|
      requires intCount == 0 || (!tokens[pos].IntTok? && (intCount == 1 || tokens[pos] != WordTok("R")))
      modifies this`stack, this`intCount
      ensures Valid() && stack != [] && intCount == 0 && Outcome() == old(Outcome())
    {
      hide RunStack, Group, Add;
      ghost var rest := tokens[pos..];
      if intCount > 1 {
        FirstOfTwo(stack, Pending(), rest, sanityChecks);
        AddInt(intCount - 1);
      }
      if intCount > 0 {
        LastInt(stack, IntTok(intBuffer[intCount % 2]), rest, sanityChecks);
        AddInt(intCount);
      }
      intCount := 0;
      assert Pending() + rest == rest;
    }

    // The switch over the types of tokens.
    method TakeToken() returns (done: bool, r: Option<Obj>)
      requires Valid() && stack != [] && intCount == 0 && pos < |tokens|
      modifies this`pos, this`stack, this`intCount, intBuffer
      ensures Valid() && stack != [] && pos == old(pos) + 1
      ensures if done then r == old(Outcome()) else Outcome() == old(Outcome())
    {
      hide RunStack, Group, Built, Add, NewFrame, Scalar;
      var token := tokens[pos];
      ghost var rest := tokens[pos + 1..];
      assert Pending() + tokens[pos..] == [token] + rest;
      assert [] + rest == rest;
      if token.IntTok? {
        intBuffer[1] := token.i;
        intCount := 1;
        pos := pos + 1;
        return false, None;
      }
      NoRef(stack, token, rest, sanityChecks);
      pos := pos + 1;
      var frame := stack[|stack| - 1];
      if token == ArrayOpen || token == DictOpen {
        stack := stack + [NewFrame(token)];
      } else if (token == ArrayClose && frame.state == StArray) || (token == DictClose && frame.state != StArray) {
        done, r := CloseFrame();
        return;
      } else {
        var ok := TakeScalar(token);
        if !ok {
          return true, None;
        }
      }
      return false, None;
    }

    method TakeScalar(token: Token) returns (ok: bool)
      requires stack != []
      modifies this`stack
      ensures var g := Scalar(old(stack)[|old(stack)| - 1], token, sanityChecks);
              if ok then g.Some? && stack == OnTop(old(stack), g.value) else g.None? && stack == old(stack)
    {
      hide Add;
      var frame := stack[|stack| - 1];
      ok := true;
      match token {
        case ArrayClose =>
          if sanityChecks {
            return false;
          }
          AddObj(Null);
        case DictClose =>
          if sanityChecks {
            return false;
          }
          AddObj(Null);
        case NameTok(name) =>
          if frame.state == StDictKey {
            SetFrame(frame.(key := name, state := StDictValue));
          } else {
            AddObj(Name(name));
          }
        case WordTok(word) =>
          if sanityChecks && (word == "endobj" || word == "endstream") {
            return false;
          }
          AddObj(if sanityChecks then Null else Str(word));
        case BoolTok(b) => AddObj(Bool(b));
        case IntTok(i) => AddObj(Int(i));
        case RealTok(text) => AddObj(Real(text));
        case StringTok(text) => AddObj(Str(text));
        case _ => AddObj(Null);
      }
    }

    // The innermost container is complete: it goes into the one around it, or is the result.
    method CloseFrame() returns (done: bool, r: Option<Obj>)
      requires Valid() && stack != []
      modifies this`stack
      ensures stack != []
      ensures var n := |old(stack)|; var o := Built(old(stack)[n - 1], sanityChecks);
              if n == 1 then done && r == Some(o)
              else !done && stack == old(stack)[..n - 1][..n - 2] + [Add(old(stack)[n - 2], o)]
    {
      var frame := stack[|stack| - 1];
      var obj := BuildObject(frame);
      if |stack| <= 1 {
        return true, Some(obj);
      }
      stack := stack[..|stack| - 1];
      AddObj(obj);
      return false, None;
    }

    method BuildObject(frame: Frame) returns (obj: Obj)
      ensures obj == Built(frame, sanityChecks)
    {
      if frame.state == StArray {
        return Arr(frame.olist);
      }
      var dict := frame.dict;
      if frame.state == StDictValue {
        dict := dict[frame.key := Null];
      }
      if frame.olist != [] && !sanityChecks {
        dict := FixMissingKeys(dict, frame.olist);
      }
      obj := Dict(dict);
    }

    method FixMissingKeys(dict: map<string, Obj>, olist: seq<Obj>) returns (fixed: map<string, Obj>)
      ensures fixed == WithKeys(dict, NamesOf(olist), olist, 1)
    {
      var names := set o | o in olist && o.Name? :: o.text;
      fixed := dict;
      var nextFakeKey := 1;
      for i := 0 to |olist|
        invariant WithKeys(dict, names, olist, 1) == WithKeys(fixed, names, olist[i..], nextFakeKey)
      {
        ghost var first := nextFakeKey;
        var key := FakeKey(nextFakeKey);
        nextFakeKey := nextFakeKey + 1;
        while key in fixed.Keys || key in names
          invariant nextFakeKey > 0 && key == FakeKey(nextFakeKey - 1)
          invariant FreeKey(fixed.Keys + names, nextFakeKey - 1) == FreeKey(fixed.Keys + names, first)
          decreases Taken(fixed.Keys + names, nextFakeKey - 1)
        {
          TakenShrinks(fixed.Keys + names, nextFakeKey - 1);
          key := FakeKey(nextFakeKey);
          nextFakeKey := nextFakeKey + 1;
        }
        fixed := fixed[key := olist[i]];
      }
    }

    method SetFrame(frame: Frame)
      requires stack != []
      modifies this`stack
      ensures stack == old(stack)[..|old(stack)| - 1] + [frame]
    {
      stack := stack[..|stack| - 1] + [frame];
    }

    // add, add_null and add_scalar
    method AddObj(obj: Obj)
      requires stack != []
      modifies this`stack
      ensures stack == old(stack)[..|old(stack)| - 1] + [Add(old(stack)[|old(stack)| - 1], obj)]
    {
      var frame := stack[|stack| - 1];
      if frame.state != StDictValue {
        SetFrame(frame.(olist := frame.olist + [obj]));
      } else {
        SetFrame(frame.(dict := frame.dict[frame.key := obj], state := StDictKey));
      }
    }

    method AddInt(count: nat)
      requires stack != [] && intBuffer.Length == 2
      modifies this`stack
      ensures stack == old(stack)[..|old(stack)| - 1] + [Add(old(stack)[|old(stack)| - 1], Int(intBuffer[count % 2]))]
    {
      AddObj(Int(intBuffer[count % 2]));
    }
  }

  // ---------------------------------------------------------------- one step of the stack

  lemma GroupFirst(t: Token, rest: seq<Token>)
    requires !StartsRef([t] + rest)
    ensures Group([t] + rest) == [Tok(t)] + Group(rest)
  {
    assert ([t] + rest)[1..] == rest;
  }

  function OnTop(stack: seq<Frame>, f: Frame): seq<Frame>
    requires stack != []
  {
    stack[..|stack| - 1] + [f]
  }

  // An integer with no reference of its own is added.
  lemma NotYetRef(stack: seq<Frame>, t: Token, rest: seq<Token>, sanity: bool)
    requires stack != [] && t.IntTok? && !StartsRef([t] + rest)
    ensures RunStack(stack, Group([t] + rest), sanity) ==
            RunStack(OnTop(stack, Add(stack[|stack| - 1], Int(t.i))), Group(rest), sanity)
  {
    GroupFirst(t, rest);
    assert ([Tok(t)] + Group(rest))[1..] == Group(rest);
  }

  lemma ThirdInt(stack: seq<Frame>, two: seq<Token>, t: Token, rest: seq<Token>, sanity: bool)
    requires stack != [] && |two| == 2 && two[0].IntTok? && two[1].IntTok? && t.IntTok?
    ensures RunStack(stack, Group(two + ([t] + rest)), sanity) ==
            RunStack(OnTop(stack, Add(stack[|stack| - 1], Int(two[0].i))), Group([two[1], t] + rest), sanity)
  {
    assert two + ([t] + rest) == [two[0]] + ([two[1], t] + rest);
    hide RunStack, Group, Add;
    NotYetRef(stack, two[0], [two[1], t] + rest, sanity);
  }

  lemma FirstOfTwo(stack: seq<Frame>, two: seq<Token>, rest: seq<Token>, sanity: bool)
    requires stack != [] && |two| == 2 && two[0].IntTok? && two[1].IntTok? && rest != [] && rest[0] != WordTok("R")
    ensures RunStack(stack, Group(two + rest), sanity) ==
            RunStack(OnTop(stack, Add(stack[|stack| - 1], Int(two[0].i))), Group([two[1]] + rest), sanity)
  {
    assert two + rest == [two[0]] + ([two[1]] + rest);
    hide RunStack, Group, Add;
    NotYetRef(stack, two[0], [two[1]] + rest, sanity);
  }

  lemma LastInt(stack: seq<Frame>, t: Token, rest: seq<Token>, sanity: bool)
    requires stack != [] && t.IntTok? && rest != [] && !rest[0].IntTok?
    ensures RunStack(stack, Group([t] + rest), sanity) ==
            RunStack(OnTop(stack, Add(stack[|stack| - 1], Int(t.i))), Group(rest), sanity)
  {
    hide RunStack, Group, Add;
    NotYetRef(stack, t, rest, sanity);
  }

  lemma IsRef(stack: seq<Frame>, id: int, gen: int, rest: seq<Token>, sanity: bool)
    requires stack != []
    ensures var o := Referred(id, gen);
            RunStack(stack, Group([IntTok(id), IntTok(gen), WordTok("R")] + rest), sanity) ==
            if o.None? then None else RunStack(OnTop(stack, Add(stack[|stack| - 1], o.value)), Group(rest), sanity)
  {
    var ts := [IntTok(id), IntTok(gen), WordTok("R")] + rest;
    assert ts[3..] == rest;
    assert ([RefItem(id, gen)] + Group(rest))[1..] == Group(rest);
  }

  lemma NoRef(stack: seq<Frame>, t: Token, rest: seq<Token>, sanity: bool)
    requires stack != [] && !t.IntTok?
    ensures RunStack(stack, Group([t] + rest), sanity) ==
            var below, f := stack[..|stack| - 1], stack[|stack| - 1];
            if Opens(Tok(t)) then RunStack(stack + [NewFrame(t)], Group(rest), sanity)
            else if Closes(f, t) then
              if below == [] then Some(Built(f, sanity))
              else RunStack(OnTop(below, Add(below[|below| - 1], Built(f, sanity))), Group(rest), sanity)
            else
              var g := Scalar(f, t, sanity);
              if g.None? then None else RunStack(OnTop(stack, g.value), Group(rest), sanity)
  {
    GroupFirst(t, rest);
    assert ([Tok(t)] + Group(rest))[1..] == Group(rest);
    hide Group, Built, Scalar, NewFrame, Add;
  }

  lemma NoTokens(stack: seq<Frame>, sanity: bool)
    requires stack != []
    ensures RunStack(stack, Group([]), sanity) == None
  {
  }

  lemma OneInt(stack: seq<Frame>, t: Token, sanity: bool)
    requires stack != [] && t.IntTok?
    ensures RunStack(stack, Group([t]), sanity) == None
  {
    hide RunStack, Group, Add;
    assert [t] == [t] + [];
    NotYetRef(stack, t, [], sanity);
    NoTokens(OnTop(stack, Add(stack[|stack| - 1], Int(t.i))), sanity);
  }

  // Integers that wait when the tokens end have nowhere to go.
  lemma EndOfTokens(stack: seq<Frame>, ts: seq<Token>, sanity: bool)
    requires stack != [] && |ts| <= 2 && forall x :: x in ts ==> x.IntTok?
    ensures RunStack(stack, Group(ts), sanity) == None
  {
    hide RunStack, Group, Add;
    if ts == [] {
      NoTokens(stack, sanity);
    } else if |ts| == 1 {
      assert ts == [ts[0]];
      OneInt(stack, ts[0], sanity);
    } else {
      assert ts == [ts[0]] + [ts[1]];
      NotYetRef(stack, ts[0], [ts[1]], sanity);
      OneInt(OnTop(stack, Add(stack[|stack| - 1], Int(ts[0].i))), ts[1], sanity);
    }
  }

  lemma Opening(t: Tree)
    requires t.TArr? || t.TDict?
    ensures Tokens(t)[0] == ArrayOpen || Tokens(t)[0] == DictOpen
  {
  }

  // Reading back what a tree was written as.
  method ReadTree(t: Tree, rest: seq<Token>, sanityChecks: bool) returns (r: Option<Obj>)
    requires (t.TArr? || t.TDict?) && Sound(t)
    ensures r == Some(Value(t))
  {
    hide Tokens, Group, Descend, Value, Sound;
    var ts := Tokens(t) + rest;
    ParsesTree(t, rest, sanityChecks);
    Opening(t);
    assert ts[1..] == Tokens(t)[1..] + rest;
    var parser := new Parser(ts, sanityChecks);
    r := parser.ParseContainer();
  }
}
