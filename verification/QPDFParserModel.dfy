/**
 * What libqpdf/QPDFParser.cc makes of the tokens of an array or a dictionary, said twice: with a stack
 * of open containers, and by recursive descent. References are found by looking ahead.
 */
module QPDFParserModel {
  import opened Wrappers

  datatype Token =
    | ArrayOpen | ArrayClose | DictOpen | DictClose | BraceOpen | BraceClose
    | BoolTok(b: bool) | NullTok | IntTok(i: int) | RealTok(text: string) | NameTok(text: string)
    | StringTok(text: string) | WordTok(text: string) | BadTok

  datatype Obj =
    | Null
    | Bool(b: bool)
    | Int(i: int)
    | Real(text: string)
    | Name(text: string)
    | Str(text: string)
    | Ref(id: int, gen: int)
    | Arr(items: seq<Obj>)
    | Dict(entries: map<string, Obj>)

  datatype FrameState = StArray | StDictKey | StDictValue

  // A container that is open.
  datatype Frame = Frame(state: FrameState, olist: seq<Obj>, dict: map<string, Obj>, key: string)

  function NewFrame(open: Token): Frame {
    Frame(if open.ArrayOpen? then StArray else StDictKey, [], map[], "")
  }

  // add and add_null. Without a key, an object waits in the list.
  function Add(f: Frame, o: Obj): Frame {
    if f.state != StDictValue then f.(olist := f.olist + [o])
    else f.(dict := f.dict[f.key := o], state := StDictKey)
  }

  // ---------------------------------------------------------------- references

  // A token, or three that are a reference.
  datatype Item = Tok(t: Token) | RefItem(id: int, gen: int)

  predicate StartsRef(ts: seq<Token>) {
    |ts| >= 3 && ts[0].IntTok? && ts[1].IntTok? && ts[2] == WordTok("R")
  }

  function Group(ts: seq<Token>): seq<Item>
    decreases |ts|
  {
    if ts == [] then []
    else if StartsRef(ts) then [RefItem(ts[0].i, ts[1].i)] + Group(ts[3..])
    else [Tok(ts[0])] + Group(ts[1..])
  }

  predicate FitsInt(i: int) {
    -0x8000_0000 <= i < 0x8000_0000
  }

  // The object that a reference is for: a bad one is null. A number beyond the range of int is an
  // error that makes the whole object null.
  function Referred(id: int, gen: int): Option<Obj> {
    if !FitsInt(id) || !FitsInt(gen) then None
    else if id < 1 || gen < 0 || gen >= 65535 then Some(Null)
    else Some(Ref(id, gen))
  }

  // ---------------------------------------------------------------- missing keys

  function Decimal(n: nat): string {
    if n < 10 then [('0' as int + n) as char] else Decimal(n / 10) + [('0' as int + n % 10) as char]
  }

  function FakeKey(n: nat): string {
    "/QPDFFake" + Decimal(n)
  }

  lemma {:induction false} DecimalDiffers(a: nat, b: nat)
    requires Decimal(a) == Decimal(b)
    ensures a == b
  {
    var s, t := Decimal(a), Decimal(b);
    assert s[|s| - 1] == ('0' as int + a % 10) as char && t[|t| - 1] == ('0' as int + b % 10) as char;
    if a < 10 || b < 10 {
      assert a < 10 ==> |s| == 1;
      assert b < 10 ==> |t| == 1;
      DecimalLong(a);
      DecimalLong(b);
    } else {
      assert s[..|s| - 1] == Decimal(a / 10) && t[..|t| - 1] == Decimal(b / 10);
      DecimalDiffers(a / 10, b / 10);
    }
  }

  lemma {:induction false} DecimalLong(n: nat)
    ensures Decimal(n) != "" && (n >= 10 ==> |Decimal(n)| >= 2)
  {
    if n >= 10 {
      DecimalLong(n / 10);
    }
  }

  lemma FakeKeysDiffer(a: nat, b: nat)
    requires FakeKey(a) == FakeKey(b)
    ensures a == b
  {
    assert FakeKey(a)[9..] == Decimal(a) && FakeKey(b)[9..] == Decimal(b);
    DecimalDiffers(a, b);
  }

  // How many of the keys are fake ones from n on: the search for a free one ends.
  ghost function Taken(keys: set<string>, n: nat): set<string> {
    set k | k in keys && exists i: nat :: i >= n && k == FakeKey(i)
  }

  lemma TakenShrinks(keys: set<string>, n: nat)
    requires FakeKey(n) in keys
    ensures Taken(keys, n + 1) < Taken(keys, n)
  {
    assert FakeKey(n) in Taken(keys, n);
    if FakeKey(n) in Taken(keys, n + 1) {
      var i: nat :| i >= n + 1 && FakeKey(n) == FakeKey(i);
      FakeKeysDiffer(n, i);
    }
  }

  // The first number from n on whose key is free.
  function FreeKey(keys: set<string>, n: nat): (r: nat)
    ensures r >= n && FakeKey(r) !in keys && forall i :: n <= i < r ==> FakeKey(i) in keys
    decreases Taken(keys, n)
  {
    if FakeKey(n) !in keys then n
    else
      TakenShrinks(keys, n);
      FreeKey(keys, n + 1)
  }

  function NamesOf(olist: seq<Obj>): set<string> {
    set o | o in olist && o.Name? :: o.text
  }

  // fix_missing_keys: each object without a key gets a free one.
  function WithKeys(dict: map<string, Obj>, names: set<string>, olist: seq<Obj>, n: nat): map<string, Obj>
    decreases |olist|
  {
    if olist == [] then dict
    else
      var k := FreeKey(dict.Keys + names, n);
      WithKeys(dict[FakeKey(k) := olist[0]], names, olist[1..], k + 1)
  }

  // The object is there under a key that was free.
  ghost predicate HasNewKey(r: map<string, Obj>, dict: map<string, Obj>, names: set<string>, o: Obj) {
    exists k :: k in r && k !in dict && k !in names && r[k] == o
  }

  // Nothing that has a key is lost, and every object without one is in the dictionary.
  lemma {:induction false} WithKeysKeeps(dict: map<string, Obj>, names: set<string>, olist: seq<Obj>, n: nat)
    ensures var r := WithKeys(dict, names, olist, n);
            && (forall k :: k in dict ==> k in r && r[k] == dict[k])
            && (forall i :: 0 <= i < |olist| ==> HasNewKey(r, dict, names, olist[i]))
            && |r| == |dict| + |olist|
    decreases |olist|
  {
    if olist != [] {
      var k := FreeKey(dict.Keys + names, n);
      var key, rest := FakeKey(k), olist[1..];
      var d := dict[key := olist[0]];
      WithKeysKeeps(d, names, rest, k + 1);
      var r := WithKeys(dict, names, olist, n);
      assert r == WithKeys(d, names, rest, k + 1);
      hide FreeKey, FakeKey, WithKeys;
      OneKeyMore(dict, key, olist[0]);
      assert HasNewKey(r, dict, names, olist[0]) by {
        assert key in r && r[key] == olist[0];
      }
      forall i | 1 <= i < |olist| ensures HasNewKey(r, dict, names, olist[i]) {
        assert rest[i - 1] == olist[i];
        StillNew(r, dict, d, names, olist[i]);
      }
    }
  }

  lemma {:induction false} OneKeyMore(dict: map<string, Obj>, key: string, o: Obj)
    requires key !in dict
    ensures |dict[key := o]| == |dict| + 1
  {
    assert dict[key := o].Keys == dict.Keys + {key};
  }

  lemma {:induction false} StillNew(r: map<string, Obj>, dict: map<string, Obj>, d: map<string, Obj>,
          names: set<string>, o: Obj)
    requires dict.Keys <= d.Keys && HasNewKey(r, d, names, o)
    ensures HasNewKey(r, dict, names, o)
  {
    var k :| k in r && k !in d && k !in names && r[k] == o;
  }

  // ---------------------------------------------------------------- the containers

  // What a container is when its closing token is met.
  function Built(f: Frame, sanity: bool): Obj {
    if f.state == StArray then Arr(f.olist)
    else
      var d := if f.state == StDictValue then f.dict[f.key := Null] else f.dict;
      Dict(if f.olist != [] && !sanity then WithKeys(d, NamesOf(f.olist), f.olist, 1) else d)
  }

  predicate Closes(f: Frame, t: Token) {
    if f.state == StArray then t == ArrayClose else t == DictClose
  }

  // A token that is not a bracket, or a bracket in the wrong place. None gives up.
  function Scalar(f: Frame, t: Token, sanity: bool): Option<Frame> {
    match t
    case BoolTok(b) => Some(Add(f, Bool(b)))
    case IntTok(i) => Some(Add(f, Int(i)))
    case RealTok(s) => Some(Add(f, Real(s)))
    case StringTok(s) => Some(Add(f, Str(s)))
    case NameTok(s) =>
      if f.state == StDictKey then Some(f.(key := s, state := StDictValue)) else Some(Add(f, Name(s)))
    case WordTok(w) =>
      if !sanity then Some(Add(f, Str(w)))
      else if w == "endobj" || w == "endstream" then None
      else Some(Add(f, Null))
    case ArrayClose => if sanity then None else Some(Add(f, Null))
    case DictClose => if sanity then None else Some(Add(f, Null))
    case _ => Some(Add(f, Null))
  }

  function OnItem(f: Frame, item: Item, sanity: bool): Option<Frame> {
    match item
    case Tok(t) => Scalar(f, t, sanity)
    case RefItem(id, gen) =>
      var o := Referred(id, gen);
      if o.None? then None else Some(Add(f, o.value))
  }

  predicate Opens(item: Item) {
    item == Tok(ArrayOpen) || item == Tok(DictOpen)
  }

  // With a stack, the innermost container last.
  function RunStack(stack: seq<Frame>, items: seq<Item>, sanity: bool): Option<Obj>
    requires stack != []
    decreases |items|
  {
    if items == [] then None
    else
      var below, f := stack[..|stack| - 1], stack[|stack| - 1];
      var item, rest := items[0], items[1..];
      if Opens(item) then RunStack(stack + [NewFrame(item.t)], rest, sanity)
      else if item.Tok? && Closes(f, item.t) then
        if below == [] then Some(Built(f, sanity))
        else RunStack(below[..|below| - 1] + [Add(below[|below| - 1], Built(f, sanity))], rest, sanity)
      else
        var g := OnItem(f, item, sanity);
        if g.None? then None else RunStack(below + [g.value], rest, sanity)
  }

  // By recursive descent: the object, and what comes after it.
  function Descend(f: Frame, items: seq<Item>, sanity: bool): (r: Option<(Obj, seq<Item>)>)
    ensures r.Some? ==> |r.value.1| < |items|
    decreases |items|
  {
    if items == [] then None
    else
      var item, rest := items[0], items[1..];
      if Opens(item) then
        var r := Descend(NewFrame(item.t), rest, sanity);
        if r.None? then None else Descend(Add(f, r.value.0), r.value.1, sanity)
      else if item.Tok? && Closes(f, item.t) then Some((Built(f, sanity), rest))
      else
        var g := OnItem(f, item, sanity);
        if g.None? then None else Descend(g.value, rest, sanity)
  }

  // What the stack does with the outcome for its innermost container.
  function Return(below: seq<Frame>, r: Option<(Obj, seq<Item>)>, sanity: bool): Option<Obj> {
    if r.None? then None
    else if below == [] then Some(r.value.0)
    else RunStack(below[..|below| - 1] + [Add(below[|below| - 1], r.value.0)], r.value.1, sanity)
  }

  // For every sequence of tokens, wrong ones included, the stack does what recursive descent does.
  lemma {:induction false} StackDescends(below: seq<Frame>, f: Frame, items: seq<Item>, sanity: bool)
    ensures RunStack(below + [f], items, sanity) == Return(below, Descend(f, items, sanity), sanity)
    decreases |items|
  {
    var stack := below + [f];
    assert stack[|stack| - 1] == f && stack[..|stack| - 1] == below;
    if items != [] {
      var item, rest := items[0], items[1..];
      hide OnItem, Built, Closes, Add, NewFrame;
      if Opens(item) {
        var open := NewFrame(item.t);
        StackDescends(stack, open, rest, sanity);
        var r := Descend(open, rest, sanity);
        if r.Some? {
          StackDescends(below, Add(f, r.value.0), r.value.1, sanity);
        }
      } else if !(item.Tok? && Closes(f, item.t)) {
        var g := OnItem(f, item, sanity);
        if g.Some? {
          StackDescends(below, g.value, rest, sanity);
        }
      }
    }
  }
}
