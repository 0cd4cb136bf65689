/**
 * The syntax of section 7.3 of ISO 32000-1 and what libqpdf/QPDFParser.cc makes of it: the tokens of
 * nested arrays and dictionaries give back what they were written from.
 */
module QPDFParserTrees {
  import opened Wrappers
  import opened QPDFParserModel

  datatype Tree =
    | TNull
    | TBool(b: bool)
    | TInt(i: int)
    | TReal(text: string)
    | TName(text: string)
    | TStr(text: string)
    | TRef(id: int, gen: int)
    | TArr(items: seq<Tree>)
    | TDict(entries: seq<(string, Tree)>)

  function Count(t: Tree): nat {
    match t
    case TArr(items) => |items|
    case TDict(entries) => |entries|
    case _ => 0
  }

  function Sub(t: Tree, i: nat): (r: Tree)
    requires i < Count(t)
    ensures r < t
  {
    if t.TArr? then t.items[i] else t.entries[i].1
  }

  // References are within the range of int.
  predicate Sound(t: Tree)
    decreases t, 1
  {
    match t
    case TRef(id, gen) => FitsInt(id) && FitsInt(gen)
    case _ => SoundParts(t, Count(t))
  }

  predicate SoundParts(t: Tree, n: nat)
    requires n <= Count(t)
    decreases t, 0, n
  {
    n == 0 || (SoundParts(t, n - 1) && Sound(Sub(t, n - 1)))
  }

  // ---------------------------------------------------------------- meaning

  function Value(t: Tree): Obj
    decreases t, 1
  {
    match t
    case TNull => Null
    case TBool(b) => Bool(b)
    case TInt(i) => Int(i)
    case TReal(s) => Real(s)
    case TName(s) => Name(s)
    case TStr(s) => Str(s)
    case TRef(id, gen) => if 1 <= id && 0 <= gen < 65535 then Ref(id, gen) else Null
    case TArr(_) => Arr(Values(t, Count(t)))
    case TDict(_) => Dict(Entries(t, Count(t)))
  }

  function Values(t: Tree, n: nat): (r: seq<Obj>)
    requires t.TArr? && n <= Count(t)
    ensures |r| == n
    decreases t, 0, n
  {
    if n == 0 then [] else Values(t, n - 1) + [Value(Sub(t, n - 1))]
  }

  // Of a key that is there twice, the last value.
  function Entries(t: Tree, n: nat): map<string, Obj>
    requires t.TDict? && n <= Count(t)
    decreases t, 0, n
  {
    if n == 0 then map[] else Entries(t, n - 1)[t.entries[n - 1].0 := Value(Sub(t, n - 1))]
  }

  // ---------------------------------------------------------------- tokens

  function Tokens(t: Tree): (r: seq<Token>)
    ensures r != []
    decreases t, 1
  {
    match t
    case TNull => [NullTok]
    case TBool(b) => [BoolTok(b)]
    case TInt(i) => [IntTok(i)]
    case TReal(s) => [RealTok(s)]
    case TName(s) => [NameTok(s)]
    case TStr(s) => [StringTok(s)]
    case TRef(id, gen) => [IntTok(id), IntTok(gen), WordTok("R")]
    case TArr(_) => [ArrayOpen] + TokensOfParts(t, Count(t)) + [ArrayClose]
    case TDict(_) => [DictOpen] + TokensOfParts(t, Count(t)) + [DictClose]
  }

  function Lead(t: Tree, i: nat): seq<Token>
    requires i < Count(t)
  {
    if t.TDict? then [NameTok(t.entries[i].0)] else []
  }

  function TokensOfParts(t: Tree, n: nat): seq<Token>
    requires n <= Count(t)
    decreases t, 0, n
  {
    if n == 0 then [] else TokensOfParts(t, n - 1) + Lead(t, n - 1) + Tokens(Sub(t, n - 1))
  }

  function Items(t: Tree): seq<Item>
    decreases t, 1
  {
    match t
    case TRef(id, gen) => [RefItem(id, gen)]
    case TArr(_) => [Tok(ArrayOpen)] + ItemsOfParts(t, Count(t)) + [Tok(ArrayClose)]
    case TDict(_) => [Tok(DictOpen)] + ItemsOfParts(t, Count(t)) + [Tok(DictClose)]
    case _ => [Tok(Tokens(t)[0])]
  }

  function ItemsOfParts(t: Tree, n: nat): seq<Item>
    requires n <= Count(t)
    decreases t, 0, n
  {
    if n == 0 then []
    else
      ItemsOfParts(t, n - 1) + (if t.TDict? then [Tok(NameTok(t.entries[n - 1].0))] else []) + Items(Sub(t, n - 1))
  }

  // Nothing at the front makes a reference of integers before it.
  predicate Calm(ts: seq<Token>) {
    && !(ts != [] && ts[0] == WordTok("R"))
    && !(|ts| >= 2 && ts[0].IntTok? && ts[1] == WordTok("R"))
  }

  lemma CalmTree(t: Tree, rest: seq<Token>)
    requires Calm(rest)
    ensures Calm(Tokens(t) + rest)
  {
    hide TokensOfParts;
  }

  lemma GroupOne(x: Token, rest: seq<Token>)
    requires Calm(rest) || !x.IntTok?
    ensures Group([x] + rest) == [Tok(x)] + Group(rest)
  {
    assert ([x] + rest)[1..] == rest;
  }

  // Integers stay integers, and every reference is found: the tokens of a tree are its items.
  lemma {:induction false} GroupTree(t: Tree, rest: seq<Token>)
    requires Calm(rest) || t.TArr? || t.TDict?
    ensures Group(Tokens(t) + rest) == Items(t) + Group(rest)
    decreases t, 1, 0
  {
    match t
    case TRef(id, gen) =>
      assert (Tokens(t) + rest)[3..] == rest;
    case TArr(_) => GroupBrackets(t, ArrayOpen, ArrayClose, rest);
    case TDict(_) => GroupBrackets(t, DictOpen, DictClose, rest);
    case _ =>
      assert Tokens(t) == [Tokens(t)[0]];
      GroupOne(Tokens(t)[0], rest);
  }

  lemma {:induction false} GroupBrackets(t: Tree, open: Token, close: Token, rest: seq<Token>)
    requires (t.TArr? && open == ArrayOpen && close == ArrayClose) || (t.TDict? && open == DictOpen &&
              close == DictClose)
    ensures Group([open] + TokensOfParts(t, Count(t)) + [close] + rest) ==
            [Tok(open)] + ItemsOfParts(t, Count(t)) + [Tok(close)] + Group(rest)
    decreases t, 0, Count(t) + 1
  {
    hide TokensOfParts, ItemsOfParts, Group;
    var body, items := TokensOfParts(t, Count(t)), ItemsOfParts(t, Count(t));
    Regroup([open], body, [close], rest);
    GroupOne(open, body + ([close] + rest));
    GroupParts(t, Count(t), [close] + rest);
    GroupOne(close, rest);
    Regroup([Tok(open)], items, [Tok(close)], Group(rest));
  }

  lemma {:induction false} GroupParts(t: Tree, n: nat, rest: seq<Token>)
    requires n <= Count(t) && Calm(rest)
    ensures Group(TokensOfParts(t, n) + rest) == ItemsOfParts(t, n) + Group(rest)
    decreases t, 0, n
  {
    hide Group, Tokens, Items, Calm;
    if n == 0 {
      assert TokensOfParts(t, 0) + rest == rest;
    } else {
      var s, lead := Sub(t, n - 1), Lead(t, n - 1);
      var leading := if t.TDict? then [Tok(NameTok(t.entries[n - 1].0))] else [];
      assert TokensOfParts(t, n) == TokensOfParts(t, n - 1) + lead + Tokens(s);
      assert ItemsOfParts(t, n) == ItemsOfParts(t, n - 1) + leading + Items(s);
      hide ItemsOfParts, TokensOfParts;
      var last := Tokens(s) + rest;
      CalmTree(s, rest);
      GroupLead(t, n - 1, last);
      Regroup(TokensOfParts(t, n - 1), lead, Tokens(s), rest);
      GroupParts(t, n - 1, lead + last);
      GroupTree(s, rest);
      Regroup(ItemsOfParts(t, n - 1), leading, Items(s), Group(rest));
    }
  }

  lemma Regroup<T>(a: seq<T>, b: seq<T>, c: seq<T>, d: seq<T>)
    ensures a + b + c + d == a + (b + (c + d))
  {
  }

  lemma GroupLead(t: Tree, i: nat, rest: seq<Token>)
    requires i < Count(t) && Calm(rest)
    ensures Calm(Lead(t, i) + rest)
    ensures Group(Lead(t, i) + rest) == (if t.TDict? then [Tok(NameTok(t.entries[i].0))] else []) + Group(rest)
  {
    if t.TDict? {
      GroupOne(NameTok(t.entries[i].0), rest);
    } else {
      assert Lead(t, i) + rest == rest;
    }
  }

  // ---------------------------------------------------------------- parsing a tree

  // A value is added, with a key or without one. Only a name is not a value where a key may stand.
  lemma {:induction false} DescendTree(f: Frame, t: Tree, rest: seq<Item>, sanity: bool)
    requires (f.state == StDictKey ==> !t.TName?) && Sound(t)
    ensures Descend(f, Items(t) + rest, sanity) == Descend(Add(f, Value(t)), rest, sanity)
    decreases t, 1, 0
  {
    hide Value, Sound, ItemsOfParts, Descend, Add;
    if t.TArr? || t.TDict? {
      var open, close := if t.TArr? then ArrayOpen else DictOpen, if t.TArr? then ArrayClose else DictClose;
      var items := ItemsOfParts(t, Count(t));
      assert Items(t) == [Tok(open)] + items + [Tok(close)];
      DescendBody(t, rest, sanity);
      hide Items;
      Regroup([Tok(open)], items, [Tok(close)], rest);
      DescendOpening(f, open, items + ([Tok(close)] + rest), Value(t), rest, sanity);
    } else {
      DescendScalar(f, t, rest, sanity);
    }
  }

  lemma DescendScalar(f: Frame, t: Tree, rest: seq<Item>, sanity: bool)
    requires (f.state == StDictKey ==> !t.TName?) && Sound(t) && !t.TArr? && !t.TDict?
    ensures Descend(f, Items(t) + rest, sanity) == Descend(Add(f, Value(t)), rest, sanity)
  {
    assert (Items(t) + rest)[1..] == rest && (Items(t) + rest)[0] == Items(t)[0];
  }

  lemma DescendOpening(f: Frame, open: Token, body: seq<Item>, value: Obj, rest: seq<Item>, sanity: bool)
    requires open == ArrayOpen || open == DictOpen
    requires Descend(NewFrame(open), body, sanity) == Some((value, rest))
    ensures Descend(f, [Tok(open)] + body, sanity) == Descend(Add(f, value), rest, sanity)
  {
    assert ([Tok(open)] + body)[1..] == body;
  }

  // The frame of a container after n of its parts.
  function After(t: Tree, n: nat, key: string): Frame
    requires n <= Count(t)
  {
    if t.TArr? then Frame(StArray, Values(t, n), map[], key)
    else if t.TDict? then Frame(StDictKey, [], Entries(t, n), key)
    else NewFrame(ArrayOpen)
  }

  function LastKey(t: Tree, n: nat): string
    requires n <= Count(t)
  {
    if t.TDict? && n > 0 then t.entries[n - 1].0 else ""
  }

  // A container, from behind its opening token to its end.
  lemma {:induction false} DescendBody(t: Tree, rest: seq<Item>, sanity: bool)
    requires (t.TArr? || t.TDict?) && Sound(t)
    ensures var open, close := if t.TArr? then ArrayOpen else DictOpen, if t.TArr? then ArrayClose else DictClose;
            Descend(NewFrame(open), ItemsOfParts(t, Count(t)) + ([Tok(close)] + rest), sanity) == Some((Value(t), rest))
    decreases t, 0, Count(t) + 1
  {
    var n, close := Count(t), if t.TArr? then ArrayClose else DictClose;
    DescendParts(t, n, [Tok(close)] + rest, sanity);
    assert ([Tok(close)] + rest)[1..] == rest;
    hide ItemsOfParts, Values, Entries;
    assert Descend(After(t, n, LastKey(t, n)), [Tok(close)] + rest, sanity) == Some((Value(t), rest));
  }

  lemma {:induction false} DescendParts(t: Tree, n: nat, rest: seq<Item>, sanity: bool)
    requires (t.TArr? || t.TDict?) && n <= Count(t) && SoundParts(t, n)
    ensures Descend(NewFrame(if t.TArr? then ArrayOpen else DictOpen), ItemsOfParts(t, n) + rest, sanity) ==
            Descend(After(t, n, LastKey(t, n)), rest, sanity)
    decreases t, 0, n
  {
    if n == 0 {
      assert ItemsOfParts(t, 0) + rest == rest;
    } else {
      var s := Sub(t, n - 1);
      var lead := if t.TDict? then [Tok(NameTok(t.entries[n - 1].0))] else [];
      assert ItemsOfParts(t, n) == ItemsOfParts(t, n - 1) + lead + Items(s);
      assert Sound(s) && SoundParts(t, n - 1);
      hide ItemsOfParts, Items, Value, Descend, Sound, SoundParts;
      var f := After(t, n - 1, LastKey(t, n - 1));
      Regroup(ItemsOfParts(t, n - 1), lead, Items(s), rest);
      DescendParts(t, n - 1, lead + (Items(s) + rest), sanity);
      LeadDescended(t, n - 1, Items(s) + rest, sanity);
      hide After;
      DescendTree(AtValue(t, n - 1), s, rest, sanity);
      PartAdded(t, n - 1);
    }
  }

  // The frame when part i comes, behind its key.
  function AtValue(t: Tree, i: nat): Frame
    requires (t.TArr? || t.TDict?) && i < Count(t)
  {
    var f := After(t, i, LastKey(t, i));
    if t.TDict? then f.(key := t.entries[i].0, state := StDictValue) else f
  }

  lemma LeadDescended(t: Tree, i: nat, rest: seq<Item>, sanity: bool)
    requires (t.TArr? || t.TDict?) && i < Count(t)
    ensures var lead := if t.TDict? then [Tok(NameTok(t.entries[i].0))] else [];
            Descend(After(t, i, LastKey(t, i)), lead + rest, sanity) == Descend(AtValue(t, i), rest, sanity)
    ensures AtValue(t, i).state != StDictKey
  {
    hide Values, Entries, Value;
    if t.TDict? {
      var lead := [Tok(NameTok(t.entries[i].0))];
      assert (lead + rest)[0] == lead[0] && (lead + rest)[1..] == rest;
    } else {
      var none: seq<Item> := [];
      assert none + rest == rest;
    }
  }

  lemma PartAdded(t: Tree, i: nat)
    requires (t.TArr? || t.TDict?) && i < Count(t)
    ensures Add(AtValue(t, i), Value(Sub(t, i))) == After(t, i + 1, LastKey(t, i + 1))
  {
    hide Value;
  }

  // Parsing the tokens of an array or dictionary gives its value, and stops behind it, whatever comes
  // next.
  lemma {:induction false} ParsesTree(t: Tree, rest: seq<Token>, sanity: bool)
    requires (t.TArr? || t.TDict?) && Sound(t)
    ensures var ts := Tokens(t);
            Descend(NewFrame(ts[0]), Group(ts[1..] + rest), sanity) == Some((Value(t), Group(rest)))
  {
    var ts := Tokens(t);
    var open, close := if t.TArr? then ArrayOpen else DictOpen, if t.TArr? then ArrayClose else DictClose;
    GroupTree(t, rest);
    var items := ItemsOfParts(t, Count(t));
    assert Items(t) == [Tok(open)] + items + [Tok(close)] && ts[0] == open && |ts| > 0;
    hide Group, Tokens, Items, TokensOfParts, ItemsOfParts, Descend, Value, Sound;
    FirstOff(ts, rest);
    GroupOne(open, ts[1..] + rest);
    var body := items + ([Tok(close)] + Group(rest));
    Regroup([Tok(open)], items, [Tok(close)], Group(rest));
    SameTail(Tok(open), Group(ts[1..] + rest), body);
    DescendBody(t, Group(rest), sanity);
  }

  lemma FirstOff<T>(ts: seq<T>, rest: seq<T>)
    requires |ts| > 0
    ensures ts + rest == [ts[0]] + (ts[1..] + rest)
  {
  }

  lemma SameTail<T>(x: T, a: seq<T>, b: seq<T>)
    requires [x] + a == [x] + b
    ensures a == b
  {
    assert ([x] + a)[1..] == a && ([x] + b)[1..] == b;
  }
}
