/**
 * What libqpdf/QPDFParser.cc makes of arrays and dictionaries that are not as they should be: words and
 * brackets out of place, objects without keys and a key without a value.
 */
module QPDFParserRepairs {
  import opened Wrappers
  import opened QPDFParserModel
  import opened QPDFParserTrees

  // An object, or a token that is none.
  datatype Elem = Good(t: Tree) | Odd(token: Token)

  predicate Stray(token: Token, inArray: bool) {
    token == BraceOpen || token == BraceClose || token == BadTok || token.WordTok?
    || token == (if inArray then DictClose else ArrayClose)
  }

  // Braces and bad tokens are null. A word is a string; when parsing is to be strict it is null, or the end of
  // it all if it is endobj or endstream. A bracket that closes something else is null, or the end if strict.
  function Taken(e: Elem, sanity: bool): Option<Obj> {
    match e
    case Good(t) => Some(Value(t))
    case Odd(token) =>
      match token
      case WordTok(w) =>
        if !sanity then Some(Str(w)) else if w == "endobj" || w == "endstream" then None else Some(Null)
      case ArrayClose => if sanity then None else Some(Null)
      case DictClose => if sanity then None else Some(Null)
      case _ => Some(Null)
  }

  function ItemsOf(e: Elem): seq<Item> {
    match e
    case Good(t) => Items(t)
    case Odd(token) => [Tok(token)]
  }

  predicate Fit(e: Elem, inArray: bool) {
    match e
    case Good(t) => Sound(t)
    case Odd(token) => Stray(token, inArray)
  }

  lemma {:induction false} ElemTaken(f: Frame, e: Elem, rest: seq<Item>, sanity: bool)
    requires Fit(e, f.state == StArray) && (f.state == StDictKey ==> !(e.Good? && e.t.TName?))
    ensures var o := Taken(e, sanity);
            Descend(f, ItemsOf(e) + rest, sanity) == if o.None? then None else Descend(Add(f, o.value), rest, sanity)
  {
    match e
    case Good(t) => DescendTree(f, t, rest, sanity);
    case Odd(token) => OddTaken(f, token, rest, sanity);
  }

  lemma {:induction false} OddTaken(f: Frame, token: Token, rest: seq<Item>, sanity: bool)
    requires Stray(token, f.state == StArray)
    ensures var o := Taken(Odd(token), sanity);
            Descend(f, [Tok(token)] + rest, sanity) == if o.None? then None else Descend(Add(f, o.value), rest, sanity)
  {
    assert ([Tok(token)] + rest)[1..] == rest;
    assert !Opens(Tok(token)) && !Closes(f, token);
    hide Add;
    assert Scalar(f, token, sanity) ==
           var o := Taken(Odd(token), sanity); if o.None? then None else Some(Add(f, o.value));
  }

  // ---------------------------------------------------------------- arrays

  function AllItems(es: seq<Elem>): seq<Item> {
    if es == [] then [] else ItemsOf(es[0]) + AllItems(es[1..])
  }

  function AllTaken(es: seq<Elem>, sanity: bool): Option<seq<Obj>> {
    if es == [] then Some([])
    else
      var o, more := Taken(es[0], sanity), AllTaken(es[1..], sanity);
      if o.None? || more.None? then None else Some([o.value] + more.value)
  }

  lemma {:induction false} ElemsTaken(f: Frame, es: seq<Elem>, rest: seq<Item>, sanity: bool)
    requires f.state == StArray && forall i :: 0 <= i < |es| ==> Fit(es[i], true)
    ensures var os := AllTaken(es, sanity);
            Descend(f, AllItems(es) + rest, sanity) ==
            if os.None? then None else Descend(f.(olist := f.olist + os.value), rest, sanity)
    decreases |es|
  {
    hide Descend, Taken, ItemsOf, Fit;
    if es == [] {
      assert AllItems(es) + rest == rest && f.olist + [] == f.olist;
    } else {
      var more := AllItems(es[1..]);
      assert AllItems(es) + rest == ItemsOf(es[0]) + (more + rest);
      ElemTaken(f, es[0], more + rest, sanity);
      var o := Taken(es[0], sanity);
      if o.Some? {
        var g := Add(f, o.value);
        ElemsTaken(g, es[1..], rest, sanity);
        var os := AllTaken(es[1..], sanity);
        if os.Some? {
          assert f.olist + [o.value] + os.value == f.olist + ([o.value] + os.value);
        }
      }
    }
  }

  // An array has what its elements are taken for, in their order; if one of them ends it all there is none.
  lemma {:induction false} ArrayTaken(es: seq<Elem>, rest: seq<Item>, sanity: bool)
    requires forall i :: 0 <= i < |es| ==> Fit(es[i], true)
    ensures var os := AllTaken(es, sanity);
            Descend(NewFrame(ArrayOpen), AllItems(es) + ([Tok(ArrayClose)] + rest), sanity) ==
            if os.None? then None else Some((Arr(os.value), rest))
  {
    ElemsTaken(NewFrame(ArrayOpen), es, [Tok(ArrayClose)] + rest, sanity);
    assert ([Tok(ArrayClose)] + rest)[1..] == rest;
    hide AllItems, AllTaken;
    if os :| AllTaken(es, sanity) == Some(os) {
      assert [] + os == os;
    }
  }

  // ---------------------------------------------------------------- dictionaries

  // A key and its value, or something that is no name where a key should stand.
  datatype Part = Keyed(key: string, value: Elem) | Keyless(value: Elem)

  predicate FitPart(p: Part) {
    Fit(p.value, false) && (p.Keyless? ==> !(p.value.Good? && p.value.t.TName?))
  }

  function PartItems(p: Part): seq<Item> {
    (if p.Keyed? then [Tok(NameTok(p.key))] else []) + ItemsOf(p.value)
  }

  function AllParts(ps: seq<Part>): seq<Item> {
    if ps == [] then [] else PartItems(ps[0]) + AllParts(ps[1..])
  }

  function Values(ps: seq<Part>, sanity: bool): Option<seq<Obj>> {
    if ps == [] then Some([])
    else
      var o, more := Taken(ps[0].value, sanity), Values(ps[1..], sanity);
      if o.None? || more.None? then None else Some([o.value] + more.value)
  }

  // The entries with keys, over those there are: of a key that is there twice the last.
  function KeyedIn(ps: seq<Part>, os: seq<Obj>, m: map<string, Obj>): map<string, Obj>
    requires |os| == |ps|
  {
    if ps == [] then m
    else KeyedIn(ps[1..], os[1..], if ps[0].Keyed? then m[ps[0].key := os[0]] else m)
  }

  function KeylessIn(ps: seq<Part>, os: seq<Obj>): seq<Obj>
    requires |os| == |ps|
  {
    if ps == [] then [] else (if ps[0].Keyless? then [os[0]] else []) + KeylessIn(ps[1..], os[1..])
  }

  lemma {:induction false} ValuesLength(ps: seq<Part>, sanity: bool)
    ensures Values(ps, sanity).Some? ==> |Values(ps, sanity).value| == |ps|
  {
    if ps != [] {
      ValuesLength(ps[1..], sanity);
    }
  }

  // The frame once a part has been taken; the key is one that no longer matters.
  function TookPart(f: Frame, p: Part, o: Obj): Frame {
    if p.Keyed? then f.(dict := f.dict[p.key := o], key := p.key) else f.(olist := f.olist + [o])
  }

  lemma {:induction false} PartTaken(f: Frame, p: Part, rest: seq<Item>, sanity: bool)
    requires f.state == StDictKey && FitPart(p)
    ensures var o := Taken(p.value, sanity);
            Descend(f, PartItems(p) + rest, sanity) ==
            if o.None? then None else Descend(TookPart(f, p, o.value), rest, sanity)
  {
    hide Taken, ItemsOf, Fit, Descend;
    if p.Keyed? {
      var g := f.(key := p.key, state := StDictValue);
      assert PartItems(p) + rest == [Tok(NameTok(p.key))] + (ItemsOf(p.value) + rest);
      KeyTaken(f, p.key, ItemsOf(p.value) + rest, sanity);
      ElemTaken(g, p.value, rest, sanity);
    } else {
      assert PartItems(p) + rest == ItemsOf(p.value) + rest;
      ElemTaken(f, p.value, rest, sanity);
    }
  }

  lemma {:induction false} KeyTaken(f: Frame, key: string, rest: seq<Item>, sanity: bool)
    requires f.state == StDictKey
    ensures Descend(f, [Tok(NameTok(key))] + rest, sanity) ==
            Descend(f.(key := key, state := StDictValue), rest, sanity)
  {
    assert ([Tok(NameTok(key))] + rest)[1..] == rest;
  }

  lemma {:induction false} PartsTaken(f: Frame, ps: seq<Part>, rest: seq<Item>, sanity: bool) returns (key: string)
    requires f.state == StDictKey && forall i :: 0 <= i < |ps| ==> FitPart(ps[i])
    ensures var os := Values(ps, sanity);
            if os.None? then Descend(f, AllParts(ps) + rest, sanity) == None
            else
              && |os.value| == |ps|
              && Descend(f, AllParts(ps) + rest, sanity) ==
                 Descend(Frame(StDictKey, f.olist + KeylessIn(ps, os.value), KeyedIn(ps, os.value, f.dict), key), rest,
                         sanity)
    decreases |ps|
  {
    key := f.key;
    hide Descend, Taken, PartItems, FitPart;
    if ps == [] {
      assert AllParts(ps) + rest == rest && f.olist + [] == f.olist;
      assert f == Frame(StDictKey, f.olist, f.dict, f.key);
    } else {
      var p, more := ps[0], AllParts(ps[1..]);
      assert AllParts(ps) + rest == PartItems(p) + (more + rest);
      PartTaken(f, p, more + rest, sanity);
      var o := Taken(p.value, sanity);
      if o.Some? {
        key := PartsTaken(TookPart(f, p, o.value), ps[1..], rest, sanity);
        if Values(ps[1..], sanity).Some? {
          Gathered(f, p, ps, sanity);
        }
      }
    }
  }

  lemma {:induction false} Gathered(f: Frame, p: Part, ps: seq<Part>, sanity: bool)
    requires ps != [] && p == ps[0] && Taken(p.value, sanity).Some? && Values(ps[1..], sanity).Some?
    ensures var o, more := Taken(p.value, sanity).value, Values(ps[1..], sanity).value;
            && |more| == |ps| - 1 && Values(ps, sanity) == Some([o] + more)
            && KeylessIn(ps, [o] + more) == (if p.Keyless? then [o] else []) + KeylessIn(ps[1..], more)
            && KeyedIn(ps, [o] + more, f.dict) ==
               KeyedIn(ps[1..], more, if p.Keyed? then f.dict[p.key := o] else f.dict)
            && f.olist + KeylessIn(ps, [o] + more) ==
               TookPart(f, p, o).olist + KeylessIn(ps[1..], more)
            && TookPart(f, p, o).dict == (if p.Keyed? then f.dict[p.key := o] else f.dict)
  {
    ValuesLength(ps[1..], sanity);
    var o, more := Taken(p.value, sanity).value, Values(ps[1..], sanity).value;
    hide Taken;
    assert ([o] + more)[1..] == more && ([o] + more)[0] == o;
  }

  // The dictionary: the entries with keys, null for a last key without a value, and, unless parsing is strict,
  // every object without a key under a key of its own, of the form /QPDFFake and a number.
  ghost predicate IsBuilt(r: map<string, Obj>, keyed: map<string, Obj>, keyless: seq<Obj>, sanity: bool) {
    if sanity then r == keyed
    else
      && (forall k :: k in keyed ==> k in r && r[k] == keyed[k])
      && (forall i :: 0 <= i < |keyless| ==> HasNewKey(r, keyed, {}, keyless[i]))
      && (forall k :: k in r && k !in keyed ==> exists n :: k == FakeKey(n))
      && |r| == |keyed| + |keyless|
  }

  lemma {:induction false} OnlyFakes(dict: map<string, Obj>, names: set<string>, olist: seq<Obj>, n: nat)
    ensures forall k :: k in WithKeys(dict, names, olist, n) && k !in dict ==> exists i :: k == FakeKey(i)
    decreases |olist|
  {
    hide FakeKey, FreeKey;
    if olist != [] {
      var k := FreeKey(dict.Keys + names, n);
      OnlyFakes(dict[FakeKey(k) := olist[0]], names, olist[1..], k + 1);
    }
  }

  lemma {:induction false} WithKeysBuilt(keyed: map<string, Obj>, keyless: seq<Obj>)
    ensures IsBuilt(WithKeys(keyed, NamesOf(keyless), keyless, 1), keyed, keyless, false)
  {
    hide FakeKey, WithKeys;
    var r := WithKeys(keyed, NamesOf(keyless), keyless, 1);
    WithKeysKeeps(keyed, NamesOf(keyless), keyless, 1);
    OnlyFakes(keyed, NamesOf(keyless), keyless, 1);
    forall i | 0 <= i < |keyless|
      ensures HasNewKey(r, keyed, {}, keyless[i])
    {
      var k :| k in r && k !in keyed && k !in NamesOf(keyless) && r[k] == keyless[i];
    }
  }

  // A dictionary from behind its opening token to its end, perhaps with a key that has no value.
  lemma {:induction false} DictTaken(ps: seq<Part>, last: Option<string>, rest: seq<Item>, sanity: bool)
    returns (r: map<string, Obj>)
    requires forall i :: 0 <= i < |ps| ==> FitPart(ps[i])
    ensures var close := (if last.Some? then [Tok(NameTok(last.value))] else []) + ([Tok(DictClose)] + rest);
            var d, os := Descend(NewFrame(DictOpen), AllParts(ps) + close, sanity), Values(ps, sanity);
            if os.None? then d == None
            else
              && |os.value| == |ps| && d == Some((Dict(r), rest))
              && var m := KeyedIn(ps, os.value, map[]);
                 IsBuilt(r, if last.Some? then m[last.value := Null] else m, KeylessIn(ps, os.value), sanity)
  {
    var end := [Tok(DictClose)] + rest;
    var close := (if last.Some? then [Tok(NameTok(last.value))] else []) + end;
    var key := PartsTaken(NewFrame(DictOpen), ps, close, sanity);
    r := map[];
    if os :| Values(ps, sanity) == Some(os) {
      var f := Frame(StDictKey, [] + KeylessIn(ps, os), KeyedIn(ps, os, map[]), key);
      r := Ended(f, last, rest, sanity);
      assert [] + KeylessIn(ps, os) == KeylessIn(ps, os);
    }
  }

  lemma {:induction false} Ended(f: Frame, last: Option<string>, rest: seq<Item>, sanity: bool)
    returns (r: map<string, Obj>)
    requires f.state == StDictKey
    ensures var close := (if last.Some? then [Tok(NameTok(last.value))] else []) + ([Tok(DictClose)] + rest);
            Descend(f, close, sanity) == Some((Dict(r), rest))
    ensures IsBuilt(r, if last.Some? then f.dict[last.value := Null] else f.dict, f.olist, sanity)
  {
    hide Descend, WithKeys, NamesOf, FakeKey, IsBuilt, HasNewKey;
    var end := [Tok(DictClose)] + rest;
    var g := if last.Some? then f.(key := last.value, state := StDictValue) else f;
    if last.Some? {
      KeyTaken(f, last.value, end, sanity);
    } else {
      assert [] + end == end;
    }
    CloseTaken(g, rest, sanity);
    var d := if last.Some? then f.dict[last.value := Null] else f.dict;
    WithKeysBuilt(d, f.olist);
    BuiltWithout(d, f.olist, sanity);
    r := if f.olist != [] && !sanity then WithKeys(d, NamesOf(f.olist), f.olist, 1) else d;
    assert Built(g, sanity) == Dict(r);
  }

  lemma {:induction false} CloseTaken(f: Frame, rest: seq<Item>, sanity: bool)
    requires f.state != StArray
    ensures Descend(f, [Tok(DictClose)] + rest, sanity) == Some((Built(f, sanity), rest))
  {
    hide Built;
    assert ([Tok(DictClose)] + rest)[1..] == rest;
  }

  lemma {:induction false} BuiltWithout(d: map<string, Obj>, olist: seq<Obj>, sanity: bool)
    ensures olist == [] || sanity ==> IsBuilt(d, d, olist, sanity)
  {
    hide FakeKey;
  }

  // ---------------------------------------------------------------- numbers

  // References go by two numbers of 32 bits; with others it is all over. Object numbers are positive and
  // generations below 65535, or the reference is null.
  lemma {:induction false} ReferenceIs(id: int, gen: int)
    ensures Referred(id, gen) ==
            if id < -2147483648 || id > 2147483647 || gen < -2147483648 || gen > 2147483647 then None
            else if 0 < id && 0 <= gen <= 65534 then Some(Ref(id, gen))
            else Some(Null)
  {
  }

  // What the digits of a number say.
  function Denoted(s: string): int {
    if s == "" then 0 else 10 * Denoted(s[..|s| - 1]) + (s[|s| - 1] as int - '0' as int)
  }

  // The keys made up for objects without one have decimal numbers.
  lemma {:induction false} FakeKeyIs(n: nat)
    ensures |FakeKey(n)| > 9 && FakeKey(n)[..9] == "/QPDFFake" && Denoted(FakeKey(n)[9..]) == n
    ensures forall i :: 9 <= i < |FakeKey(n)| ==> '0' <= FakeKey(n)[i] <= '9'
  {
    DecimalIs(n);
    hide Decimal;
    assert FakeKey(n)[9..] == Decimal(n);
    assert forall i :: 9 <= i < |FakeKey(n)| ==> FakeKey(n)[i] == Decimal(n)[i - 9];
  }

  lemma {:induction false} DecimalIs(n: nat)
    ensures Decimal(n) != "" && Denoted(Decimal(n)) == n
    ensures forall i :: 0 <= i < |Decimal(n)| ==> '0' <= Decimal(n)[i] <= '9'
  {
    var s := Decimal(n);
    if n < 10 {
      assert s[..0] == "" && Denoted("") == 0;
    } else {
      DecimalIs(n / 10);
      assert s[..|s| - 1] == Decimal(n / 10);
    }
  }
}
