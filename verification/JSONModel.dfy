/**
 * JSON values and how libqpdf/JSON.cc writes them. A char of a text stands for one byte.
 */
module JSONModel {
  datatype Json =
    | Null
    | Bool(b: bool)
    | Number(text: string)
    | Str(utf8: string)
    | Array(items: seq<Json>)
    | Dict(members: seq<Member>)

  // The key is encoded: it is what stands between the quotes. Members are in the order of their keys.
  datatype Member = Member(key: string, value: Json)

  const BACKSPACE: char := 8 as char
  const FORM_FEED: char := 12 as char

  // ---------------------------------------------------------------- strings

  predicate Plain(c: char) {
    (c as int > 34 && c != '\\') || c == ' ' || c as int == 33
  }

  function HexDigit(n: nat): char
    requires n < 16
  {
    "0123456789abcdef"[n]
  }

  function EncodeChar(c: char): string {
    if Plain(c) then [c]
    else if c == '\\' then "\\\\"
    else if c == '\"' then "\\\""
    else if c == BACKSPACE then "\\b"
    else if c == FORM_FEED then "\\f"
    else if c == '\n' then "\\n"
    else if c == '\r' then "\\r"
    else if c == '\t' then "\\t"
    else (if c as int < 16 then "\\u000" else "\\u001") + [HexDigit(c as int % 16)]
  }

  function Encode(s: string): string {
    if s == "" then "" else Encode(s[..|s| - 1]) + EncodeChar(s[|s| - 1])
  }

  lemma {:induction false} EncodeAppend(a: string, b: string)
    ensures Encode(a + b) == Encode(a) + Encode(b)
  {
    hide EncodeChar;
    if b == "" {
      assert a + b == a;
    } else {
      var b', c := b[..|b| - 1], b[|b| - 1];
      EncodeAppend(a, b');
      assert (a + b)[..|a + b| - 1] == a + b' && (a + b)[|a + b| - 1] == c;
      assert Encode(a + b) == (Encode(a) + Encode(b')) + EncodeChar(c);
    }
  }

  lemma {:induction false} EncodePlain(s: string)
    requires forall i :: 0 <= i < |s| ==> Plain(s[i])
    ensures Encode(s) == s
  {
    if s != "" {
      EncodePlain(s[..|s| - 1]);
    }
  }

  lemma EncodeNext(s: string, i: nat)
    requires i < |s|
    ensures Encode(s[..i + 1]) == Encode(s[..i]) + EncodeChar(s[i])
  {
    assert s[..i + 1][..i] == s[..i];
  }

  // Writer::encode_string: the first loop looks for a character that cannot stay as it is.
  method EncodeString(s: string) returns (r: string)
    ensures r == Encode(s)
  {
    var i := 0;
    while i < |s| && Plain(s[i])
      invariant i <= |s| && forall k :: 0 <= k < i ==> Plain(s[k])
    {
      i := i + 1;
    }
    EncodePlain(s[..i]);
    hide EncodeChar, Plain;
    if i == |s| {
      assert s[..i] == s;
      return s;
    }
    r := s[..i];
    while i < |s|
      invariant i <= |s| && r == Encode(s[..i])
    {
      EncodeNext(s, i);
      r := r + EncodeChar(s[i]);
      i := i + 1;
    }
    assert s[..i] == s;
  }

  // ---------------------------------------------------------------- dictionaries

  // The order of std::map<std::string, …>.
  predicate Less(a: string, b: string) {
    if b == "" then false
    else if a == "" then true
    else a[0] < b[0] || (a[0] == b[0] && Less(a[1..], b[1..]))
  }

  lemma {:induction false} LessStrict(a: string, b: string)
    requires Less(a, b)
    ensures !Less(b, a) && a != b
  {
    if a != "" && a[0] == b[0] {
      LessStrict(a[1..], b[1..]);
    }
  }

  // Less where they differ first, or a proper beginning.
  lemma {:induction false} LessIs(a: string, b: string)
    ensures Less(a, b) <==> a < b || exists i :: 0 <= i < |a| && i < |b| && a[..i] == b[..i] && a[i] < b[i]
  {
    if a != "" && b != "" && a[0] == b[0] {
      var a', b' := a[1..], b[1..];
      LessIs(a', b');
      assert a == [a[0]] + a' && b == [b[0]] + b';
      if i :| 0 <= i < |a'| && i < |b'| && a'[..i] == b'[..i] && a'[i] < b'[i] {
        assert a[..i + 1] == [a[0]] + a'[..i] && b[..i + 1] == [b[0]] + b'[..i];
        assert a[i + 1] < b[i + 1];
      }
      if i :| 0 <= i < |a| && i < |b| && a[..i] == b[..i] && a[i] < b[i] {
        assert a'[..i - 1] == a[..i][1..] && b'[..i - 1] == b[..i][1..] && a'[i - 1] < b'[i - 1];
      }
    } else if a != "" && b != "" {
      assert a[..0] == b[..0];
    }
  }

  function Put(ms: seq<Member>, m: Member): seq<Member> {
    if ms == [] then [m]
    else if ms[0].key == m.key then [m] + ms[1..]
    else if Less(m.key, ms[0].key) then [m] + ms
    else [ms[0]] + Put(ms[1..], m)
  }

  lemma {:induction false} PutLast(ms: seq<Member>, m: Member)
    requires forall i :: 0 <= i < |ms| ==> Less(ms[i].key, m.key)
    ensures Put(ms, m) == ms + [m]
  {
    if ms != [] {
      LessStrict(ms[0].key, m.key);
      PutLast(ms[1..], m);
    }
  }

  // addDictionaryMember
  function AddMember(j: Json, key: string, value: Json): Json
    requires j.Dict?
  {
    Dict(Put(j.members, Member(Encode(key), value)))
  }

  // ---------------------------------------------------------------- numbers, section 6 of RFC 8259

  predicate Digit(c: char) {
    '0' <= c <= '9'
  }

  predicate Digits(s: string) {
    s != "" && forall i :: 0 <= i < |s| ==> Digit(s[i])
  }

  predicate IntPart(s: string) {
    s == "0" || (Digits(s) && s[0] != '0')
  }

  predicate FracPart(s: string) {
    s == "" || (s[0] == '.' && Digits(s[1..]))
  }

  predicate ExpPart(s: string) {
    s == "" ||
    ((s[0] == 'e' || s[0] == 'E') && |s| > 1 &&
     if s[1] == '+' || s[1] == '-' then Digits(s[2..]) else Digits(s[1..]))
  }

  ghost predicate IsNumber(s: string) {
    exists i: string, f: string, e: string :: NumberParts(s, i, f, e)
  }

  predicate NumberParts(s: string, i: string, f: string, e: string) {
    IntPart(i) && FracPart(f) && ExpPart(e) && (s == i + f + e || s == "-" + (i + f + e))
  }

  // ---------------------------------------------------------------- values as they can be built

  ghost predicate IsEncoded(key: string) {
    exists k :: key == Encode(k)
  }

  ghost predicate Valid(j: Json) {
    match j
    case Number(text) => IsNumber(text)
    case Array(items) => forall i :: 0 <= i < |items| ==> Valid(items[i])
    case Dict(ms) =>
      && (forall i :: 0 <= i < |ms| ==> Valid(ms[i].value) && IsEncoded(ms[i].key))
      && Sorted(ms)
    case _ => true
  }

  lemma {:induction false} LessTrans(a: string, b: string, c: string)
    requires Less(a, b) && Less(b, c)
    ensures Less(a, c)
  {
    if a != "" && a[0] == b[0] && b[0] == c[0] {
      LessTrans(a[1..], b[1..], c[1..]);
    }
  }

  lemma {:induction false} LessTotal(a: string, b: string)
    ensures Less(a, b) || Less(b, a) || a == b
  {
    if a != "" && b != "" && a[0] == b[0] {
      LessTotal(a[1..], b[1..]);
      assert a == [a[0]] + a[1..] && b == [b[0]] + b[1..];
    }
  }

  ghost predicate Sorted(ms: seq<Member>) {
    forall i, k :: 0 <= i < k < |ms| ==> Less(ms[i].key, ms[k].key)
  }

  // One key is set and the others stay, all in order.
  lemma {:induction false} PutSorted(ms: seq<Member>, m: Member)
    requires Sorted(ms)
    ensures var r := Put(ms, m); Sorted(r) && m in r
    ensures forall x :: x in Put(ms, m) ==> x == m || (x in ms && x.key != m.key)
    ensures forall x :: x in ms && x.key != m.key ==> x in Put(ms, m)
  {
    if ms != [] {
      var first, rest := ms[0], ms[1..];
      assert forall x :: x in rest ==> Less(first.key, x.key);
      assert forall x :: x in ms <==> x == first || x in rest;
      if first.key == m.key {
        forall x | x in rest ensures x.key != m.key { LessStrict(first.key, x.key); }
      } else if Less(m.key, first.key) {
        PutFirst(ms, m);
      } else {
        LessTotal(first.key, m.key);
        PutSorted(rest, m);
        PutRest(first, rest, m);
      }
    }
  }

  lemma PutFirst(ms: seq<Member>, m: Member)
    requires Sorted(ms) && ms != [] && Less(m.key, ms[0].key)
    ensures Sorted([m] + ms) && forall x :: x in ms ==> x.key != m.key
  {
    forall i | 0 <= i < |ms| ensures Less(m.key, ms[i].key) && ms[i].key != m.key {
      if i > 0 {
        LessTrans(m.key, ms[0].key, ms[i].key);
      }
      LessStrict(m.key, ms[i].key);
    }
  }

  lemma PutRest(first: Member, rest: seq<Member>, m: Member)
    requires Sorted(Put(rest, m)) && Less(first.key, m.key) && forall x :: x in rest ==> Less(first.key, x.key)
    requires forall x :: x in Put(rest, m) ==> x == m || x in rest
    ensures Sorted([first] + Put(rest, m))
  {
    var r := Put(rest, m);
    forall i | 0 <= i < |r| ensures Less(first.key, r[i].key) {
      assert r[i] in r;
    }
  }

  // Everything built with addDictionaryMember from valid values is valid.
  lemma AddMemberValid(j: Json, key: string, value: Json)
    requires Valid(j) && j.Dict? && Valid(value)
    ensures Valid(AddMember(j, key, value))
  {
    var m := Member(Encode(key), value);
    PutSorted(j.members, m);
    var r := Put(j.members, m);
    assert IsEncoded(m.key);
    hide IsEncoded, Encode, Put, Sorted, IsNumber;
    forall i | 0 <= i < |r| ensures Valid(r[i].value) && IsEncoded(r[i].key) {
      assert r[i] in r;
      if r[i] != m {
        var n :| 0 <= n < |j.members| && j.members[n] == r[i];
      }
    }
  }

  function Max(a: nat, b: nat): nat {
    if a < b then b else a
  }

  // How deep containers are nested.
  function Depth(j: Json): nat
    decreases j
  {
    match j
    case Array(_) => 1 + DepthOf(j, Size(j))
    case Dict(_) => 1 + DepthOf(j, Size(j))
    case _ => 0
  }

  function Size(j: Json): nat {
    match j
    case Array(items) => |items|
    case Dict(ms) => |ms|
    case _ => 0
  }

  function Child(j: Json, i: nat): (c: Json)
    requires i < Size(j)
    ensures c < j
  {
    if j.Array? then j.items[i] else j.members[i].value
  }

  // The first n items.
  function DepthOf(j: Json, n: nat): nat
    requires n <= Size(j)
    decreases j, n
  {
    if n == 0 then 0 else Max(DepthOf(j, n - 1), Depth(Child(j, n - 1)))
  }

  // ---------------------------------------------------------------- writing

  function Spaces(n: nat): string {
    seq(n, _ => ' ')
  }

  function Indent(depth: nat): string {
    "\n" + Spaces(2 * depth)
  }

  // The text of a value that starts at this depth.
  function Text(j: Json, depth: nat): string
    decreases j
  {
    match j
    case Null => "null"
    case Bool(b) => if b then "true" else "false"
    case Number(text) => text
    case Str(s) => "\"" + Encode(s) + "\""
    case Array(items) => "[" + TextOf(j, |items|, depth + 1) + Closing(j, depth) + "]"
    case Dict(ms) => "{" + TextOf(j, |ms|, depth + 1) + Closing(j, depth) + "}"
  }

  function Closing(j: Json, depth: nat): string {
    if Size(j) == 0 then "" else Indent(depth)
  }

  // The first n items, with what separates them.
  function TextOf(j: Json, n: nat, depth: nat): string
    requires n <= Size(j)
    decreases j, n
  {
    if n == 0 then "" else TextOf(j, n - 1, depth) + ItemText(j, n - 1, depth)
  }

  function ItemText(j: Json, i: nat, depth: nat): string
    requires i < Size(j)
    decreases j, i
  {
    Lead(j, i, depth) + Text(Child(j, i), depth)
  }

  function Lead(j: Json, i: nat, depth: nat): string
    requires i < Size(j)
  {
    (if i == 0 then "" else ",") + Indent(depth) +
    if j.Dict? then "\"" + j.members[i].key + "\": " else ""
  }

  class Pipeline {
    var data: string

    constructor ()
      ensures data == ""
    {
      data := "";
    }

    method Write(s: string)
      modifies this
      ensures data == old(data) + s
    {
      data := data + s;
    }
  }

  method WriteNext(p: Pipeline, first: bool, depth: nat) returns (first': bool)
    modifies p
    ensures !first' && p.data == old(p.data) + (if first then "" else ",") + Indent(depth)
  {
    first' := false;
    if first {
      p.Write("\n" + Spaces(2 * depth));
    } else {
      p.Write(",\n" + Spaces(2 * depth));
    }
  }

  method WriteClose(p: Pipeline, first: bool, depth: nat, delimiter: string)
    modifies p
    ensures p.data == old(p.data) + ((if first then "" else Indent(depth)) + delimiter)
  {
    if first {
      p.Write(delimiter);
    } else {
      p.Write(Indent(depth) + delimiter);
    }
  }

  // The write methods of the values.
  method WriteJson(j: Json, p: Pipeline, depth: nat)
    modifies p
    ensures p.data == old(p.data) + Text(j, depth)
    decreases j, 1
  {
    match j {
      case Null => p.Write("null");
      case Bool(b) => p.Write(if b then "true" else "false");
      case Number(text) => p.Write(text);
      case Str(s) =>
        var e := EncodeString(s);
        p.Write("\"" + e + "\"");
      case Array(items) => WriteArray(j, p, depth);
      case Dict(ms) => WriteDictionary(j, p, depth);
    }
  }

  method WriteArray(j: Json, p: Pipeline, depth: nat)
    requires j.Array?
    modifies p
    ensures p.data == old(p.data) + Text(j, depth)
    decreases j, 0
  {
    hide Indent, Encode;
    p.Write("[");
    var first := true;
    for i := 0 to |j.items|
      invariant first == (i == 0) && p.data == old(p.data) + ("[" + TextOf(j, i, depth + 1))
    {
      ghost var was := p.data;
      first := WriteNext(p, first, 1 + depth);
      assert p.data == was + Lead(j, i, depth + 1);
      WriteJson(j.items[i], p, 1 + depth);
      Written(old(p.data), "[", TextOf(j, i, depth + 1), Lead(j, i, depth + 1), Text(j.items[i], depth + 1));
    }
    WriteClose(p, first, depth, "]");
    Closed(old(p.data), "[", TextOf(j, |j.items|, depth + 1), Closing(j, depth), "]");
  }

  method WriteDictionary(j: Json, p: Pipeline, depth: nat)
    requires j.Dict?
    modifies p
    ensures p.data == old(p.data) + Text(j, depth)
    decreases j, 0
  {
    hide Indent, Encode;
    p.Write("{");
    var first := true;
    for i := 0 to |j.members|
      invariant first == (i == 0) && p.data == old(p.data) + ("{" + TextOf(j, i, depth + 1))
    {
      ghost var was := p.data;
      ghost var next := (if first then "" else ",") + Indent(1 + depth);
      first := WriteNext(p, first, 1 + depth);
      p.Write("\"" + j.members[i].key + "\": ");
      assert p.data == was + Lead(j, i, depth + 1) by {
        assert was + next + ("\"" + j.members[i].key + "\": ") == was + (next + ("\"" + j.members[i].key + "\": "));
      }
      WriteJson(j.members[i].value, p, 1 + depth);
      Written(old(p.data), "{", TextOf(j, i, depth + 1), Lead(j, i, depth + 1), Text(j.members[i].value, depth + 1));
    }
    WriteClose(p, first, depth, "}");
    Closed(old(p.data), "{", TextOf(j, |j.members|, depth + 1), Closing(j, depth), "}");
  }

  lemma Written(a: string, b: string, c: string, d: string, e: string)
    ensures a + (b + c) + d + e == a + (b + (c + (d + e)))
  {
  }

  lemma Closed(a: string, b: string, c: string, d: string, e: string)
    ensures a + (b + c) + (d + e) == a + (b + c + d + e)
  {
  }

  method Unparse(j: Json) returns (s: string)
    ensures s == Text(j, 0)
  {
    var p := new Pipeline();
    WriteJson(j, p, 0);
    s := p.data;
  }
}
