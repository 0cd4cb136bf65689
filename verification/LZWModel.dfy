/**
 * LZW decoding, section 7.4.4 of ISO 32000-1, as libqpdf/Pl_LZWDecoder.cc does it code by code, and
 * a reference encoder to compare it with.
 */
module LZWModel {
  import opened Wrappers
  import opened Bytes

  const CLEAR := 256
  const EOD := 257
  const FIRST := 258
  // Codes have at most 12 bits, so this is the most entries a table may have.
  const MAX_ENTRIES := 4096 - FIRST

  type Table = seq<seq<byte>>

  datatype Error = BadCode | TableFull | TableOverflow | InvalidCode

  // ---------------------------------------------------------------- the decoder, code by code

  datatype Decoder = Decoder(table: Table, lastCode: nat, codeSize: nat, eod: bool, out: seq<byte>)

  const START := Decoder([], CLEAR, 9, false, [])

  function FirstChar(t: Table, code: nat): Result<byte, Error> {
    if code < 256 then Ok(code)
    else if code <= 257 then Err(InvalidCode)
    else if code - FIRST >= |t| || t[code - FIRST] == [] then Err(TableOverflow)
    else Ok(t[code - FIRST][0])
  }

  function Entry(t: Table, code: nat): Result<seq<byte>, Error> {
    if code < 256 then Ok([code])
    else if code <= 257 then Err(InvalidCode)
    else if code - FIRST >= |t| then Err(TableOverflow)
    else Ok(t[code - FIRST])
  }

  // The code size once an entry with this index has been added.
  function Grown(size: nat, index: nat, delta: nat): nat {
    if index + delta == 511 || index + delta == 1023 || index + delta == 2047 then size + 1 else size
  }

  // The entry that a code completes: the last string and the first byte of this one.
  function Extend(d: Decoder, code: nat, delta: nat): Result<Decoder, Error> {
    if d.lastCode == CLEAR then Ok(d)
    else if code >= FIRST && code - FIRST > |d.table| then Err(BadCode)
    else
      var next := if code >= FIRST && code - FIRST == |d.table| then FirstChar(d.table, d.lastCode)
                  else FirstChar(d.table, code);
      if next.Err? then Err(next.error)
      else if FIRST + |d.table| == 4096 then Err(TableFull)
      else
        var last := Entry(d.table, d.lastCode);
        if last.Err? then Err(last.error)
        else Ok(d.(table := d.table + [last.value + [next.value]],
                   codeSize := Grown(d.codeSize, FIRST + |d.table|, delta)))
  }

  function Handle(d: Decoder, code: nat, delta: nat): Result<Decoder, Error> {
    if d.eod then Ok(d)
    else if code == CLEAR then Ok(d.(table := [], codeSize := 9, lastCode := code))
    else if code == EOD then Ok(d.(eod := true, lastCode := code))
    else
      var e := Extend(d, code, delta);
      if e.Err? then e
      else if code >= FIRST && code - FIRST >= |e.value.table| then Err(TableOverflow)
      else
        var s := if code < 256 then [code] else e.value.table[code - FIRST];
        Ok(e.value.(out := d.out + s, lastCode := code))
  }

  function HandleAll(d: Decoder, codes: seq<nat>, delta: nat): Result<Decoder, Error>
    decreases |codes|
  {
    if codes == [] then Ok(d)
    else
      var r := Handle(d, codes[0], delta);
      if r.Err? then r else HandleAll(r.value, codes[1..], delta)
  }

  // ---------------------------------------------------------------- what an encoder may send

  // An encoder after some codes: its table, up to the entry that its next byte will complete.
  datatype Encoder = Encoder(table: Table, prev: Option<seq<byte>>)

  const FRESH := Encoder([], None)

  // It goes on with a string that begins with c ...
  function Completed(e: Encoder, c: byte): Table {
    if e.prev.Some? then e.table + [e.prev.value + [c]] else e.table
  }

  // ... and sends that string.
  function Took(e: Encoder, p: seq<byte>): Encoder
    requires p != []
  {
    Encoder(Completed(e, p[0]), Some(p))
  }

  predicate Denotes(t: Table, code: nat, p: seq<byte>) {
    if code < 256 then p == [code]
    else code >= FIRST && code - FIRST < |t| && t[code - FIRST] == p
  }

  // The codes spell out data, cut anywhere into strings of the table, with the table cleared at any
  // time and never over its size.
  ghost predicate Sends(e: Encoder, codes: seq<nat>, data: seq<byte>)
    decreases |codes|
  {
    if codes == [] then data == []
    else if codes[0] == CLEAR then Sends(FRESH, codes[1..], data)
    else
      exists n: nat :: SendsFirst(e, codes[0], data, n) && Sends(Took(e, data[..n]), codes[1..], data[n..])
  }

  ghost predicate SendsFirst(e: Encoder, code: nat, data: seq<byte>, n: nat) {
    && 0 < n <= |data|
    && |Completed(e, data[0])| <= MAX_ENTRIES
    && Denotes(Completed(e, data[0]), code, data[..n])
  }

  // The index of the last entry the encoder has, once it knows the byte that completes it.
  function LastIndex(e: Encoder): nat {
    FIRST - 1 + |e.table| + if e.prev.Some? then 1 else 0
  }

  // The number of bits of a code, by the last index in use: more from the code on that follows the
  // creation of entry 511, 1023 and 2047, or one entry later without early change.
  function CodeSize(last: nat, delta: nat): (r: nat)
    ensures 9 <= r <= 12
  {
    var i := last + delta;
    if i < 512 then 9 else if i < 1024 then 10 else if i < 2048 then 11 else 12
  }

  function Width(e: Encoder, delta: nat): nat {
    CodeSize(LastIndex(e), delta)
  }

  // ---------------------------------------------------------------- the decoder keeps up

  // The decoder has the encoder's table without the entry the encoder has in the making.
  ghost predicate Follows(d: Decoder, e: Encoder, delta: nat) {
    && !d.eod && d.table == e.table && delta <= 1
    && (forall i :: 0 <= i < |e.table| ==> e.table[i] != [])
    && |e.table| <= MAX_ENTRIES
    && (e.prev.None? ==> d.lastCode == CLEAR && e.table == [])
    && (e.prev.Some? ==> e.prev.value != [] && d.lastCode != CLEAR && Denotes(e.table, d.lastCode, e.prev.value))
    && d.codeSize == Width(e, delta)
  }

  lemma FollowsStart(delta: nat)
    requires delta <= 1
    ensures Follows(START, FRESH, delta)
  {
  }

  // One code: the decoder writes the string, even if the code is that of the very entry it lacks.
  lemma FollowsStep(d: Decoder, e: Encoder, code: nat, data: seq<byte>, n: nat, delta: nat)
    requires Follows(d, e, delta) && SendsFirst(e, code, data, n)
    ensures code != CLEAR && code != EOD
    ensures Handle(d, code, delta).Ok?
    ensures var d' := Handle(d, code, delta).value;
            d'.out == d.out + data[..n] && Follows(d', Took(e, data[..n]), delta)
  {
    var p := data[..n];
    var t := Completed(e, data[0]);
    assert p[0] == data[0];
    if e.prev.Some? {
      assert Entry(d.table, d.lastCode) == Ok(e.prev.value);
      if code >= FIRST && code - FIRST == |d.table| {
        assert p == e.prev.value + [p[0]];
        assert FirstChar(d.table, d.lastCode) == Ok(p[0]);
      } else {
        assert FirstChar(d.table, code) == Ok(p[0]);
      }
    }
  }

  lemma FollowsClear(d: Decoder, e: Encoder, delta: nat)
    requires Follows(d, e, delta)
    ensures Handle(d, CLEAR, delta).Ok?
    ensures Handle(d, CLEAR, delta).value.out == d.out && Follows(Handle(d, CLEAR, delta).value, FRESH, delta)
  {
  }

  // Decoding whatever an encoder sent gives back its input.
  lemma {:induction false} DecodesWhatIsSent(d: Decoder, e: Encoder, codes: seq<nat>, data: seq<byte>, delta: nat)
    requires Follows(d, e, delta) && Sends(e, codes, data)
    ensures HandleAll(d, codes, delta).Ok? && HandleAll(d, codes, delta).value.out == d.out + data
    ensures !HandleAll(d, codes, delta).value.eod
    decreases |codes|
  {
    hide Handle;
    if codes == [] {
      assert d.out + [] == d.out;
    } else if codes[0] == CLEAR {
      FollowsClear(d, e, delta);
      DecodesWhatIsSent(Handle(d, CLEAR, delta).value, FRESH, codes[1..], data, delta);
    } else {
      var n := FirstSent(e, codes, data);
      FollowsStep(d, e, codes[0], data, n, delta);
      hide Follows, SendsFirst, Took, Sends;
      DecodesWhatIsSent(Handle(d, codes[0], delta).value, Took(e, data[..n]), codes[1..], data[n..], delta);
      assert d.out + data[..n] + data[n..] == d.out + data;
    }
  }

  lemma FirstSent(e: Encoder, codes: seq<nat>, data: seq<byte>) returns (n: nat)
    requires codes != [] && codes[0] != CLEAR && Sends(e, codes, data)
    ensures 0 < n <= |data| && SendsFirst(e, codes[0], data, n) && Sends(Took(e, data[..n]), codes[1..], data[n..])
  {
    n :| SendsFirst(e, codes[0], data, n) && Sends(Took(e, data[..n]), codes[1..], data[n..]);
  }

  // ---------------------------------------------------------------- the greedy encoder

  function FindFrom(t: Table, p: seq<byte>, i: nat): Option<nat>
    decreases |t| - i
  {
    if i >= |t| then None
    else if t[i] == p then Some(FIRST + i)
    else FindFrom(t, p, i + 1)
  }

  function Find(t: Table, p: seq<byte>): Option<nat>
    requires p != []
  {
    if |p| == 1 then Some(p[0]) else FindFrom(t, p, 0)
  }

  // The longest beginning of data, up to n bytes, that the table has.
  function Longest(t: Table, data: seq<byte>, n: nat): (r: nat)
    requires 0 < n <= |data|
    ensures 0 < r <= n && Find(t, data[..r]).Some?
  {
    if Find(t, data[..n]).Some? then n else Longest(t, data, n - 1)
  }

  // Sends the longest string it can, and clears when the next entry would be over the limit.
  function Greedy(e: Encoder, data: seq<byte>, limit: nat): seq<nat>
    decreases |data|, e.prev.Some?
  {
    if data == [] then []
    else if e.prev.Some? && |e.table| >= limit then [CLEAR] + Greedy(FRESH, data, limit)
    else
      var t := Completed(e, data[0]);
      var n := Longest(t, data, |data|);
      [Find(t, data[..n]).value] + Greedy(Took(e, data[..n]), data[n..], limit)
  }

  function Encode(data: seq<byte>, limit: nat): seq<nat> {
    [CLEAR] + Greedy(FRESH, data, limit) + [EOD]
  }

  lemma {:induction false} FindFromProps(t: Table, p: seq<byte>, i: nat)
    ensures FindFrom(t, p, i).Some? ==>
              var c := FindFrom(t, p, i).value; FIRST + i <= c < FIRST + |t| && t[c - FIRST] == p
    ensures FindFrom(t, p, i).None? ==> forall j :: i <= j < |t| ==> t[j] != p
    decreases |t| - i
  {
    if i < |t| && t[i] != p {
      FindFromProps(t, p, i + 1);
    }
  }

  lemma {:induction false} LongestIsLongest(t: Table, data: seq<byte>, n: nat, k: nat)
    requires 0 < n <= |data| && Longest(t, data, n) < k <= n
    ensures !exists code :: Denotes(t, code, data[..k])
  {
    if Find(t, data[..n]).None? {
      if k == n {
        FindFromProps(t, data[..n], 0);
      } else {
        LongestIsLongest(t, data, n - 1, k);
      }
    }
  }

  lemma {:induction false} GreedySends(e: Encoder, data: seq<byte>, limit: nat)
    requires limit < MAX_ENTRIES && |e.table| <= limit && (e.prev.None? ==> e.table == [])
    ensures Sends(e, Greedy(e, data, limit), data)
    decreases |data|, e.prev.Some?
  {
    var codes := Greedy(e, data, limit);
    if data == [] {
    } else if e.prev.Some? && |e.table| >= limit {
      GreedySends(FRESH, data, limit);
      assert codes[1..] == Greedy(FRESH, data, limit);
    } else {
      var t := Completed(e, data[0]);
      var n := Longest(t, data, |data|);
      var p := data[..n];
      FindFromProps(t, p, 0);
      assert p[0] == data[0];
      GreedySends(Took(e, p), data[n..], limit);
      assert codes[1..] == Greedy(Took(e, p), data[n..], limit);
      assert SendsFirst(e, codes[0], data, n);
    }
  }

  // Codes after the end-of-data code do nothing.
  lemma {:induction false} NothingAfterEod(d: Decoder, codes: seq<nat>, delta: nat)
    requires d.eod
    ensures HandleAll(d, codes, delta) == Ok(d)
    decreases |codes|
  {
    if codes != [] {
      NothingAfterEod(d, codes[1..], delta);
    }
  }

  lemma {:induction false} HandleAllAppend(d: Decoder, a: seq<nat>, b: seq<nat>, delta: nat)
    ensures var r := HandleAll(d, a, delta);
            HandleAll(d, a + b, delta) == if r.Err? then r else HandleAll(r.value, b, delta)
    decreases |a|
  {
    if a == [] {
      assert a + b == b;
    } else {
      assert (a + b)[0] == a[0] && (a + b)[1..] == a[1..] + b;
      var r := Handle(d, a[0], delta);
      if r.Ok? {
        HandleAllAppend(r.value, a[1..], b, delta);
      }
    }
  }

  // For every input, the codes of the greedy encoder decode to it, whatever follows them.
  lemma RoundTrip(data: seq<byte>, limit: nat, delta: nat, rest: seq<nat>)
    requires limit < MAX_ENTRIES && delta <= 1
    ensures var r := HandleAll(START, Encode(data, limit) + rest, delta); r.Ok? && r.value.out == data && r.value.eod
  {
    var body := Greedy(FRESH, data, limit);
    GreedySends(FRESH, data, limit);
    FollowsStart(delta);
    assert ([CLEAR] + body)[1..] == body;
    assert Sends(FRESH, [CLEAR] + body, data);
    DecodesWhatIsSent(START, FRESH, [CLEAR] + body, data, delta);
    var d := HandleAll(START, [CLEAR] + body, delta).value;
    HandleAllAppend(START, [CLEAR] + body, [EOD] + rest, delta);
    assert Encode(data, limit) + rest == ([CLEAR] + body) + ([EOD] + rest);
    assert ([EOD] + rest)[1..] == rest;
    NothingAfterEod(Handle(d, EOD, delta).value, rest, delta);
    assert [] + data == data;
  }
}
