/**
 * Pl_RunLength of libqpdf/Pl_RunLength.cc: run-length encoding and decoding of a stream that comes in
 * pieces of any size, section 7.4.5 of ISO 32000-1.
 */
module RunLength {
  import opened Bytes

  const EOD: byte := 128

  // ---------------------------------------------------------------- the encoding

  // Bytes as they are, or one byte repeated. A length byte is never the end-of-data marker.
  datatype Block = Copy(data: seq<byte>) | Run(count: nat, b: byte)

  predicate Proper(x: Block) {
    match x
    case Copy(data) => 1 <= |data| <= 128
    case Run(count, _) => 2 <= count <= 128
  }

  function Content(x: Block): seq<byte> {
    match x
    case Copy(data) => data
    case Run(count, b) => Repeat(count, b)
  }

  function Code(x: Block): seq<byte>
    requires Proper(x)
  {
    match x
    case Copy(data) => [|data| - 1] + data
    case Run(count, b) => [257 - count, b]
  }

  predicate AllProper(xs: seq<Block>) {
    forall i :: 0 <= i < |xs| ==> Proper(xs[i])
  }

  function Contents(xs: seq<Block>): seq<byte> {
    if xs == [] then [] else Contents(xs[..|xs| - 1]) + Content(xs[|xs| - 1])
  }

  function Codes(xs: seq<Block>): seq<byte>
    requires AllProper(xs)
  {
    if xs == [] then [] else Codes(xs[..|xs| - 1]) + Code(xs[|xs| - 1])
  }

  // ---------------------------------------------------------------- decoding

  datatype State = Top | Copying | Running

  // What the length means depends on the state; at the top it means nothing.
  datatype Decoder = Decoder(state: State, length: nat, out: seq<byte>)

  function AtTop(out: seq<byte>): Decoder {
    Decoder(Top, 0, out)
  }

  function DecodeByte(d: Decoder, ch: byte): Decoder {
    match d.state
    case Top =>
      if ch < 128 then d.(length := 1 + ch, state := Copying)
      else if ch > 128 then d.(length := 257 - ch, state := Running)
      else d
    case Copying => if d.length <= 1 then AtTop(d.out + [ch]) else Decoder(Copying, d.length - 1, d.out + [ch])
    case Running => AtTop(d.out + Repeat(d.length, ch))
  }

  function Decode(d: Decoder, data: seq<byte>): Decoder {
    if data == [] then d else DecodeByte(Decode(d, data[..|data| - 1]), data[|data| - 1])
  }

  lemma {:induction false} DecodeAppend(d: Decoder, a: seq<byte>, b: seq<byte>)
    ensures Decode(d, a + b) == Decode(Decode(d, a), b)
  {
    if b == [] {
      assert a + b == a;
    } else {
      var b', c := b[..|b| - 1], b[|b| - 1];
      DecodeAppend(d, a, b');
      assert (a + b)[..|a + b| - 1] == a + b' && (a + b)[|a + b| - 1] == c;
      hide DecodeByte;
    }
  }

  lemma {:induction false} DecodeCopied(n: nat, out: seq<byte>, data: seq<byte>)
    requires |data| <= n
    ensures Decode(Decoder(Copying, n, out), data) ==
            if |data| == n > 0 then AtTop(out + data) else Decoder(Copying, n - |data|, out + data)
  {
    if data == [] {
      assert out + data == out;
    } else {
      var data', c := data[..|data| - 1], data[|data| - 1];
      DecodeCopied(n, out, data');
      assert out + data' + [c] == out + data;
    }
  }

  lemma DecodeBlock(x: Block, out: seq<byte>)
    requires Proper(x)
    ensures Decode(AtTop(out), Code(x)) == AtTop(out + Content(x))
  {
    match x
    case Copy(data) =>
      DecodeAppend(AtTop(out), [|data| - 1], data);
      assert Decode(AtTop(out), [|data| - 1]) == Decoder(Copying, |data|, out);
      DecodeCopied(|data|, out, data);
    case Run(count, b) =>
      assert Code(x)[..1] == [257 - count];
      assert Decode(AtTop(out), [257 - count]) == Decoder(Running, count, out);
  }

  // The format: a byte n below 128 comes before n + 1 bytes to be copied, and a byte n above 128 before
  // one byte that is there 257 - n times. 128 means nothing.
  lemma DecodeFormat(out: seq<byte>, n: byte, data: seq<byte>)
    ensures n < 128 && |data| == n + 1 ==> Decode(AtTop(out), [n] + data) == AtTop(out + data)
    ensures n > 128 && |data| == 1 ==>
              exists run: seq<byte> :: |run| == 257 - n && (forall i :: 0 <= i < |run| ==> run[i] == data[0])
                && Decode(AtTop(out), [n] + data) == AtTop(out + run)
    ensures n == 128 ==> Decode(AtTop(out), [n]) == AtTop(out)
  {
    assert [n][..0] == [];
    assert Decode(AtTop(out), []) == AtTop(out);
    if n < 128 && |data| == n + 1 {
      assert Code(Copy(data)) == [n] + data;
      DecodeBlock(Copy(data), out);
    } else if n > 128 && |data| == 1 {
      var run := Repeat(257 - n, data[0]);
      DecodeAppend(AtTop(out), [n], data);
      assert Decode(AtTop(out), [n]) == Decoder(Running, 257 - n, out);
      assert data[..0] == [] && Decode(Decoder(Running, 257 - n, out), []) == Decoder(Running, 257 - n, out);
      assert Decode(AtTop(out), [n] + data) == AtTop(out + run);
    }
  }

  // Decoding the codes of any blocks gives what the blocks contain.
  lemma {:induction false} DecodeCodes(xs: seq<Block>)
    requires AllProper(xs)
    ensures Decode(AtTop([]), Codes(xs)) == AtTop(Contents(xs))
  {
    if xs != [] {
      var xs', x := xs[..|xs| - 1], xs[|xs| - 1];
      DecodeCodes(xs');
      hide Decode, Code, Content;
      DecodeAppend(AtTop([]), Codes(xs'), Code(x));
      DecodeBlock(x, Contents(xs'));
    }
  }

  lemma DecodeEnded(xs: seq<Block>)
    requires AllProper(xs)
    ensures Decode(AtTop([]), Codes(xs) + [EOD]) == AtTop(Contents(xs))
  {
    DecodeCodes(xs);
    assert (Codes(xs) + [EOD])[..|Codes(xs)|] == Codes(xs);
  }

  // ---------------------------------------------------------------- the pipeline stage

  class RunLengthEncoder {
    var state: State
    const buf: array<byte>
    var length: nat
    // What has been written to the next stage.
    var next: seq<byte>
    // What has been written to this one, and the blocks that have been passed on.
    ghost var input: seq<byte>
    ghost var blocks: seq<Block>

    constructor ()
      ensures Valid() && input == [] && blocks == [] && fresh(buf)
    {
      state, length, next, input, blocks := Top, 0, [], [], [];
      buf := new byte[128](_ => 0);
    }

    // The input is what the blocks contain and what is in the buffer: for a run, the same byte again
    // and again. The output is at most a third longer than what it stands for, and a run that waits
    // makes up for more.
    ghost predicate Valid()
      reads this, buf
    {
      && buf.Length == 128 && length <= 128
      && (state == Top <==> length <= 1)
      && (state == Running ==> forall i :: 0 <= i < length ==> buf[i] == buf[0])
      && AllProper(blocks) && next == Codes(blocks)
      && input == Contents(blocks) + buf[..length]
      && 3 * |next| <= 4 * |Contents(blocks)| + if state == Running then 2 else 0
    }

    method Encode(data: seq<byte>)
      requires Valid()
      modifies this, buf
      ensures Valid() && input == old(input) + data
    {
      hide Contents, Codes, AllProper;
      for i := 0 to |data|
        invariant Valid() && input == old(input) + data[..i]
      {
        EncodeByte(data[i]);
        OneMore(old(input), data, i);
      }
      assert data[..|data|] == data;
    }

    lemma OneMore(s: seq<byte>, data: seq<byte>, i: nat)
      requires i < |data|
      ensures s + data[..i] + [data[i]] == s + data[..i + 1]
    {
      assert data[..i + 1] == data[..i] + [data[i]];
    }

    method EncodeByte(ch: byte)
      requires Valid()
      modifies this, buf
      ensures Valid() && input == old(input) + [ch]
    {
      hide Contents, Codes, AllProper;
      assert (state == Top) == (length <= 1);
      if length > 0 && (state == Copying || length < 128) && ch == buf[length - 1] {
        if state == Copying {
          SwitchToRun(ch);
        } else {
          MoreOfRun(ch);
        }
      } else {
        if length == 128 || state == Running {
          FlushEncode();
          assert buf[..0] == [] && Contents(blocks) + [] == Contents(blocks);
        }
        MoreToCopy(ch);
      }
    }

    method MoreToCopy(ch: byte)
      requires Valid() && length < 128 && state != Running
      modifies this, buf
      ensures Valid() && input == old(input) + [ch]
    {
      hide Contents, Codes, AllProper;
      if length > 0 {
        state := Copying;
      }
      ghost var was := buf[..length];
      buf[length] := ch;
      length := length + 1;
      input := input + [ch];
      assert buf[..length] == was + [ch];
      Joined(Contents(blocks), was, [ch]);
    }

    lemma Joined(a: seq<byte>, b: seq<byte>, c: seq<byte>)
      ensures a + b + c == a + (b + c)
    {
    }

    // The byte before starts the run; what is before that is passed on.
    method SwitchToRun(ch: byte)
      requires Valid() && state == Copying && buf[length - 1] == ch
      modifies this, buf
      ensures Valid() && input == old(input) + [ch]
    {
      hide Contents, Codes, AllProper;
      ghost var n := length;
      assert buf[..n] == buf[..n - 1] + [ch];
      length := length - 1;
      FlushEncode();
      buf[0] := ch;
      length := 1;
      state := Running;
      buf[length] := ch;
      length := length + 1;
      input := input + [ch];
      assert buf[..length] == [ch, ch];
    }

    method MoreOfRun(ch: byte)
      requires Valid() && state != Copying && 0 < length < 128 && buf[length - 1] == ch
      modifies this, buf
      ensures Valid() && input == old(input) + [ch]
    {
      ghost var was := buf[..length];
      state := Running;
      buf[length] := ch;
      length := length + 1;
      input := input + [ch];
      assert buf[..length] == was + [ch];
    }

    method FlushEncode()
      requires buf.Length == 128 && length <= 128 && AllProper(blocks) && next == Codes(blocks)
      requires state == Running ==> length >= 2 && forall i :: 0 <= i < length ==> buf[i] == buf[0]
      modifies this`state, this`length, this`next, this`blocks
      ensures state == Top && length == 0
      ensures AllProper(blocks) && next == Codes(blocks)
      ensures Contents(blocks) == old(Contents(blocks) + buf[..length])
      ensures |next| == old(|next| + if state == Running then 2 else if length > 0 then length + 1 else 0)
    {
      hide Contents, Codes;
      if state == Running {
        assert !(length < 2 || length > 128);
        next := next + [257 - length];
        next := next + [buf[0]];
        Passed(blocks, Run(length, buf[0]));
        assert buf[..length] == Repeat(length, buf[0]);
        assert next == Codes(blocks) + [257 - length, buf[0]];
        blocks := blocks + [Run(length, buf[0])];
      } else if length > 0 {
        next := next + [length - 1];
        next := next + buf[..length];
        Passed(blocks, Copy(buf[..length]));
        assert next == Codes(blocks) + ([length - 1] + buf[..length]);
        blocks := blocks + [Copy(buf[..length])];
      } else {
        assert buf[..length] == [] && Contents(blocks) + [] == Contents(blocks);
      }
      state := Top;
      length := 0;
    }

    // The output decodes to the input, in blocks none of whose length bytes is the end marker, and is
    // not much longer.
    method Finish()
      requires Valid()
      modifies this
      ensures input == old(input) && AllProper(blocks) && next == Codes(blocks) + [EOD] && Contents(blocks) == input
      ensures Decode(AtTop([]), next) == AtTop(input)
      ensures 3 * |next| <= 4 * |input| + 6
    {
      hide Contents, Codes, Decode;
      FlushEncode();
      next := next + [EOD];
      DecodeEnded(blocks);
    }
  }

  lemma Passed(xs: seq<Block>, x: Block)
    requires AllProper(xs) && Proper(x)
    ensures AllProper(xs + [x]) && Codes(xs + [x]) == Codes(xs) + Code(x) &&
              Contents(xs + [x]) == Contents(xs) + Content(x)
  {
    assert (xs + [x])[..|xs|] == xs;
  }

  class RunLengthDecoder {
    var state: State
    var length: nat
    var out: seq<byte>

    constructor ()
      ensures Now() == AtTop([])
    {
      state, length, out := Top, 0, [];
    }

    ghost function Now(): Decoder
      reads this
    {
      Decoder(state, if state == Top then 0 else length, out)
    }

    method Write(data: seq<byte>)
      modifies this
      ensures Now() == Decode(old(Now()), data)
    {
      for i := 0 to |data|
        invariant Now() == Decode(old(Now()), data[..i])
      {
        var ch := data[i];
        assert data[..i + 1][..i] == data[..i];
        match state {
          case Top =>
            if ch < 128 {
              length := 1 + ch;
              state := Copying;
            } else if ch > 128 {
              length := 257 - ch;
              state := Running;
            }
          case Copying =>
            out := out + [ch];
            length := if length > 0 then length - 1 else 0;
            if length == 0 {
              state := Top;
            }
          case Running =>
            out := out + Repeat(length, ch);
            state := Top;
        }
      }
      assert data[..|data|] == data;
    }
  }

  // Encoding in any pieces and decoding in any pieces gives back the input.
  method RoundTrip(pieces: seq<seq<byte>>, cuts: seq<nat>) returns (out: seq<byte>)
    ensures out == Concat(pieces)
  {
    hide Decode, Contents, Codes, AllProper;
    var encoder := new RunLengthEncoder();
    for i := 0 to |pieces|
      invariant encoder.Valid() && fresh(encoder) && fresh(encoder.buf) && encoder.input == Concat(pieces[..i])
    {
      encoder.Encode(pieces[i]);
      assert pieces[..i + 1][..i] == pieces[..i];
    }
    assert pieces[..|pieces|] == pieces;
    encoder.Finish();
    out := DecodeIn(encoder.next, cuts, encoder.input);
  }

  method DecodeIn(code: seq<byte>, cuts: seq<nat>, ghost data: seq<byte>) returns (out: seq<byte>)
    requires Decode(AtTop([]), code) == AtTop(data)
    ensures out == data
  {
    assert Decode(AtTop([]), []) == AtTop([]);
    hide Decode;
    var decoder := new RunLengthDecoder();
    var done := 0;
    for i := 0 to |cuts|
      invariant done <= |code| && fresh(decoder) && decoder.Now() == Decode(AtTop([]), code[..done])
    {
      var end := if done + cuts[i] <= |code| then done + cuts[i] else |code|;
      assert code[..end] == code[..done] + code[done..end];
      DecodeAppend(AtTop([]), code[..done], code[done..end]);
      decoder.Write(code[done..end]);
      done := end;
    }
    assert code == code[..done] + code[done..];
    DecodeAppend(AtTop([]), code[..done], code[done..]);
    decoder.Write(code[done..]);
    out := decoder.out;
  }
}
