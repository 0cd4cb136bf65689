/**
 * The whole way of the LZW decoder of libqpdf/Pl_LZWDecoder.cc: the codes of an encoder, packed into
 * bytes with the code sizes that the encoder uses, come out as what was encoded.
 */
module LZWStream {
  import opened Wrappers
  import opened Bytes
  import opened LZWModel
  import opened LZWDecoder

  // Codes one after the other, most significant bit first. Last is the index of the encoder's last
  // entry: every code but the clear code makes one more.
  function Packed(last: nat, codes: seq<nat>, delta: nat): seq<bool>
    decreases |codes|
  {
    if codes == [] then []
    else
      Bits(codes[0], CodeSize(last, delta)) +
      Packed(if codes[0] == CLEAR then FIRST - 1 else last + 1, codes[1..], delta)
  }

  lemma Pow2Widths()
    ensures Pow2(9) == 512 && Pow2(10) == 1024 && Pow2(11) == 2048 && Pow2(12) == 4096
  {
    Pow2Small();
    assert Pow2(10) == 4 * Pow2(8) && Pow2(12) == 4 * Pow2(10);
  }

  // A code that fits its width is cut off as it was put there.
  lemma DrainCode(d: Decoder, code: nat, width: nat, rest: seq<bool>, delta: nat)
    requires d.codeSize == width && 9 <= width <= 12 && code < Pow2(width)
    ensures Drain(d, Bits(code, width) + rest, delta) ==
            var r := Handle(d, code, delta);
            if r.Err? then Err(r.error) else Drain(r.value, rest, delta)
  {
    hide Bits, Value, Pow2, Handle;
    var bits := Bits(code, width) + rest;
    assert bits[..width] == Bits(code, width) && bits[width..] == rest;
    ValueBits(code, width);
  }

  lemma {:induction false} DrainAfterEod(d: Decoder, bits: seq<bool>, delta: nat)
    requires d.eod
    ensures Drain(d, bits, delta).Ok? && Drain(d, bits, delta).value.0 == d
    decreases |bits|
  {
    if d.codeSize != 0 && |bits| >= d.codeSize {
      DrainAfterEod(d, bits[d.codeSize..], delta);
    }
  }

  // The decoder counts the same entries as the encoder, so both agree on the size of every code.
  lemma WidthsAgree(d: Decoder, e: Encoder, delta: nat)
    requires Follows(d, e, delta)
    ensures d.codeSize == CodeSize(LastIndex(e), delta) && CLEAR < EOD < Pow2(d.codeSize)
  {
    Pow2Widths();
  }

  lemma CodeFits(d: Decoder, e: Encoder, code: nat, data: seq<byte>, n: nat, delta: nat)
    requires Follows(d, e, delta) && SendsFirst(e, code, data, n)
    ensures code < Pow2(d.codeSize) && LastIndex(Took(e, data[..n])) == LastIndex(e) + 1
  {
    Pow2Widths();
    assert data[..n][0] == data[0];
  }

  lemma DrainsTheEnd(d: Decoder, e: Encoder, delta: nat, rest: seq<bool>)
    requires Follows(d, e, delta)
    ensures var r := Drain(d, Packed(LastIndex(e), [EOD], delta) + rest, delta);
            r.Ok? && r.value.0.out == d.out && r.value.0.eod
  {
    hide Handle, Bits, Value, Pow2, Drain, Follows;
    WidthsAgree(d, e, delta);
    var last := Bits(EOD, d.codeSize);
    assert last + [] == last;
    DrainCode(d, EOD, d.codeSize, rest, delta);
    EndOfData(d, delta, e);
    DrainAfterEod(Handle(d, EOD, delta).value, rest, delta);
  }

  // The first code, and the encoder and the data after it.
  lemma FirstDrained(d: Decoder, e: Encoder, codes: seq<nat>, data: seq<byte>, delta: nat)
    returns (e': Encoder, tail: seq<byte>)
    requires Follows(d, e, delta) && Sends(e, codes, data) && codes != []
    ensures codes[0] < Pow2(d.codeSize) && d.codeSize == CodeSize(LastIndex(e), delta)
    ensures LastIndex(e') == if codes[0] == CLEAR then FIRST - 1 else LastIndex(e) + 1
    ensures var r := Handle(d, codes[0], delta);
            r.Ok? && r.value.out + tail == d.out + data && Follows(r.value, e', delta)
    ensures Sends(e', codes[1..], tail)
  {
    hide Handle, Follows, Pow2, SendsFirst, Took;
    WidthsAgree(d, e, delta);
    if codes[0] == CLEAR {
      FollowsClear(d, e, delta);
      return FRESH, data;
    }
    var n := FirstSent(e, codes, data);
    FollowsStep(d, e, codes[0], data, n, delta);
    CodeFits(d, e, codes[0], data, n, delta);
    assert d.out + data[..n] + data[n..] == d.out + data;
    return Took(e, data[..n]), data[n..];
  }

  lemma PackedFirst(last: nat, codes: seq<nat>, delta: nat, rest: seq<bool>)
    requires codes != []
    ensures var next := if codes[0] == CLEAR then FIRST - 1 else last + 1;
            Packed(last, codes + [EOD], delta) + rest ==
            Bits(codes[0], CodeSize(last, delta)) + (Packed(next, codes[1..] + [EOD], delta) + rest)
  {
    var all := codes + [EOD];
    assert all[0] == codes[0] && all[1..] == codes[1..] + [EOD];
  }

  lemma {:induction false} DrainsWhatIsSent(d: Decoder, e: Encoder, codes: seq<nat>, data: seq<byte>, delta: nat,
                                            rest: seq<bool>)
    requires Follows(d, e, delta) && Sends(e, codes, data)
    ensures var r := Drain(d, Packed(LastIndex(e), codes + [EOD], delta) + rest, delta);
            r.Ok? && r.value.0.out == d.out + data && r.value.0.eod
    decreases |codes|
  {
    hide Handle, Bits, Value, Pow2, Drain, Follows, Sends, LastIndex, Packed;
    if codes == [] {
      SendsNothing(e, data);
      DrainsTheEnd(d, e, delta, rest);
      NothingAdded(codes, EOD, d.out);
      return;
    }
    var e', tail := FirstDrained(d, e, codes, data, delta);
    PackedFirst(LastIndex(e), codes, delta, rest);
    DrainCode(d, codes[0], d.codeSize, Packed(LastIndex(e'), codes[1..] + [EOD], delta) + rest, delta);
    DrainsWhatIsSent(Handle(d, codes[0], delta).value, e', codes[1..], tail, delta, rest);
  }

  lemma SendsNothing(e: Encoder, data: seq<byte>)
    requires Sends(e, [], data)
    ensures data == []
  {
  }

  lemma NothingAdded(codes: seq<nat>, code: nat, out: seq<byte>)
    requires codes == []
    ensures codes + [code] == [code] && out + [] == out
  {
  }

  lemma EndOfData(d: Decoder, delta: nat, e: Encoder)
    requires Follows(d, e, delta)
    ensures var r := Handle(d, EOD, delta); r.Ok? && r.value.eod && r.value.out == d.out
  {
  }

  // For every input, a stream of bytes that begins with the packed codes of the greedy encoder
  // decodes to that input. The rest may be padding or anything else.
  lemma StreamRoundTrip(data: seq<byte>, limit: nat, delta: nat, stream: seq<byte>, rest: seq<bool>)
    requires limit < MAX_ENTRIES && delta <= 1
    requires BitsOf(stream) == Packed(FIRST - 1, Encode(data, limit), delta) + rest
    ensures var r := Drain(START, BitsOf(stream), delta); r.Ok? && r.value.0.out == data && r.value.0.eod
  {
    var codes := [CLEAR] + Greedy(FRESH, data, limit);
    GreedySends(FRESH, data, limit);
    FollowsStart(delta);
    assert codes[1..] == Greedy(FRESH, data, limit);
    assert Sends(FRESH, codes, data);
    DrainsWhatIsSent(START, FRESH, codes, data, delta, rest);
    assert [] + data == data;
  }

  // ---------------------------------------------------------------- bytes on the way

  // Eight bits to a byte; the last byte is filled up with zeros.
  function PackBytes(bits: seq<bool>): seq<byte>
    decreases |bits|
  {
    if bits == [] then []
    else if |bits| < 8 then [PackByte(bits + seq(8 - |bits|, _ => false))]
    else [PackByte(bits[..8])] + PackBytes(bits[8..])
  }

  function PackByte(bits: seq<bool>): byte
    requires |bits| == 8
  {
    ValueBound(bits);
    Pow2Small();
    Value(bits)
  }

  lemma {:induction false} BitsValue(bits: seq<bool>)
    ensures Bits(Value(bits), |bits|) == bits
  {
    if bits != [] {
      BitsValue(bits[..|bits| - 1]);
    }
  }

  // The bits are there, and nothing but padding after them.
  lemma {:induction false} PackBytesBits(bits: seq<bool>)
    ensures bits <= BitsOf(PackBytes(bits))
    decreases |bits|
  {
    hide BitsOf, Bits, Value;
    if bits == [] {
    } else if |bits| < 8 {
      var filled := bits + seq(8 - |bits|, _ => false);
      BitsValue(filled);
      OneByte(PackByte(filled));
    } else {
      var b, rest := PackByte(bits[..8]), PackBytes(bits[8..]);
      BitsValue(bits[..8]);
      OneByte(b);
      BitsOfAppend([b], rest);
      PackBytesBits(bits[8..]);
      assert bits == bits[..8] + bits[8..];
    }
  }

  // What an encoder writes.
  function EncodeStream(data: seq<byte>, limit: nat, delta: nat): seq<byte> {
    PackBytes(Packed(FIRST - 1, Encode(data, limit), delta))
  }

  lemma StreamDecodes(data: seq<byte>, limit: nat, delta: nat, trailer: seq<byte>)
    requires limit < MAX_ENTRIES && delta <= 1
    ensures var r := Drain(START, BitsOf(EncodeStream(data, limit, delta) + trailer), delta);
            r.Ok? && r.value.0.out == data && r.value.0.eod
  {
    hide BitsOf, Drain, Packed, Encode, PackBytes;
    var bits := Packed(FIRST - 1, Encode(data, limit), delta);
    var stream := PackBytes(bits) + trailer;
    PackBytesBits(bits);
    BitsOfAppend(PackBytes(bits), trailer);
    var rest := BitsOf(stream)[|bits|..];
    assert BitsOf(stream) == bits + rest;
    StreamRoundTrip(data, limit, delta, stream, rest);
  }

  // Data that was encoded, with anything after it, and then written to the decoder in any pieces,
  // comes out of it.
  method RoundTrip(data: seq<byte>, limit: nat, earlyCodeChange: bool, trailer: seq<byte>, pieces: seq<seq<byte>>)
    returns (out: seq<byte>)
    requires limit < MAX_ENTRIES
    requires Concat(pieces) == EncodeStream(data, limit, if earlyCodeChange then 1 else 0) + trailer
    ensures out == data
  {
    var decoder := new LZWDecoder(earlyCodeChange);
    ghost var delta := decoder.codeChangeDelta;
    StreamDecodes(data, limit, delta, trailer);
    hide Drain, BitsOf, EncodeStream;
    ghost var all := Drain(START, BitsOf(Concat(pieces)), delta);
    NothingDrained(delta);
    for i := 0 to |pieces|
      invariant decoder.Valid() && fresh(decoder) && fresh(decoder.buf) && decoder.codeChangeDelta == delta
      invariant Drain(START, BitsOf(Concat(pieces[..i])), delta) == Ok((decoder.State(), decoder.pending))
    {
      PieceDrained(pieces, i, delta, decoder.State(), decoder.pending);
      var r := decoder.Write(pieces[i]);
      assert r.None?;
    }
    assert pieces[..|pieces|] == pieces;
    out := decoder.out;
  }

  lemma NothingDrained(delta: nat)
    ensures Drain(START, BitsOf(Concat([])), delta) == Ok((START, []))
  {
  }

  // What a piece adds to the pieces before it; it is no error if the whole is none.
  lemma {:induction false} PieceDrained(pieces: seq<seq<byte>>, i: nat, delta: nat, d: Decoder, pending: seq<bool>)
    requires i < |pieces| && Drain(START, BitsOf(Concat(pieces)), delta).Ok?
    requires Drain(START, BitsOf(Concat(pieces[..i])), delta) == Ok((d, pending))
    ensures var r := Drain(d, pending + BitsOf(pieces[i]), delta);
            r.Ok? && Drain(START, BitsOf(Concat(pieces[..i + 1])), delta) == r
  {
    hide Drain, BitsOf;
    var a := Concat(pieces[..i]);
    assert pieces[..i + 1][..i] == pieces[..i];
    BitsOfAppend(a, pieces[i]);
    DrainInPieces(START, BitsOf(a), BitsOf(pieces[i]), delta);
    ConcatPrefix(pieces, i + 1);
    var tail :| Concat(pieces) == Concat(pieces[..i + 1]) + tail;
    BitsOfAppend(Concat(pieces[..i + 1]), tail);
    DrainInPieces(START, BitsOf(Concat(pieces[..i + 1])), BitsOf(tail), delta);
  }

  lemma {:induction false} ConcatPrefix(pieces: seq<seq<byte>>, n: nat)
    requires n <= |pieces|
    ensures exists tail :: Concat(pieces) == Concat(pieces[..n]) + tail
    decreases |pieces|
  {
    if n == |pieces| {
      assert pieces[..n] == pieces;
      assert Concat(pieces) == Concat(pieces[..n]) + [];
    } else {
      var before, last := pieces[..|pieces| - 1], pieces[|pieces| - 1];
      ConcatPrefix(before, n);
      assert before[..n] == pieces[..n];
      var tail :| Concat(before) == Concat(before[..n]) + tail;
      assert Concat(pieces) == Concat(pieces[..n]) + (tail + last);
    }
  }
}
