/**
 * The format of section 7.4.4 of ISO 32000-1, said without a table that grows: what a code stands for
 * follows from the codes before it, and so does the number of its bits. Pl_LZWDecoder of
 * libqpdf/Pl_LZWDecoder.cc reads just this.
 */
module LZWFormat {
  import opened Wrappers
  import opened Bytes
  import opened LZWModel
  import opened LZWDecoder
  import opened LZWStream

  // ---------------------------------------------------------------- the format

  // Codes since the table was last cleared: bytes, and codes from 258 on, each of which there is once two
  // codes more than its number behind 258 have come, or one more if it is the one that completes it.
  predicate Legal(codes: seq<nat>) {
    |codes| <= 3839 && forall i :: 0 <= i < |codes| ==> codes[i] < 256 || 258 <= codes[i] <= 257 + i
  }

  // The first byte of what code i stands for.
  function First(codes: seq<nat>, i: nat): byte
    requires Legal(codes) && i < |codes|
    decreases i
  {
    if codes[i] < 256 then codes[i] else First(codes, codes[i] - 258)
  }

  // A code 258 + k stands for what code k stood for and one byte more, the first of what code k + 1 did.
  function Meaning(codes: seq<nat>, i: nat): (r: seq<byte>)
    requires Legal(codes) && i < |codes|
    ensures r != [] && r[0] == First(codes, i)
    decreases i
  {
    if codes[i] < 256 then [codes[i]]
    else
      var k := codes[i] - 258;
      Meaning(codes, k) + [First(codes, k + 1)]
  }

  // Read codes off the bits: cur are those since the last clear code. A code has 9 bits, or more from the
  // 255th, 767th and 1791st on, or one later without early change. None if there is a code that is not legal.
  function ReadBits(cur: seq<nat>, out: seq<byte>, bits: seq<bool>, delta: nat): Option<seq<byte>>
    requires Legal(cur)
    decreases |bits|
  {
    var n := |cur| + delta;
    var w := if n < 255 then 9 else if n < 767 then 10 else if n < 1791 then 11 else 12;
    if |bits| < w then Some(out)
    else
      var code, rest := Value(bits[..w]), bits[w..];
      if code == 256 then ReadBits([], out, rest, delta)
      else if code == 257 then Some(out)
      else if !Legal(cur + [code]) then None
      else ReadBits(cur + [code], out + Meaning(cur + [code], |cur|), rest, delta)
  }

  // ---------------------------------------------------------------- the decoder reads it

  function EntryAt(codes: seq<nat>, k: nat): seq<byte>
    requires Legal(codes) && k + 1 < |codes|
  {
    Meaning(codes, k) + [First(codes, k + 1)]
  }

  // The decoder has an entry for each code but the last.
  ghost predicate Has(d: Decoder, codes: seq<nat>, delta: nat)
    requires Legal(codes)
  {
    && !d.eod && Sized(d, delta)
    && d.lastCode == (if codes == [] then 256 else codes[|codes| - 1])
    && |d.table| == (if codes == [] then 0 else |codes| - 1)
    && forall k :: 0 <= k < |d.table| ==> d.table[k] == EntryAt(codes, k)
  }

  // A code more changes nothing for those before it.
  lemma {:induction false} FirstKept(codes: seq<nat>, code: nat, i: nat)
    requires Legal(codes + [code]) && i < |codes|
    ensures Legal(codes) && First(codes + [code], i) == First(codes, i)
    decreases i
  {
    LegalBefore(codes, code);
    assert (codes + [code])[i] == codes[i];
    if codes[i] >= 256 {
      FirstKept(codes, code, codes[i] - 258);
    }
  }

  lemma LegalBefore(codes: seq<nat>, code: nat)
    requires Legal(codes + [code])
    ensures Legal(codes)
  {
    var all := codes + [code];
    assert forall i :: 0 <= i < |codes| ==> codes[i] == all[i];
  }

  lemma LegalNext(codes: seq<nat>, code: nat)
    requires Legal(codes)
    ensures Legal(codes + [code]) <==> |codes| < 3839 && (code < 256 || 258 <= code <= 257 + |codes|)
  {
    var all := codes + [code];
    assert all[|codes|] == code && forall i :: 0 <= i < |codes| ==> all[i] == codes[i];
  }

  lemma {:induction false} MeaningKept(codes: seq<nat>, code: nat, i: nat)
    requires Legal(codes + [code]) && i < |codes|
    ensures Legal(codes) && Meaning(codes + [code], i) == Meaning(codes, i)
    decreases i
  {
    LegalBefore(codes, code);
    assert (codes + [code])[i] == codes[i];
    if codes[i] >= 256 {
      MeaningKept(codes, code, codes[i] - 258);
      FirstKept(codes, code, codes[i] - 257);
    }
  }

  lemma EntryKept(codes: seq<nat>, code: nat, k: nat)
    requires Legal(codes + [code]) && k + 1 < |codes|
    ensures Legal(codes) && EntryAt(codes + [code], k) == EntryAt(codes, k)
  {
    hide Legal, Meaning, First;
    MeaningKept(codes, code, k);
    FirstKept(codes, code, k + 1);
  }

  // The last code and what it stands for.
  lemma LastEntry(d: Decoder, codes: seq<nat>, delta: nat)
    requires Legal(codes) && Has(d, codes, delta) && codes != []
    ensures Entry(d.table, d.lastCode) == Ok(Meaning(codes, |codes| - 1))
    ensures FirstChar(d.table, d.lastCode) == Ok(First(codes, |codes| - 1))
  {
    hide Sized;
    var c := codes[|codes| - 1];
    if c >= 256 {
      assert d.table[c - 258] == EntryAt(codes, c - 258);
    }
  }

  // The first byte of a code that goes on from here, and what it stands for.
  lemma NextFirst(d: Decoder, codes: seq<nat>, code: nat, delta: nat)
    requires Legal(codes) && Has(d, codes, delta) && codes != [] && Legal(codes + [code])
    ensures code < 256 ==> First(codes + [code], |codes|) == code
    ensures code >= 258 && code - 258 == |d.table| ==>
              First(codes + [code], |codes|) == First(codes, |codes| - 1)
    ensures 258 <= code < 258 + |d.table| ==>
              FirstChar(d.table, code) == Ok(First(codes + [code], |codes|))
  {
    LegalNext(codes, code);
    assert (codes + [code])[|codes|] == code;
    if code >= 256 {
      FirstKept(codes, code, code - 258);
      FirstGoes(codes, code);
      hide First, Legal, Sized;
      if code - 258 < |d.table| {
        EntryFirst(d.table[code - 258], codes, code - 258);
      }
    }
  }

  lemma FirstGoes(codes: seq<nat>, code: nat)
    requires Legal(codes + [code]) && code >= 256
    ensures 0 <= code - 258 < |codes| && First(codes + [code], |codes|) == First(codes + [code], code - 258)
  {
    LegalBefore(codes, code);
    LegalNext(codes, code);
    assert (codes + [code])[|codes|] == code;
  }

  lemma EntryFirst(entry: seq<byte>, codes: seq<nat>, k: nat)
    requires Legal(codes) && k + 1 < |codes| && entry == EntryAt(codes, k)
    ensures entry != [] && entry[0] == First(codes, k)
  {
    hide First, Legal;
  }

  lemma Extended(d: Decoder, codes: seq<nat>, code: nat, delta: nat)
    requires Legal(codes) && Has(d, codes, delta) && codes != [] && code != 256 && code != 257
    ensures var e := Extend(d, code, delta);
            if Legal(codes + [code]) then
              e.Ok? && e.value.table == d.table + [EntryAt(codes + [code], |codes| - 1)]
              && e.value.out == d.out && e.value.eod == d.eod
            else e.Err?
    ensures !d.eod
  {
    LegalNext(codes, code);
    LastEntry(d, codes, delta);
    hide FirstChar, Entry, Grown, Sized, First, Meaning, Legal;
    if code < 258 + |codes| {
      if |codes| < 3839 {
        NextFirst(d, codes, code, delta);
        MeaningKept(codes, code, |codes| - 1);
      } else {
        TooMany(d, codes, code, delta);
      }
    }
  }

  lemma TooMany(d: Decoder, codes: seq<nat>, code: nat, delta: nat)
    requires Legal(codes) && Has(d, codes, delta) && |codes| == 3839
    ensures FIRST + |d.table| == 4096
  {
    hide Legal, Sized;
  }

  // One code.
  lemma HandleLegal(d: Decoder, codes: seq<nat>, code: nat, delta: nat)
    requires Legal(codes) && Has(d, codes, delta) && code != 256 && code != 257
    ensures var r := Handle(d, code, delta);
            if Legal(codes + [code]) then
              r.Ok? && Has(r.value, codes + [code], delta) && r.value.out == d.out + Meaning(codes + [code], |codes|)
            else r.Err?
  {
    hide Legal, Has, Meaning, Handle;
    if codes == [] {
      assert codes + [code] == [code];
      FirstCode(d, code, delta);
    } else {
      Extended(d, codes, code, delta);
      if Legal(codes + [code]) {
        TableNext(d, codes, code, delta);
        CodeBounds(codes, code);
        HandleAdds(d, codes, code, delta);
      } else {
        HandleFails(d, code, delta);
      }
    }
  }

  lemma CodeBounds(codes: seq<nat>, code: nat)
    requires Legal(codes + [code])
    ensures (codes + [code])[|codes|] == code && (code < 256 || 258 <= code <= 257 + |codes|)
    ensures code < 256 ==> Meaning(codes + [code], |codes|) == [code]
  {
    assert (codes + [code])[|codes|] == code;
  }

  lemma HandleFails(d: Decoder, code: nat, delta: nat)
    requires code != 256 && code != 257 && !d.eod && Extend(d, code, delta).Err?
    ensures Handle(d, code, delta).Err?
  {
    hide Extend;
  }

  lemma HandleAdds(d: Decoder, codes: seq<nat>, code: nat, delta: nat)
    requires Legal(codes) && Has(d, codes, delta) && codes != [] && Legal(codes + [code])
    requires var all, e := codes + [code], Extend(d, code, delta); var t := d.table + [EntryAt(all, |codes| - 1)];
             && e.Ok? && e.value.table == t && e.value.out == d.out && e.value.eod == d.eod
             && |t| == |codes| && (forall k :: 0 <= k < |t| ==> t[k] == EntryAt(all, k))
             && (code >= 258 ==> code - 258 < |t| && t[code - 258] == Meaning(all, |codes|))
    requires (codes + [code])[|codes|] == code && (code < 256 || 258 <= code <= 257 + |codes|)
    requires code < 256 ==> Meaning(codes + [code], |codes|) == [code]
    ensures var r := Handle(d, code, delta);
            r.Ok? && Has(r.value, codes + [code], delta) && r.value.out == d.out + Meaning(codes + [code], |codes|)
  {
    hide Extend, Meaning, First, Legal, Sized, EntryAt;
    SizedStep(d, code, delta);
  }

  lemma FirstCode(d: Decoder, code: nat, delta: nat)
    requires Has(d, [], delta) && code != 256 && code != 257
    ensures var r := Handle(d, code, delta);
            if Legal([code]) then r.Ok? && Has(r.value, [code], delta) && r.value.out == d.out + Meaning([code], 0)
            else r.Err?
  {
  }

  lemma TableNext(d: Decoder, codes: seq<nat>, code: nat, delta: nat)
    requires Legal(codes) && Has(d, codes, delta) && codes != [] && Legal(codes + [code])
    ensures var all := codes + [code]; var t := d.table + [EntryAt(all, |codes| - 1)];
            && |t| == |codes| && (forall k :: 0 <= k < |t| ==> t[k] == EntryAt(all, k))
            && (code >= 258 ==> code - 258 < |t| && t[code - 258] == Meaning(all, |codes|))
  {
    hide Sized, First, Meaning;
    LegalNext(codes, code);
    var all := codes + [code];
    var t := d.table + [EntryAt(all, |codes| - 1)];
    forall k | 0 <= k < |t|
      ensures t[k] == EntryAt(all, k)
    {
      if k < |d.table| {
        EntryKept(codes, code, k);
      }
    }
    if code >= 258 {
      MeaningIs(all, |codes|);
    }
  }

  lemma MeaningIs(codes: seq<nat>, i: nat)
    requires Legal(codes) && i < |codes| && codes[i] >= 256
    ensures codes[i] - 257 <= i && Meaning(codes, i) == EntryAt(codes, codes[i] - 258)
  {
  }

  // A decoder with the codes so far reads the rest as the format says.
  lemma {:induction false} DrainReads(d: Decoder, cur: seq<nat>, bits: seq<bool>, delta: nat)
    requires Legal(cur) && Has(d, cur, delta)
    ensures var r, x := Drain(d, bits, delta), ReadBits(cur, d.out, bits, delta);
            (r.Ok? <==> x.Some?) && (r.Ok? ==> r.value.0.out == x.value)
    decreases |bits|
  {
    hide Legal, Meaning, Handle, Value, Has;
    WidthIs(d, cur, delta);
    var w := d.codeSize;
    if |bits| >= w {
      var code, rest := Value(bits[..w]), bits[w..];
      if code == 256 {
        Cleared(d, cur, delta);
        DrainReads(Handle(d, code, delta).value, [], rest, delta);
      } else if code == 257 {
        EndReached(d, cur, delta);
        DrainDone(Handle(d, code, delta).value, rest, delta);
      } else {
        HandleLegal(d, cur, code, delta);
        if Legal(cur + [code]) {
          DrainReads(Handle(d, code, delta).value, cur + [code], rest, delta);
        }
      }
    }
  }

  // The number of bits of the next code, by the number of codes since the last clear code.
  lemma WidthIs(d: Decoder, cur: seq<nat>, delta: nat)
    requires Legal(cur) && Has(d, cur, delta)
    ensures var n := |cur| + delta;
            d.codeSize == if n < 255 then 9 else if n < 767 then 10 else if n < 1791 then 11 else 12
  {
    hide Legal;
  }

  lemma Cleared(d: Decoder, cur: seq<nat>, delta: nat)
    requires Legal(cur) && Has(d, cur, delta)
    ensures var r := Handle(d, 256, delta); r.Ok? && Legal([]) && Has(r.value, [], delta) && r.value.out == d.out
  {
  }

  lemma EndReached(d: Decoder, cur: seq<nat>, delta: nat)
    requires Legal(cur) && Has(d, cur, delta)
    ensures var r := Handle(d, 257, delta); r.Ok? && r.value.eod && r.value.out == d.out
  {
  }

  lemma {:induction false} DrainDone(d: Decoder, bits: seq<bool>, delta: nat)
    requires d.eod
    ensures var r := Drain(d, bits, delta); r.Ok? && r.value.0.out == d.out
    decreases |bits|
  {
    if d.codeSize != 0 && |bits| >= d.codeSize {
      DrainDone(d, bits[d.codeSize..], delta);
    }
  }

  // ---------------------------------------------------------------- the class

  // Bytes written in any pieces, up to the first error. It fails exactly if they are not of the format,
  // and else has decoded what they stand for.
  method DecodeAll(pieces: seq<seq<byte>>, earlyCodeChange: bool) returns (r: Option<Error>, out: seq<byte>)
    ensures var x := ReadBits([], [], BitsOf(Concat(pieces)), if earlyCodeChange then 1 else 0);
            (r.None? <==> x.Some?) && (r.None? ==> out == x.value)
  {
    var decoder := new LZWDecoder(earlyCodeChange);
    ghost var delta := decoder.codeChangeDelta;
    DrainReads(START, [], BitsOf(Concat(pieces)), delta);
    hide Drain, BitsOf, ReadBits;
    NothingDrained(delta);
    r, out := None, [];
    for i := 0 to |pieces|
      invariant r == None && decoder.Valid() && fresh(decoder) && fresh(decoder.buf)
      invariant decoder.codeChangeDelta == delta
      invariant Drain(START, BitsOf(Concat(pieces[..i])), delta) == Ok((decoder.State(), decoder.pending))
    {
      PieceOrError(pieces, i, delta, decoder.State(), decoder.pending);
      r := decoder.Write(pieces[i]);
      if r.Some? {
        return;
      }
    }
    assert pieces[..|pieces|] == pieces;
    out := decoder.out;
  }

  // A piece more, which may end in an error; then the whole does.
  lemma {:induction false} PieceOrError(pieces: seq<seq<byte>>, i: nat, delta: nat, d: Decoder, pending: seq<bool>)
    requires i < |pieces| && Drain(START, BitsOf(Concat(pieces[..i])), delta) == Ok((d, pending))
    ensures var r := Drain(d, pending + BitsOf(pieces[i]), delta);
            && Drain(START, BitsOf(Concat(pieces[..i + 1])), delta) == r
            && (r.Err? ==> Drain(START, BitsOf(Concat(pieces)), delta).Err?)
  {
    hide Drain, BitsOf;
    var a := Concat(pieces[..i]);
    assert pieces[..i + 1][..i] == pieces[..i];
    BitsOfAppend(a, pieces[i]);
    DrainInPieces(START, BitsOf(a), BitsOf(pieces[i]), delta);
    ConcatPrefix(pieces, i + 1);
    var tail :| Concat(pieces) == Concat(pieces[..i + 1]) + tail;
    BitsOfAppend(Concat(pieces[..i + 1]), tail);
    DrainInPieces(START, BitsOf(Concat(pieces[..i + 1])), BitsOf(tail), delta);
  }
}
