/**
 * Pl_LZWDecoder of libqpdf/Pl_LZWDecoder.cc: bytes arrive in pieces of any size, a ring of three
 * bytes holds what is left of them, and every code is handled as soon as its bits are there.
 */
module LZWDecoder {
  import opened Wrappers
  import opened Bytes
  import opened LZWModel

  // Cut codes off the front of the bits while there are enough of them, most significant bit first.
  function Drain(d: Decoder, bits: seq<bool>, delta: nat): Result<(Decoder, seq<bool>), Error>
    decreases |bits|
  {
    if d.codeSize == 0 || |bits| < d.codeSize then Ok((d, bits))
    else
      var r := Handle(d, Value(bits[..d.codeSize]), delta);
      if r.Err? then Err(r.error) else Drain(r.value, bits[d.codeSize..], delta)
  }

  // In pieces or at once is the same.
  lemma {:induction false} DrainInPieces(d: Decoder, a: seq<bool>, b: seq<bool>, delta: nat)
    ensures var r := Drain(d, a, delta);
            Drain(d, a + b, delta) == if r.Err? then r else Drain(r.value.0, r.value.1 + b, delta)
    decreases |a|
  {
    if d.codeSize == 0 || |a| < d.codeSize {
    } else {
      var n := d.codeSize;
      assert (a + b)[..n] == a[..n] && (a + b)[n..] == a[n..] + b;
      var r := Handle(d, Value(a[..n]), delta);
      if r.Ok? {
        DrainInPieces(r.value, a[n..], b, delta);
      }
    }
  }

  // The code size is a function of the number of entries.
  function SizeFor(entries: nat, delta: nat): nat {
    CodeSize(FIRST + entries, delta)
  }

  ghost predicate Sized(d: Decoder, delta: nat) {
    delta <= 1 && d.codeSize == SizeFor(|d.table|, delta)
  }

  lemma SizedStep(d: Decoder, code: nat, delta: nat)
    requires Sized(d, delta) && Handle(d, code, delta).Ok?
    ensures Sized(Handle(d, code, delta).value, delta)
  {
  }

  function TurnedSeq(s: seq<byte>, p: nat): (r: seq<byte>)
    requires |s| == 3
    ensures |r| == 3
  {
    [s[Wrap(p)], s[Wrap(p + 1)], s[Wrap(p + 2)]]
  }

  function Wrap(p: nat): (r: nat)
    ensures r < 3
  {
    p % 3
  }

  lemma WrapNext(p: nat)
    ensures Wrap(p + 1) == if Wrap(p) + 1 == 3 then 0 else Wrap(p) + 1
  {
  }

  class LZWDecoder {
    const buf: array<byte>
    var codeSize: nat
    var nextChar: nat
    var bytePos: nat
    var bitPos: nat
    var bitsAvailable: nat
    const codeChangeDelta: nat
    var eod: bool
    var table: Table
    var lastCode: nat
    // What has been written to the next stage.
    var out: seq<byte>
    // The bits that have come in and are not part of a code yet.
    ghost var pending: seq<bool>
    // The number of bytes of the ring they are in.
    ghost var held: nat

    constructor (earlyCodeChange: bool)
      ensures Valid() && State() == START && pending == [] && fresh(buf)
      ensures codeChangeDelta == if earlyCodeChange then 1 else 0
    {
      buf := new byte[3](_ => 0);
      codeSize, nextChar, bytePos, bitPos, bitsAvailable := 9, 0, 0, 0, 0;
      codeChangeDelta := if earlyCodeChange then 1 else 0;
      eod, table, lastCode, out, pending, held := false, [], CLEAR, [], [], 0;
    }

    ghost function State(): Decoder
      reads this
    {
      Decoder(table, lastCode, codeSize, eod, out)
    }

    // The ring from the next byte to read on, around its end.
    ghost function Turned(): seq<byte>
      reads this, buf
      requires buf.Length == 3 && bytePos < 3
    {
      TurnedSeq(buf[..], bytePos)
    }

    ghost predicate Ring()
      reads this, buf
    {
      && buf.Length == 3 && bytePos < 3 && bitPos < 8
      && bitPos + bitsAvailable == 8 * held && held <= 3
      && nextChar == Wrap(bytePos + held)
      && pending == BitsOf(Turned()[..held])[bitPos..]
    }

    ghost predicate Valid()
      reads this, buf
    {
      Ring() && Sized(State(), codeChangeDelta) && bitsAvailable < codeSize
    }

    method Write(data: seq<byte>) returns (r: Option<Error>)
      requires Valid()
      modifies this, buf
      ensures var s := Drain(old(State()), old(pending) + BitsOf(data), codeChangeDelta);
              if s.Err? then r == Some(s.error)
              else r == None && Valid() && (State(), pending) == s.value
    {
      ghost var all := Drain(State(), pending + BitsOf(data), codeChangeDelta);
      assert data[0..] == data;
      for i := 0 to |data|
        invariant Valid()
        invariant all == Drain(State(), pending + BitsOf(data[i..]), codeChangeDelta)
      {
        assert data[i..] == [data[i]] + data[i + 1..];
        BitsOfAppend([data[i]], data[i + 1..]);
        OneByte(data[i]);
        r := WriteByte(data[i], BitsOf(data[i + 1..]));
        if r.Some? {
          return;
        }
      }
      assert data[|data|..] == [];
      assert pending + [] == pending;
      r := None;
    }

    // The body of the loop of write; rest is what comes after the byte.
    method WriteByte(b: byte, ghost rest: seq<bool>) returns (r: Option<Error>)
      requires Valid()
      modifies this, buf
      ensures var s := Drain(old(State()), old(pending) + (Bits(b, 8) + rest), codeChangeDelta);
              if r.Some? then s == Err(r.value)
              else Valid() && s == Drain(State(), pending + rest, codeChangeDelta)
    {
      hide Handle, Bits, Value, BitsOf, TurnedSeq;
      assert pending + (Bits(b, 8) + rest) == (pending + Bits(b, 8)) + rest;
      TakeIn(b);
      r := None;
      if bitsAvailable >= codeSize {
        ghost var n := codeSize;
        assert (pending + rest)[..n] == pending[..n] && (pending + rest)[n..] == pending[n..] + rest;
        r := SendNextCode();
      }
    }

    // A byte goes into the ring, where there is room for it.
    method TakeIn(b: byte)
      requires Valid()
      modifies this`nextChar, this`bitsAvailable, this`pending, this`held, buf
      ensures Ring() && bitsAvailable == old(bitsAvailable) + 8
      ensures pending == old(pending) + Bits(b, 8)
    {
      hide Bits, BitsOf, Value, TurnedSeq;
      PutIn(buf[..], bytePos, held, b);
      Taken(TurnedSeq(buf[..], bytePos)[..held], bitPos, b);
      WrapNext(bytePos + held);
      hide Wrap;
      ghost var before := buf[..];
      buf[nextChar] := b;
      assert buf[..] == before[Wrap(bytePos + held) := b];
      nextChar := nextChar + 1;
      if nextChar == 3 {
        nextChar := 0;
      }
      bitsAvailable := bitsAvailable + 8;
      pending := pending + Bits(b, 8);
      held := held + 1;
    }

    method SendNextCode() returns (r: Option<Error>)
      requires Ring() && Sized(State(), codeChangeDelta) && codeSize <= bitsAvailable < codeSize + 8
      modifies this
      ensures var h := Handle(old(State()), Value(old(pending)[..old(codeSize)]), codeChangeDelta);
              if h.Err? then r == Some(h.error)
              else r == None && Valid() && State() == h.value && pending == old(pending)[old(codeSize)..]
    {
      var code := NextCode();
      SizedBoth(State(), code, codeChangeDelta);
      r := HandleCode(code);
    }

    // The arithmetic of sendNextCode. Masking with 2^n - 1 is taking the remainder; masking off the
    // low bits before shifting them out does nothing.
    method NextCode() returns (code: nat)
      requires Ring() && 9 <= codeSize <= 12 && codeSize <= bitsAvailable < codeSize + 8
      modifies this`bytePos, this`bitPos, this`bitsAvailable, this`pending, this`held
      ensures code == Value(old(pending)[..codeSize])
      ensures Ring() && pending == old(pending)[codeSize..] && bitsAvailable == old(bitsAvailable) - codeSize
    {
      hide Bits, BitsOf, Value, Pow2;
      var high := bytePos;
      var med := (bytePos + 1) % 3;
      var low := (bytePos + 2) % 3;
      var bitsFromHigh := 8 - bitPos;
      var bitsFromMed := codeSize - bitsFromHigh;
      var bitsFromLow := 0;
      if bitsFromMed > 8 {
        bitsFromLow := bitsFromMed - 8;
        bitsFromMed := 8;
      }
      assert Turned() == [buf[high], buf[med], buf[low]];
      hide TurnedSeq, Wrap;
      CutCode(Turned(), held, bitPos, codeSize);
      code := (buf[high] % Pow2(bitsFromHigh)) * Pow2(bitsFromMed);
      code := code + buf[med] / Pow2(8 - bitsFromMed);
      if bitsFromLow > 0 {
        code := code * Pow2(bitsFromLow);
        code := code + buf[low] / Pow2(8 - bitsFromLow);
      }
      Advance(if bitsFromLow > 0 then low else med, if bitsFromLow > 0 then bitsFromLow else bitsFromMed);
    }

    method Advance(lastByte: nat, bitsFromLast: nat)
      requires Ring() && 9 <= codeSize <= 12 && codeSize <= bitsAvailable < codeSize + 8
      requires var end := bitPos + codeSize;
               if end > 16 then lastByte == (bytePos + 2) % 3 && bitsFromLast == end - 16
               else lastByte == (bytePos + 1) % 3 && bitsFromLast == end - 8
      modifies this`bytePos, this`bitPos, this`bitsAvailable, this`pending, this`held
      ensures Ring() && pending == old(pending)[codeSize..] && bitsAvailable == old(bitsAvailable) - codeSize
    {
      hide Bits, BitsOf, Value, TurnedSeq, Wrap;
      ghost var used := (bitPos + codeSize) / 8;
      CutRest(Turned(), held, bitPos, codeSize);
      TurnOn(buf[..], bytePos, used, held);
      Positions(bytePos, lastByte, bitsFromLast, bitPos + codeSize, held);
      pending := pending[codeSize..];
      bitPos := bitsFromLast;
      bytePos := lastByte;
      if bitPos == 8 {
        bitPos := 0;
        bytePos := (bytePos + 1) % 3;
      }
      bitsAvailable := bitsAvailable - codeSize;
      held := held - used;
    }

    method HandleCode(code: nat) returns (r: Option<Error>)
      modifies this`eod, this`table, this`codeSize, this`lastCode, this`out
      ensures var h := Handle(old(State()), code, codeChangeDelta);
              if h.Err? then r == Some(h.error) else r == None && State() == h.value
    {
      r := None;
      if eod {
        return;
      }
      if code == 256 {
        table := [];
        codeSize := 9;
      } else if code == 257 {
        eod := true;
      } else {
        if lastCode != 256 {
          var next: Result<byte, Error>;
          if code < 256 {
            next := Ok(code);
          } else {
            var idx := code - 258;
            if idx > |table| {
              return Some(BadCode);
            } else if idx == |table| {
              next := FirstChar(table, lastCode);
            } else {
              next := FirstChar(table, code);
            }
          }
          if next.Err? {
            return Some(next.error);
          }
          var newIdx := 258 + |table|;
          if newIdx == 4096 {
            return Some(TableFull);
          }
          r := AddToTable(next.value);
          if r.Some? {
            return;
          }
          var changeIdx := newIdx + codeChangeDelta;
          if changeIdx == 511 || changeIdx == 1023 || changeIdx == 2047 {
            codeSize := codeSize + 1;
          }
        }
        if code < 256 {
          out := out + [code];
        } else {
          var idx := code - 258;
          if idx >= |table| {
            return Some(TableOverflow);
          }
          out := out + table[idx];
        }
      }
      lastCode := code;
    }

    method AddToTable(c: byte) returns (r: Option<Error>)
      modifies this`table
      ensures var last := Entry(old(table), lastCode);
              if last.Err? then r == Some(last.error) && table == old(table)
              else r == None && table == old(table) + [last.value + [c]]
    {
      var lastData: seq<byte>;
      if lastCode < 256 {
        lastData := [lastCode];
      } else {
        if lastCode <= 257 {
          return Some(InvalidCode);
        }
        var idx := lastCode - 258;
        if idx >= |table| {
          return Some(TableOverflow);
        }
        lastData := table[idx];
      }
      table := table + [lastData + [c]];
      r := None;
    }
  }

  lemma PutIn(s: seq<byte>, p: nat, k: nat, b: byte)
    requires |s| == 3 && p < 3 && k < 3
    ensures TurnedSeq(s[Wrap(p + k) := b], p)[..k + 1] == TurnedSeq(s, p)[..k] + [b]
  {
  }

  lemma Taken(s: seq<byte>, bitPos: nat, b: byte)
    requires bitPos <= 8 * |s|
    ensures BitsOf(s + [b])[bitPos..] == BitsOf(s)[bitPos..] + Bits(b, 8)
  {
    hide Bits, BitsOf;
    BitsOfAppend(s, [b]);
    OneByte(b);
    DropSum(BitsOf(s), Bits(b, 8), bitPos);
  }

  lemma DropSum<T>(a: seq<T>, b: seq<T>, i: nat)
    requires i <= |a|
    ensures (a + b)[i..] == a[i..] + b
  {
  }

  // Turning on by the bytes used up keeps the others in their order.
  lemma TurnOn(s: seq<byte>, p: nat, used: nat, k: nat)
    requires |s| == 3 && p < 3 && used <= k <= 3
    ensures TurnedSeq(s, Wrap(p + used))[..k - used] == TurnedSeq(s, p)[used..k]
  {
    var t, u := TurnedSeq(s, Wrap(p + used)), TurnedSeq(s, p);
    forall i | 0 <= i < k - used
      ensures t[i] == u[used + i]
    {
      assert Wrap(Wrap(p + used) + i) == Wrap(p + used + i);
      assert t[i] == s[Wrap(Wrap(p + used) + i)];
      assert u[used + i] == s[Wrap(p + used + i)];
    }
  }

  // Where the next byte and bit to read are, and how many bytes are left.
  lemma Positions(p: nat, lastByte: nat, fromLast: nat, end: nat, held: nat)
    requires p < 3 && 9 <= end <= 19 && end <= 8 * held < end + 8 && held <= 3
    requires if end > 16 then lastByte == (p + 2) % 3 && fromLast == end - 16
             else lastByte == (p + 1) % 3 && fromLast == end - 8
    ensures var used, at := end / 8, Wrap(p + end / 8);
            && used <= held && 8 * held - end + end % 8 == 8 * (held - used)
            && at == (if fromLast == 8 then (lastByte + 1) % 3 else lastByte)
            && end % 8 == (if fromLast == 8 then 0 else fromLast)
            && Wrap(at + (held - used)) == Wrap(p + held)
  {
    assert end == 8 * (end / 8) + end % 8;
  }

  lemma OneByte(b: byte)
    ensures BitsOf([b]) == Bits(b, 8)
  {
    assert BitsOf([b]) == BitsOf([]) + Bits(b, 8);
  }

  lemma SizedBoth(d: Decoder, code: nat, delta: nat)
    requires Sized(d, delta)
    ensures Handle(d, code, delta).Ok? ==> Sized(Handle(d, code, delta).value, delta)
  {
    if Handle(d, code, delta).Ok? {
      SizedStep(d, code, delta);
    }
  }

  lemma ThreeBytes(b: seq<byte>)
    requires |b| == 3
    ensures BitsOf(b[..2]) == Bits(b[0], 8) + Bits(b[1], 8)
    ensures BitsOf(b[..3]) == Bits(b[0], 8) + Bits(b[1], 8) + Bits(b[2], 8)
    ensures BitsOf(b[1..3]) == Bits(b[1], 8) + Bits(b[2], 8)
  {
    assert b[..2] == [b[0]] + [b[1]] && b[..3] == b[..2] + [b[2]] && b[1..3] == [b[1]] + [b[2]];
    BitsOfAppend([b[0]], [b[1]]);
    BitsOfAppend(b[..2], [b[2]]);
    BitsOfAppend([b[1]], [b[2]]);
    OneByte(b[0]);
    OneByte(b[1]);
    OneByte(b[2]);
  }

  // The masks and shifts of sendNextCode take the first n of the unread bits.
  lemma CutCode(b: seq<byte>, k: nat, bitPos: nat, n: nat)
    requires |b| == 3 && k <= 3 && bitPos < 8 && 9 <= n <= 12 && bitPos + n <= 8 * k < bitPos + n + 8
    ensures var fromHigh := 8 - bitPos;
            var fromMed := if n - fromHigh > 8 then 8 else n - fromHigh;
            var fromLow := n - fromHigh - fromMed;
            var code := (b[0] % Pow2(fromHigh)) * Pow2(fromMed) + b[1] / Pow2(8 - fromMed);
            Value(BitsOf(b[..k])[bitPos..][..n]) ==
            if fromLow > 0 then code * Pow2(fromLow) + b[2] / Pow2(8 - fromLow) else code
  {
    hide Bits, BitsOf, Value, Pow2;
    if k == 2 {
      CutCode2(b, bitPos, n);
    } else {
      CutCode3(b, bitPos, n);
    }
  }

  lemma CutCode2(b: seq<byte>, bitPos: nat, n: nat)
    requires |b| == 3 && bitPos < 8 && 9 <= n <= 12 && bitPos + n <= 16 < bitPos + n + 8
    ensures Value(BitsOf(b[..2])[bitPos..][..n]) ==
            (b[0] % Pow2(8 - bitPos)) * Pow2(n - (8 - bitPos)) + b[1] / Pow2(16 - bitPos - n)
  {
    hide Bits, BitsOf, Value, Pow2;
    ThreeBytes(b);
    Slices(Bits(b[0], 8), Bits(b[1], 8), Bits(b[2], 8), bitPos, n);
    CodeValue(b[0], b[1], b[2], 8 - bitPos, n - (8 - bitPos), 0);
  }

  lemma CutCode3(b: seq<byte>, bitPos: nat, n: nat)
    requires |b| == 3 && bitPos < 8 && 9 <= n <= 12 && 16 < bitPos + n
    ensures Value(BitsOf(b[..3])[bitPos..][..n]) ==
            ((b[0] % Pow2(8 - bitPos)) * Pow2(8) + b[1] / Pow2(0)) * Pow2(bitPos + n - 16) +
                b[2] / Pow2(24 - bitPos - n)
  {
    hide Bits, BitsOf, Value, Pow2;
    ThreeBytes(b);
    Slices(Bits(b[0], 8), Bits(b[1], 8), Bits(b[2], 8), bitPos, n);
    CodeValue(b[0], b[1], b[2], 8 - bitPos, 8, bitPos + n - 16);
  }

  // What they leave unread begins with the next byte not used up.
  lemma CutRest(b: seq<byte>, k: nat, bitPos: nat, n: nat)
    requires |b| == 3 && k <= 3 && bitPos < 8 && 9 <= n <= 12 && bitPos + n <= 8 * k < bitPos + n + 8
    ensures var used := (bitPos + n) / 8;
            used <= k && BitsOf(b[..k])[bitPos..][n..] == BitsOf(b[used..k])[(bitPos + n) % 8..]
  {
    if k == 2 {
      Remainder2(b, bitPos, n);
    } else {
      Remainder3(b, bitPos, n);
    }
  }

  lemma Slices(b0: seq<bool>, b1: seq<bool>, b2: seq<bool>, bitPos: nat, n: nat)
    requires |b0| == |b1| == |b2| == 8 && bitPos < 8 && 9 <= n <= 12
    ensures bitPos + n <= 16 ==> (b0 + b1)[bitPos..][..n] == b0[bitPos..] + b1[..n - (8 - bitPos)]
    ensures bitPos + n <= 16 ==> (b0 + b1 + b2)[bitPos..][..n] == b0[bitPos..] + b1[..n - (8 - bitPos)]
    ensures bitPos + n > 16 ==> (b0 + b1 + b2)[bitPos..][..n] == b0[bitPos..] + b1[..8] + b2[..n - (8 - bitPos) - 8]
  {
  }

  lemma Remainder2(b: seq<byte>, bitPos: nat, n: nat)
    requires |b| == 3 && bitPos < 8 && 9 <= n <= 12 && bitPos + n <= 16 < bitPos + n + 8
    ensures var used := (bitPos + n) / 8;
            used <= 2 && BitsOf(b[..2])[bitPos..][n..] == BitsOf(b[used..2])[(bitPos + n) % 8..]
  {
    ThreeBytes(b);
    OneByte(b[1]);
    assert b[1..2] == [b[1]] && b[2..2] == [];
  }

  lemma Remainder3(b: seq<byte>, bitPos: nat, n: nat)
    requires |b| == 3 && bitPos < 8 && 9 <= n <= 12 && bitPos + n <= 24 < bitPos + n + 8
    ensures var used := (bitPos + n) / 8;
            used <= 3 && BitsOf(b[..3])[bitPos..][n..] == BitsOf(b[used..3])[(bitPos + n) % 8..]
  {
    ThreeBytes(b);
    OneByte(b[2]);
    assert b[2..3] == [b[2]] && b[3..3] == [];
  }

  lemma CodeValue(h: byte, m: byte, l: byte, fromHigh: nat, fromMed: nat, fromLow: nat)
    requires fromHigh <= 8 && fromMed <= 8 && fromLow <= 8
    ensures var code := (h % Pow2(fromHigh)) * Pow2(fromMed) + m / Pow2(8 - fromMed);
            && Value(Bits(h, 8)[8 - fromHigh..] + Bits(m, 8)[..fromMed]) == code
            && Value(Bits(h, 8)[8 - fromHigh..] + Bits(m, 8)[..fromMed] + Bits(l, 8)[..fromLow]) ==
               code * Pow2(fromLow) + l / Pow2(8 - fromLow)
  {
    LowBits(h, fromHigh);
    HighBits(m, fromMed);
    HighBits(l, fromLow);
    ValueAppend(Bits(h, 8)[8 - fromHigh..], Bits(m, 8)[..fromMed]);
    ValueAppend(Bits(h, 8)[8 - fromHigh..] + Bits(m, 8)[..fromMed], Bits(l, 8)[..fromLow]);
  }

  lemma LowBits(b: byte, n: nat)
    requires n <= 8
    ensures Value(Bits(b, 8)[8 - n..]) == b % Pow2(n)
  {
    BitsSuffix(b, 8, n);
    ValueBits(b % Pow2(n), n);
  }

  lemma HighBits(b: byte, n: nat)
    requires n <= 8
    ensures Value(Bits(b, 8)[..n]) == b / Pow2(8 - n)
  {
    BitsPrefix(b, 8, n);
    Pow2Small();
    Pow2Add(8 - n, n);
    QuotientBound(b, Pow2(8 - n), Pow2(n));
    ValueBits(b / Pow2(8 - n), n);
  }

  lemma QuotientBound(v: nat, a: nat, b: nat)
    requires a > 0 && v < a * b
    ensures v / a < b
  {
    if v / a >= b {
      MulMono(a, b, v / a);
    }
  }
}
