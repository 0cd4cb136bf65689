/**
 * Chaining of a block cipher and padding, section 7.6.2 of ISO 32000-1, as functions on whole
 * streams. The cipher is any pair of inverse functions on blocks of 16 bytes.
 */
module AESModel {
  import opened Bytes

  const BLOCK := 16

  type Stream = seq<byte>

  // A whole number of blocks.
  predicate Blocked(s: Stream) {
    |s| % BLOCK == 0
  }

  lemma BlockedSum(a: Stream, b: Stream)
    requires Blocked(a) && Blocked(b)
    ensures Blocked(a + b)
  {
  }

  lemma OneBlock(b: Stream)
    requires |b| == BLOCK || |b| == 0
    ensures Blocked(b)
  {
  }

  // The blocks that are full.
  function FullBlocks(s: Stream): (r: Stream)
    ensures Blocked(r) && r <= s && |s| < |r| + BLOCK
  {
    s[..|s| - |s| % BLOCK]
  }

  // ---------------------------------------------------------------- exclusive or

  function XorBits(a: nat, b: nat, n: nat): (r: nat)
    ensures r < Pow2(n)
  {
    if n == 0 then 0 else 2 * XorBits(a / 2, b / 2, n - 1) + if a % 2 == b % 2 then 0 else 1
  }

  // Bit by bit: one where the bits differ.
  lemma {:induction false} XorBitsDiffer(a: nat, b: nat, n: nat, i: nat)
    requires i < n
    ensures Bits(XorBits(a, b, n), n)[i] == (Bits(a, n)[i] != Bits(b, n)[i])
  {
    if i < n - 1 {
      XorBitsDiffer(a / 2, b / 2, n - 1, i);
    }
  }

  lemma XorDiffers(a: byte, b: byte, i: nat)
    requires i < 8
    ensures Bits(Xor(a, b), 8)[i] == (Bits(a, 8)[i] != Bits(b, 8)[i])
  {
    XorBitsDiffer(a, b, 8, i);
  }

  lemma {:induction false} XorBitsTwice(a: nat, b: nat, n: nat)
    requires a < Pow2(n)
    ensures XorBits(XorBits(a, b, n), b, n) == a
  {
    if n > 0 {
      XorBitsTwice(a / 2, b / 2, n - 1);
    }
  }

  function Xor(a: byte, b: byte): byte {
    Pow2Small();
    XorBits(a, b, 8)
  }

  lemma XorTwice(a: byte, b: byte)
    ensures Xor(Xor(a, b), b) == a
  {
    Pow2Small();
    XorBitsTwice(a, b, 8);
  }

  function XorAll(a: Stream, b: Stream): (r: Stream)
    requires |a| == |b|
    ensures |r| == |a|
  {
    seq(|a|, i requires 0 <= i < |a| => Xor(a[i], b[i]))
  }

  lemma XorAllTwice(a: Stream, b: Stream)
    requires |a| == |b|
    ensures XorAll(XorAll(a, b), b) == a
  {
    forall i | 0 <= i < |a| ensures XorAll(XorAll(a, b), b)[i] == a[i] {
      XorTwice(a[i], b[i]);
    }
  }

  // ---------------------------------------------------------------- chaining

  datatype Cipher = Cipher(enc: Stream -> Stream, dec: Stream -> Stream)

  ghost predicate Blocks(c: Cipher) {
    forall b: Stream :: |b| == BLOCK ==> |c.enc(b)| == BLOCK && |c.dec(b)| == BLOCK
  }

  ghost predicate Inverse(c: Cipher) {
    forall b: Stream :: |b| == BLOCK ==> c.dec(c.enc(b)) == b
  }

  // One block, chained to the one before if at all.
  function EncryptBlock(c: Cipher, cbc: bool, prev: Stream, block: Stream): Stream
    requires |prev| == |block| == BLOCK
  {
    c.enc(if cbc then XorAll(block, prev) else block)
  }

  function DecryptBlock(c: Cipher, cbc: bool, prev: Stream, block: Stream): Stream
    requires |prev| == |block| == BLOCK && |c.dec(block)| == BLOCK
  {
    if cbc then XorAll(c.dec(block), prev) else c.dec(block)
  }

  // What the next block is chained to.
  function Last(prev: Stream, cipher: Stream): Stream {
    if |cipher| < BLOCK then prev else cipher[|cipher| - BLOCK..]
  }

  function Encrypt(c: Cipher, cbc: bool, prev: Stream, data: Stream): (r: Stream)
    requires Blocks(c) && |prev| == BLOCK && Blocked(data)
    ensures |r| == |data|
  {
    if data == [] then []
    else
      var d := data[..|data| - BLOCK];
      var e := Encrypt(c, cbc, prev, d);
      e + EncryptBlock(c, cbc, Last(prev, e), data[|data| - BLOCK..])
  }

  function Decrypt(c: Cipher, cbc: bool, prev: Stream, data: Stream): (r: Stream)
    requires Blocks(c) && |prev| == BLOCK && Blocked(data)
    ensures |r| == |data|
  {
    if data == [] then []
    else
      var d := data[..|data| - BLOCK];
      Decrypt(c, cbc, prev, d) + DecryptBlock(c, cbc, Last(prev, d), data[|data| - BLOCK..])
  }

  // One block more.
  lemma EncryptNext(c: Cipher, cbc: bool, prev: Stream, data: Stream, block: Stream)
    requires Blocks(c) && |prev| == |block| == BLOCK && Blocked(data)
    ensures Blocked(data + block)
    ensures var e := Encrypt(c, cbc, prev, data); var x := EncryptBlock(c, cbc, Last(prev, e), block);
            Encrypt(c, cbc, prev, data + block) == e + x && Last(prev, e + x) == x
  {
    OneBlock(block);
    BlockedSum(data, block);
    hide Blocked;
    var all := data + block;
    assert all[..|all| - BLOCK] == data && all[|all| - BLOCK..] == block;
  }

  lemma DecryptNext(c: Cipher, cbc: bool, prev: Stream, data: Stream, block: Stream)
    requires Blocks(c) && |prev| == |block| == BLOCK && Blocked(data)
    ensures Blocked(data + block)
    ensures Decrypt(c, cbc, prev, data + block) == Decrypt(c, cbc, prev, data) +
              DecryptBlock(c, cbc, Last(prev, data), block)
    ensures Last(prev, data + block) == block
  {
    OneBlock(block);
    BlockedSum(data, block);
    hide Blocked;
    var all := data + block;
    assert all[..|all| - BLOCK] == data && all[|all| - BLOCK..] == block;
  }

  lemma BlockBack(c: Cipher, cbc: bool, prev: Stream, block: Stream)
    requires Blocks(c) && Inverse(c) && |prev| == |block| == BLOCK
    ensures var x := EncryptBlock(c, cbc, prev, block); |x| == BLOCK && DecryptBlock(c, cbc, prev, x) == block
  {
    XorAllTwice(block, prev);
  }

  lemma LastBlock(data: Stream) returns (d: Stream, b: Stream)
    requires Blocked(data) && data != []
    ensures Blocked(d) && |b| == BLOCK && d + b == data && |d| < |data|
  {
    d, b := data[..|data| - BLOCK], data[|data| - BLOCK..];
  }

  lemma LastLong(prev: Stream, e: Stream)
    requires |prev| == BLOCK
    ensures |Last(prev, e)| == BLOCK
  {
  }

  lemma AsLong(a: Stream, b: Stream)
    requires Blocked(a) && |b| == |a|
    ensures Blocked(b)
  {
  }

  lemma NothingBack(c: Cipher, cbc: bool, prev: Stream)
    requires Blocks(c) && |prev| == BLOCK
    ensures Blocked([]) && Decrypt(c, cbc, prev, Encrypt(c, cbc, prev, [])) == []
  {
  }

  lemma {:induction false} DecryptsBack(c: Cipher, cbc: bool, prev: Stream, data: Stream)
    requires Blocks(c) && Inverse(c) && |prev| == BLOCK && Blocked(data)
    ensures Decrypt(c, cbc, prev, Encrypt(c, cbc, prev, data)) == data
    decreases |data|
  {
    hide Decrypt, Encrypt, EncryptBlock, DecryptBlock, Inverse, Blocked, Blocks, Last;
    if data == [] {
      NothingBack(c, cbc, prev);
    } else {
      var d, b := LastBlock(data);
      DecryptsBack(c, cbc, prev, d);
      var e := Encrypt(c, cbc, prev, d);
      LastLong(prev, e);
      AsLong(d, e);
      EncryptNext(c, cbc, prev, d, b);
      BlockBack(c, cbc, Last(prev, e), b);
      DecryptNext(c, cbc, prev, e, EncryptBlock(c, cbc, Last(prev, e), b));
    }
  }

  // ---------------------------------------------------------------- block by block

  function Block(s: Stream, k: nat): (r: Stream)
    requires BLOCK * (k + 1) <= |s|
    ensures |r| == BLOCK
  {
    s[BLOCK * k..BLOCK * (k + 1)]
  }

  // The blocks have bits where just one of the others has one.
  ghost predicate Combined(x: Stream, a: Stream, b: Stream) {
    |x| == |a| == |b| == 16 &&
    forall j, i :: 0 <= j < 16 && 0 <= i < 8 ==> Bits(x[j], 8)[i] == (Bits(a[j], 8)[i] != Bits(b[j], 8)[i])
  }

  lemma XorCombines(a: Stream, b: Stream)
    requires |a| == |b| == BLOCK
    ensures Combined(XorAll(a, b), a, b)
  {
    hide Xor, Bits;
    var x := XorAll(a, b);
    forall j, i | 0 <= j < 16 && 0 <= i < 8
      ensures Bits(x[j], 8)[i] == (Bits(a[j], 8)[i] != Bits(b[j], 8)[i])
    {
      XorDiffers(a[j], b[j], i);
    }
  }

  // Block k of the output e is the cipher of data block k combined with the block of output before, or with
  // the vector if there is none. Without chaining it is the cipher of data block k.
  ghost predicate EncryptedAt(c: Cipher, cbc: bool, iv: Stream, data: Stream, e: Stream, k: nat)
    requires 16 * (k + 1) <= |data| && 16 * (k + 1) <= |e|
  {
    if cbc then
      exists x :: Combined(x, Block(data, k), if k == 0 then iv else Block(e, k - 1)) && Block(e, k) == c.enc(x)
    else Block(e, k) == c.enc(Block(data, k))
  }

  lemma {:induction false} EncryptedBlock(c: Cipher, cbc: bool, iv: Stream, data: Stream, k: nat)
    requires Blocks(c) && |iv| == BLOCK && Blocked(data) && 16 * (k + 1) <= |data|
    ensures EncryptedAt(c, cbc, iv, data, Encrypt(c, cbc, iv, data), k)
    decreases |data|
  {
    hide Encrypt, EncryptBlock, EncryptedAt, Xor, Last;
    var n := |data| - BLOCK;
    var d, b := data[..n], data[n..];
    assert d + b == data;
    EncryptNext(c, cbc, iv, d, b);
    if 16 * (k + 1) <= n {
      EncryptedBlock(c, cbc, iv, d, k);
      SameEncrypted(c, cbc, iv, d, data, Encrypt(c, cbc, iv, d), Encrypt(c, cbc, iv, data), k);
    } else {
      EncryptedLast(c, cbc, iv, d, b, Encrypt(c, cbc, iv, d), k);
    }
  }

  lemma SameEncrypted(c: Cipher, cbc: bool, iv: Stream, data: Stream, data': Stream, e: Stream, e': Stream, k: nat)
    requires data <= data' && e <= e' && 16 * (k + 1) <= |data| && 16 * (k + 1) <= |e|
    requires EncryptedAt(c, cbc, iv, data, e, k)
    ensures EncryptedAt(c, cbc, iv, data', e', k)
  {
    hide Combined;
    SameBlock(data', data, k);
    SameBlock(e', e, k);
    if k > 0 {
      SameBlock(e', e, k - 1);
    }
  }

  lemma EncryptedLast(c: Cipher, cbc: bool, iv: Stream, data: Stream, b: Stream, e: Stream, k: nat)
    requires Blocks(c) && |iv| == |b| == BLOCK && |data| == |e| == 16 * k
    ensures EncryptedAt(c, cbc, iv, data + b, e + EncryptBlock(c, cbc, Last(iv, e), b), k)
  {
    hide Combined, Xor;
    var prev := Last(iv, e);
    var e' := e + EncryptBlock(c, cbc, prev, b);
    assert Block(data + b, k) == b && Block(e', k) == EncryptBlock(c, cbc, prev, b);
    XorCombines(b, prev);
    if k > 0 {
      assert Block(e', k - 1) == prev;
    }
  }

  // Block k of the text p is that of the input with the cipher undone, combined with the block of input
  // before, or with the vector.
  ghost predicate DecryptedAt(c: Cipher, cbc: bool, iv: Stream, data: Stream, p: Stream, k: nat)
    requires 16 * (k + 1) <= |data| && 16 * (k + 1) <= |p|
  {
    if cbc then Combined(Block(p, k), c.dec(Block(data, k)), if k == 0 then iv else Block(data, k - 1))
    else Block(p, k) == c.dec(Block(data, k))
  }

  lemma {:induction false} DecryptedBlock(c: Cipher, cbc: bool, iv: Stream, data: Stream, k: nat)
    requires Blocks(c) && |iv| == BLOCK && Blocked(data) && 16 * (k + 1) <= |data|
    ensures DecryptedAt(c, cbc, iv, data, Decrypt(c, cbc, iv, data), k)
    decreases |data|
  {
    hide Decrypt, DecryptBlock, DecryptedAt, Xor, Last;
    var n := |data| - BLOCK;
    var d, b := data[..n], data[n..];
    assert d + b == data;
    DecryptNext(c, cbc, iv, d, b);
    if 16 * (k + 1) <= n {
      DecryptedBlock(c, cbc, iv, d, k);
      SameDecrypted(c, cbc, iv, d, data, Decrypt(c, cbc, iv, d), Decrypt(c, cbc, iv, data), k);
    } else {
      DecryptedLast(c, cbc, iv, d, b, Decrypt(c, cbc, iv, d), k);
    }
  }

  lemma SameDecrypted(c: Cipher, cbc: bool, iv: Stream, data: Stream, data': Stream, p: Stream, p': Stream, k: nat)
    requires data <= data' && p <= p' && 16 * (k + 1) <= |data| && 16 * (k + 1) <= |p|
    requires DecryptedAt(c, cbc, iv, data, p, k)
    ensures DecryptedAt(c, cbc, iv, data', p', k)
  {
    hide Combined;
    SameBlock(data', data, k);
    SameBlock(p', p, k);
    if k > 0 {
      SameBlock(data', data, k - 1);
    }
  }

  lemma DecryptedLast(c: Cipher, cbc: bool, iv: Stream, data: Stream, b: Stream, p: Stream, k: nat)
    requires Blocks(c) && |iv| == |b| == BLOCK && |data| == |p| == 16 * k
    ensures DecryptedAt(c, cbc, iv, data + b, p + DecryptBlock(c, cbc, Last(iv, data), b), k)
  {
    hide Combined, Xor;
    var prev := Last(iv, data);
    var p' := p + DecryptBlock(c, cbc, prev, b);
    assert Block(data + b, k) == b && Block(p', k) == DecryptBlock(c, cbc, prev, b);
    XorCombines(c.dec(b), prev);
    if k > 0 {
      assert Block(data + b, k - 1) == prev;
    }
  }

  lemma SameBlock(s: Stream, p: Stream, k: nat)
    requires p <= s && BLOCK * (k + 1) <= |p|
    ensures Block(s, k) == Block(p, k)
  {
  }

  // ---------------------------------------------------------------- padding

  // Up to a whole block more.
  function Padded(data: Stream): (r: Stream)
    ensures Blocked(r) && |r| == |data| + (BLOCK - |data| % BLOCK) > 0
    ensures data <= r && forall i :: |data| <= i < |r| ==> r[i] == 16 - |data| % 16
  {
    var pad := BLOCK - |data| % BLOCK;
    data + Repeat(pad, pad)
  }

  // How many bytes of a last block are padding, if they look like it.
  function PadLength(block: Stream): (r: nat)
    requires |block| == BLOCK
    ensures r <= BLOCK
  {
    var last := block[BLOCK - 1];
    if last <= BLOCK && forall i :: BLOCK - last <= i < BLOCK ==> block[i] == last then last else 0
  }

  function Stripped(data: Stream): Stream
    requires Blocked(data)
  {
    if data == [] then [] else data[..|data| - PadLength(data[|data| - BLOCK..])]
  }

  // What is stripped, of any stream: if the last byte is n, from 1 to 16, and the last n bytes all are, these
  // n bytes, and nothing otherwise.
  lemma StrippedIs(data: Stream)
    requires Blocked(data) && data != []
    ensures var n, size := data[|data| - 1], |data|;
            Stripped(data) ==
            if 1 <= n <= 16 && forall i :: size - n <= i < size ==> data[i] == n then data[..size - n] else data
  {
    var n, size := data[|data| - 1], |data|;
    var block := data[size - BLOCK..];
    assert block[BLOCK - 1] == n;
    if n <= BLOCK {
      assert forall i :: BLOCK - n <= i < BLOCK ==> block[i] == data[size - BLOCK + i];
      assert forall i :: size - n <= i < size ==> data[i] == block[i - (size - BLOCK)];
    }
    assert data[..size] == data;
  }

  lemma StripsPadding(data: Stream)
    ensures Stripped(Padded(data)) == data
  {
    var pad, p := BLOCK - |data| % BLOCK, Padded(data);
    var block := p[|p| - BLOCK..];
    assert forall i :: BLOCK - pad <= i < BLOCK ==> block[i] == p[|p| - BLOCK + i];
    assert PadLength(block) == pad;
    assert p[..|p| - pad] == data;
  }

  // ---------------------------------------------------------------- whole streams

  // Where the first block gets its vector from. One that is not agreed on goes with the stream.
  datatype Vector = Agreed(iv: Stream) | Sent(iv: Stream)

  function Encrypted(c: Cipher, cbc: bool, v: Vector, data: Stream): Stream
    requires Blocks(c) && |v.iv| == BLOCK
  {
    (if cbc && v.Sent? then v.iv else []) + Encrypt(c, cbc, v.iv, Padded(data))
  }

  // A stream that does not end with a block is filled up with zeros.
  function ZeroFilled(data: Stream): (r: Stream)
    ensures Blocked(r) && |r| >= BLOCK && |r| < |data| + BLOCK + (if data == [] then 1 else 0)
    ensures data <= r && forall i :: |data| <= i < |r| ==> r[i] == 0
  {
    if data != [] && Blocked(data) then data else data + Repeat(BLOCK - |data| % BLOCK, 0)
  }

  function Decrypted(c: Cipher, cbc: bool, v: Vector, data: Stream): Stream
    requires Blocks(c) && |v.iv| == BLOCK
  {
    var d := ZeroFilled(data);
    if cbc && v.Sent? then Stripped(Decrypt(c, cbc, d[..BLOCK], d[BLOCK..])) else Stripped(Decrypt(c, cbc, v.iv, d))
  }

  // A vector that is not agreed on comes first, and the blocks of the padded stream follow.
  lemma VectorFirst(c: Cipher, cbc: bool, v: Vector, data: Stream)
    requires Blocks(c) && |v.iv| == BLOCK
    ensures var s := Encrypted(c, cbc, v, data);
            if cbc && v.Sent? then |s| >= 32 && s[..16] == v.iv && s[16..] == Encrypt(c, true, v.iv, Padded(data))
            else s == Encrypt(c, cbc, v.iv, Padded(data))
  {
    hide Encrypt, Padded;
  }

  // For every stream and every vector; whoever decrypts need not know one that was sent.
  lemma RoundTrip(c: Cipher, cbc: bool, v: Vector, w: Vector, data: Stream)
    requires Blocks(c) && Inverse(c) && |v.iv| == |w.iv| == BLOCK
    requires (v.Sent? <==> w.Sent?) && (v.Agreed? ==> v == w)
    ensures Decrypted(c, cbc, w, Encrypted(c, cbc, v, data)) == data
    ensures |Encrypted(c, cbc, v, data)| == BLOCK * (|data| / BLOCK + if cbc && v.Sent? then 2 else 1)
  {
    hide Decrypt, Encrypt, Stripped, Inverse;
    var body := Encrypt(c, cbc, v.iv, Padded(data));
    DecryptsBack(c, cbc, v.iv, Padded(data));
    if !cbc && v != w {
      NoChain(c, v.iv, w.iv, body);
    }
    var all := Encrypted(c, cbc, v, data);
    assert cbc && v.Sent? ==> all[..BLOCK] == v.iv && all[BLOCK..] == body;
    assert !(cbc && v.Sent?) ==> all == body;
    StripsPadding(data);
  }

  lemma {:induction false} NoChain(c: Cipher, a: Stream, b: Stream, data: Stream)
    requires Blocks(c) && |a| == |b| == BLOCK && Blocked(data)
    ensures Decrypt(c, false, a, data) == Decrypt(c, false, b, data)
  {
    if data != [] {
      NoChain(c, a, b, data[..|data| - BLOCK]);
    }
  }
}
