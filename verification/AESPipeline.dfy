/**
 * Pl_AES_PDF of libqpdf/Pl_AES_PDF.cc with the chaining of libqpdf/AES_PDF_native.cc: a stream comes in
 * pieces of any size and is encrypted or decrypted block by block, in three buffers of 16 bytes.
 */
module AESPipeline {
  import opened Bytes
  import opened AESModel

  class AESPipe {
    const cipher: Cipher
    const encrypt: bool
    const cbcMode: bool
    const padding: bool
    // To decrypt a stream that has its vector with it, the value is not used.
    const vector: Vector
    var first: bool
    var offset: nat
    const inbuf: array<byte>
    const outbuf: array<byte>
    const cbcBlock: array<byte>
    // What has been written to the next stage, and to this one.
    var next: Stream
    ghost var input: Stream
    // The blocks of the input that have been processed.
    ghost var whole: Stream

    constructor (cipher: Cipher, encrypt: bool, cbcMode: bool, padding: bool, vector: Vector)
      requires Blocks(cipher) && |vector.iv| == BLOCK
      ensures Valid() && input == [] && fresh(inbuf) && fresh(outbuf) && fresh(cbcBlock)
      ensures this.cipher == cipher && this.encrypt == encrypt && this.cbcMode == cbcMode
      ensures this.padding == padding && this.vector == vector
    {
      this.cipher, this.encrypt, this.cbcMode, this.padding, this.vector := cipher, encrypt, cbcMode, padding, vector;
      first, offset, next, input, whole := true, 0, [], [], [];
      inbuf := new byte[BLOCK](_ => 0);
      outbuf := new byte[BLOCK](_ => 0);
      cbcBlock := new byte[BLOCK](_ => 0);
    }

    // The first block of the input is the vector.
    predicate TakesVector() {
      cbcMode && !encrypt && vector.Sent?
    }

    // What is written for whole blocks of input once the vector is there.
    ghost function Produced(done: Stream): (r: Stream)
      requires Blocks(cipher) && |vector.iv| == BLOCK && Blocked(done)
      ensures Blocked(r)
    {
      if TakesVector() then if done == [] then [] else Decrypt(cipher, cbcMode, done[..BLOCK], done[BLOCK..])
      else if encrypt then Head() + Encrypt(cipher, cbcMode, vector.iv, done)
      else Decrypt(cipher, cbcMode, vector.iv, done)
    }

    // Nothing happens before the first block is complete.
    ghost function Out(done: Stream): (r: Stream)
      requires Blocks(cipher) && |vector.iv| == BLOCK && Blocked(done)
      ensures Blocked(r)
    {
      if done == [] then [] else Produced(done)
    }

    // What the next block is chained to.
    ghost function Chain(done: Stream): (r: Stream)
      requires Blocks(cipher) && |vector.iv| == BLOCK && Blocked(done)
      ensures |r| == BLOCK
    {
      if TakesVector() then if done == [] then vector.iv else Last(done[..BLOCK], done[BLOCK..])
      else if encrypt then Last(vector.iv, Encrypt(cipher, cbcMode, vector.iv, done))
      else Last(vector.iv, done)
    }

    ghost function Processed(prev: Stream, block: Stream): Stream
      requires Blocks(cipher) && |prev| == |block| == BLOCK
    {
      if encrypt then EncryptBlock(cipher, cbcMode, prev, block) else DecryptBlock(cipher, cbcMode, prev, block)
    }

    // The vector before what is encrypted, if it goes with it.
    ghost function Head(): Stream {
      if cbcMode && vector.Sent? then vector.iv else []
    }

    lemma ProducedNext(done: Stream, block: Stream)
      requires Blocks(cipher) && |vector.iv| == |block| == BLOCK && Blocked(done) && (TakesVector() ==> done != [])
      ensures Blocked(done + block) && done + block != []
      ensures Produced(done + block) == Produced(done) + Processed(Chain(done), block)
      ensures Chain(done + block) == if encrypt then Processed(Chain(done), block) else block
    {
      OneBlock(block);
      BlockedSum(done, block);
      if TakesVector() {
        TakenNext(done, block);
      } else if encrypt {
        EncryptedNext(done, block);
      } else {
        hide Decrypt, DecryptBlock, Blocks, Last, Blocked;
        DecryptNext(cipher, cbcMode, vector.iv, done, block);
      }
    }

    lemma TakenNext(done: Stream, block: Stream)
      requires Blocks(cipher) && |vector.iv| == |block| == BLOCK && Blocked(done) && TakesVector() && done != []
      requires Blocked(done + block)
      ensures Produced(done + block) == Produced(done) + Processed(Chain(done), block)
      ensures Chain(done + block) == block
    {
      var v, d := done[..BLOCK], done[BLOCK..];
      assert (done + block)[..BLOCK] == v && (done + block)[BLOCK..] == d + block;
      hide Decrypt, DecryptBlock, Blocks, Last;
      DecryptNext(cipher, cbcMode, v, d, block);
    }

    lemma EncryptedNext(done: Stream, block: Stream)
      requires Blocks(cipher) && |vector.iv| == |block| == BLOCK && Blocked(done) && encrypt
      requires Blocked(done + block)
      ensures Produced(done + block) == Produced(done) + Processed(Chain(done), block)
      ensures Chain(done + block) == Processed(Chain(done), block)
    {
      hide Encrypt, EncryptBlock, Blocks, Last, Blocked;
      EncryptNext(cipher, cbcMode, vector.iv, done, block);
      var e, x := Encrypt(cipher, cbcMode, vector.iv, done), Processed(Chain(done), block);
      assert Head() + (e + x) == (Head() + e) + x;
    }

    predicate Buffers() {
      && inbuf.Length == outbuf.Length == cbcBlock.Length == BLOCK
      && inbuf != outbuf && inbuf != cbcBlock && outbuf != cbcBlock
    }

    ghost predicate Core()
      reads this`first, this`next, this`whole, cbcBlock
    {
      && Buffers() && Blocks(cipher) && |vector.iv| == BLOCK && Blocked(whole)
      && (first <==> whole == []) && next == Out(whole)
      && (!first && cbcMode ==> cbcBlock[..] == Chain(whole))
    }

    // A full buffer is not passed on before there is more.
    ghost predicate Valid()
      reads this, inbuf, cbcBlock
    {
      Held() && (offset == 0 ==> input == [])
    }

    ghost predicate Held()
      reads this, inbuf, cbcBlock
    {
      Core() && offset <= BLOCK && input == whole + inbuf[..offset]
    }

    method Write(data: Stream)
      requires Valid()
      modifies this, inbuf, outbuf, cbcBlock
      ensures Valid() && input == old(input) + data
    {
      hide Core;
      var p := 0;
      while p < |data|
        invariant p <= |data| && Valid() && input == old(input) + data[..p]
      {
        if offset == BLOCK {
          FlushFull();
        }
        var available := BLOCK - offset;
        var bytes := if |data| - p < available then |data| - p else available;
        TakeIn(data[p..p + bytes]);
        Pieces(old(input), data, p, p + bytes);
        p := p + bytes;
      }
      assert data[..p] == data;
    }

    lemma Pieces(a: Stream, data: Stream, p: nat, q: nat)
      requires p <= q <= |data|
      ensures a + data[..p] + data[p..q] == a + data[..q]
    {
    }

    // The copy into the buffer.
    method TakeIn(part: Stream)
      requires Held() && offset + |part| <= BLOCK
      modifies this`offset, this`input, inbuf
      ensures Held() && input == old(input) + part && offset == old(offset) + |part|
    {
      assert Buffers();
      hide Core;
      ghost var was := inbuf[..offset];
      CopyPart(part);
      Joined(whole, was, part);
      offset := offset + |part|;
      input := input + part;
    }

    lemma Joined(a: Stream, b: Stream, c: Stream)
      ensures a + b + c == a + (b + c)
    {
    }

    method CopyPart(part: Stream)
      requires Buffers() && offset + |part| <= BLOCK
      modifies inbuf
      ensures inbuf[..offset + |part|] == old(inbuf[..offset]) + part
    {
      for i := 0 to |part|
        invariant inbuf[..offset + i] == old(inbuf[..offset]) + part[..i]
      {
        inbuf[offset + i] := part[i];
      }
      assert part[..|part|] == part;
    }

    // A full buffer in the middle of the stream.
    method FlushFull()
      requires Held() && offset == BLOCK
      modifies this`first, this`offset, this`next, this`whole, inbuf, outbuf, cbcBlock
      ensures Held() && offset == 0
    {
      assert inbuf[..offset] == inbuf[..];
      Flush(false);
      assert whole + [] == whole;
    }

    method Flush(stripPadding: bool)
      requires Core() && offset == BLOCK && (stripPadding ==> !encrypt)
      modifies this`first, this`offset, this`next, this`whole, inbuf, outbuf, cbcBlock
      ensures offset == 0 && whole == old(whole + inbuf[..]) && Blocked(whole)
      ensures next == if stripPadding then Stripped(Out(whole)) else Out(whole)
      ensures !stripPadding ==> Core()
    {
      ghost var block := inbuf[..];
      NextOut(whole, block);
      hide Blocks, Stripped, Encrypt, Decrypt, Produced, Chain, Out;
      if first {
        var returnAfterInit := StartStream();
        if returnAfterInit {
          whole := whole + block;
          return;
        }
      }
      FlushBlock(stripPadding);
    }

    // The vector is there and the output so far is complete.
    ghost predicate Started()
      reads this`first, this`next, this`whole, cbcBlock
    {
      && Buffers() && Blocks(cipher) && |vector.iv| == BLOCK && Blocked(whole)
      && !first && next == Produced(whole) && (TakesVector() ==> whole != [])
      && (cbcMode ==> cbcBlock[..] == Chain(whole))
    }

    method FlushBlock(stripPadding: bool)
      requires Started() && Blocked(next)
      modifies this`offset, this`next, this`whole, inbuf, outbuf, cbcBlock
      ensures offset == 0 && whole == old(whole + inbuf[..])
      ensures next == if stripPadding then Stripped(Produced(whole)) else Produced(whole)
      ensures !stripPadding ==> Started()
    {
      ghost var block := inbuf[..];
      hide Produced, Chain, Processed, Stripped, Blocks, Encrypt, Decrypt, Blocked, PadLength, EncryptBlock,
          DecryptBlock;
      ProducedNext(whole, block);
      ProcessBlock(Chain(whole));
      StrippedLast(next, outbuf[..]);
      WriteOut(stripPadding);
      whole := whole + block;
    }

    method WriteOut(stripPadding: bool)
      requires Buffers()
      modifies this`offset, this`next
      ensures offset == 0
      ensures next == old(next) + if stripPadding then outbuf[..][..BLOCK - PadLength(outbuf[..])] else outbuf[..]
    {
      var bytes := BLOCK;
      if stripPadding {
        bytes := BLOCK - PadLength(outbuf[..]);
      }
      offset := 0;
      next := next + outbuf[..bytes];
      assert outbuf[..bytes] == outbuf[..][..bytes];
    }

    lemma NextOut(done: Stream, block: Stream)
      requires Blocks(cipher) && |vector.iv| == |block| == BLOCK && Blocked(done)
      ensures Blocked(done + block) && done + block != []
      ensures Out(done + block) == Produced(done + block) && (done != [] ==> Out(done) == Produced(done))
      ensures TakesVector() && done == [] ==>
                Out(done + block) == [] && Stripped(Out(done + block)) == [] && Chain(done + block) == block
    {
      hide Encrypt;
      assert [] + block == block && block[..BLOCK] == block && block[BLOCK..] == [];
    }

    lemma StrippedLast(a: Stream, block: Stream)
      requires Blocked(a) && |block| == BLOCK
      ensures Blocked(a + block) && Stripped(a + block) == a + block[..BLOCK - PadLength(block)]
    {
      assert (a + block)[|a + block| - BLOCK..] == block;
    }

    // The vector: written or taken if it goes with the stream.
    method StartStream() returns (returnAfterInit: bool)
      requires Core() && whole == [] && offset == BLOCK
      modifies this`first, this`offset, this`next, cbcBlock
      ensures !first && (returnAfterInit <==> TakesVector())
      ensures returnAfterInit ==> offset == 0 && next == [] && cbcBlock[..] == inbuf[..]
      ensures !returnAfterInit ==> offset == BLOCK && next == Produced([]) && (cbcMode ==> cbcBlock[..] == Chain([]))
    {
      first := false;
      returnAfterInit := false;
      if cbcMode {
        if encrypt {
          InitializeVector();
          if vector.Sent? {
            next := next + cbcBlock[..];
          }
        } else if vector.Agreed? {
          InitializeVector();
        } else {
          CopyBlock(inbuf, cbcBlock);
          offset := 0;
          returnAfterInit := true;
        }
      }
      assert cbcMode && encrypt && vector.Sent? ==> next == vector.iv && vector.iv + [] == vector.iv;
    }

    method CopyBlock(from: array<byte>, to: array<byte>)
      requires from.Length == to.Length == BLOCK && from != to
      modifies to
      ensures to[..] == from[..]
    {
      forall i | 0 <= i < BLOCK {
        to[i] := from[i];
      }
    }

    // Zeros, a given vector, a fixed one or random bytes.
    method InitializeVector()
      requires Buffers() && |vector.iv| == BLOCK
      modifies cbcBlock
      ensures cbcBlock[..] == vector.iv
    {
      forall i | 0 <= i < BLOCK {
        cbcBlock[i] := vector.iv[i];
      }
    }

    method XorInto(a: array<byte>, b: array<byte>)
      requires a.Length == b.Length == BLOCK && a != b
      modifies a
      ensures a[..] == XorAll(old(a[..]), b[..])
    {
      for i := 0 to BLOCK
        invariant forall k :: 0 <= k < BLOCK ==> a[k] == if k < i then Xor(old(a[k]), b[k]) else old(a[k])
      {
        a[i] := Xor(a[i], b[i]);
      }
    }

    method SetBlock(a: array<byte>, data: Stream)
      requires a.Length == |data| == BLOCK
      modifies a
      ensures a[..] == data
    {
      forall i | 0 <= i < BLOCK {
        a[i] := data[i];
      }
    }

    // AES_PDF_native::update, with the buffers changed in place.
    method ProcessBlock(ghost prev: Stream)
      requires Buffers() && Blocks(cipher) && |prev| == BLOCK && (cbcMode ==> cbcBlock[..] == prev)
      modifies inbuf, outbuf, cbcBlock
      ensures outbuf[..] == Processed(prev, old(inbuf[..]))
      ensures cbcMode ==> cbcBlock[..] == if encrypt then outbuf[..] else old(inbuf[..])
    {
      ghost var block := inbuf[..];
      if encrypt {
        if cbcMode {
          XorInto(inbuf, cbcBlock);
        }
        SetBlock(outbuf, cipher.enc(inbuf[..]));
        if cbcMode {
          CopyBlock(outbuf, cbcBlock);
        }
      } else {
        SetBlock(outbuf, cipher.dec(inbuf[..]));
        if cbcMode {
          XorInto(outbuf, cbcBlock);
          CopyBlock(inbuf, cbcBlock);
        }
      }
    }

    method Fill(b: byte)
      requires Buffers() && offset <= BLOCK
      modifies inbuf, this`offset
      ensures offset == BLOCK && inbuf[..] == old(inbuf[..offset]) + Repeat(BLOCK - old(offset), b)
    {
      forall i | offset <= i < BLOCK {
        inbuf[i] := b;
      }
      offset := BLOCK;
    }

    // Without padding, an encrypted stream loses what does not fill a block.
    method Finish()
      requires Valid()
      modifies this, inbuf, outbuf, cbcBlock
      ensures encrypt && padding ==> next == Encrypted(cipher, cbcMode, vector, old(input))
      ensures encrypt && !padding ==> next == Out(FullBlocks(old(input)))
      ensures !encrypt && padding ==> next == Decrypted(cipher, cbcMode, vector, old(input))
      ensures !encrypt && !padding ==> next == Out(ZeroFilled(old(input)))
    {
      ghost var data := input;
      assert Core();
      if encrypt {
        hide Out, Encrypted, Decrypted, Core, Held, Stripped, Padded, ZeroFilled;
        FinishEncrypting();
        WholeEncrypted(data);
      } else {
        hide Out, Encrypted, Decrypted, Core, Held, Stripped, Padded, ZeroFilled;
        FinishDecrypting();
        WholeDecrypted(data);
      }
    }

    lemma WholeEncrypted(data: Stream)
      requires Blocks(cipher) && |vector.iv| == BLOCK && encrypt
      ensures Out(Padded(data)) == Encrypted(cipher, cbcMode, vector, data)
    {
      hide Encrypt, Decrypt, Stripped, Padded, ZeroFilled, Blocks;
    }

    lemma WholeDecrypted(data: Stream)
      requires Blocks(cipher) && |vector.iv| == BLOCK && !encrypt
      ensures Stripped(Out(ZeroFilled(data))) == Decrypted(cipher, cbcMode, vector, data)
    {
      hide Encrypt, Decrypt, Stripped, Padded, ZeroFilled, Blocks;
    }

    method FinishEncrypting()
      requires Valid() && encrypt
      modifies this, inbuf, outbuf, cbcBlock
      ensures next == Out(if padding then Padded(old(input)) else FullBlocks(old(input)))
    {
      hide Out, Stripped, Encrypt, Decrypt, Blocks;
      if offset == BLOCK {
        FlushFull();
      }
      Tail(whole, inbuf[..offset]);
      if padding {
        Fill(BLOCK - offset);
        Flush(false);
      }
    }

    method FinishDecrypting()
      requires Valid() && !encrypt
      modifies this, inbuf, outbuf, cbcBlock
      ensures var out := Out(ZeroFilled(old(input))); next == if padding then Stripped(out) else out
    {
      hide Out, Stripped, ZeroFilled, Encrypt, Decrypt, Blocks;
      Filled(whole, inbuf[..offset]);
      assert inbuf[..BLOCK] == inbuf[..];
      if offset != BLOCK {
        Fill(0);
      }
      Flush(padding);
    }

    lemma Tail(whole: Stream, tail: Stream)
      requires Blocked(whole) && |tail| < BLOCK
      ensures var data, n := whole + tail, |tail|;
              whole + (tail + Repeat(BLOCK - n, BLOCK - n)) == Padded(data) && data[..|data| - |data| % BLOCK] == whole
    {
    }

    lemma Filled(whole: Stream, tail: Stream)
      requires Blocked(whole) && |tail| <= BLOCK && (tail == [] ==> whole == [])
      ensures whole + (if |tail| == BLOCK then tail else tail + Repeat(BLOCK - |tail|, 0)) == ZeroFilled(whole + tail)
    {
    }
  }

  // Any pieces on both sides, any vector: what is decrypted is what was encrypted.
  method Roundtrip(c: Cipher, cbc: bool, v: Vector, w: Vector, pieces: seq<Stream>,
          cuts: seq<nat>) returns (out: Stream)
    requires Blocks(c) && Inverse(c) && |v.iv| == |w.iv| == BLOCK
    requires (v.Sent? <==> w.Sent?) && (v.Agreed? ==> v == w)
    ensures out == Concat(pieces)
  {
    hide AESPipe.Held, Encrypted, Decrypted, Inverse;
    var encrypter := new AESPipe(c, true, cbc, true, v);
    for i := 0 to |pieces|
      invariant encrypter.Valid() && encrypter.input == Concat(pieces[..i])
      invariant fresh(encrypter) && fresh(encrypter.inbuf) && fresh(encrypter.outbuf) && fresh(encrypter.cbcBlock)
    {
      encrypter.Write(pieces[i]);
      assert pieces[..i + 1][..i] == pieces[..i];
    }
    assert pieces[..|pieces|] == pieces;
    encrypter.Finish();
    var code := encrypter.next;
    var decrypter := new AESPipe(c, false, cbc, true, w);
    var done := 0;
    for i := 0 to |cuts|
      invariant done <= |code| && decrypter.Valid() && decrypter.input == code[..done]
      invariant fresh(decrypter) && fresh(decrypter.inbuf) && fresh(decrypter.outbuf) && fresh(decrypter.cbcBlock)
    {
      var end := if done + cuts[i] <= |code| then done + cuts[i] else |code|;
      assert code[..end] == code[..done] + code[done..end];
      decrypter.Write(code[done..end]);
      done := end;
    }
    assert code == code[..done] + code[done..];
    decrypter.Write(code[done..]);
    decrypter.Finish();
    RoundTrip(c, cbc, v, w, Concat(pieces));
    out := decrypter.next;
  }
}
