/**
 * MD5_native of libqpdf/MD5_native.cc: a message comes in pieces, is folded block by block and is
 * padded at the end, sections 3.1 to 3.4 of RFC 1321. The transformation of a block is any function.
 */
module MD5 {
  import opened Bytes

  const BLOCK := 64
  const WORD := 0x1_0000_0000
  const TWO_WORDS := 0x1_0000_0000_0000_0000

  type Stream = seq<byte>
  type Words = seq<nat>
  type Transform = (Words, Stream) -> Words

  // ---------------------------------------------------------------- whole messages

  predicate Blocked(s: Stream) {
    |s| % BLOCK == 0
  }

  // The transformation of all the blocks, one after the other.
  function Fold(f: Transform, s: Words, data: Stream): Words
    requires Blocked(data)
  {
    if data == [] then s else f(Fold(f, s, data[..|data| - BLOCK]), data[|data| - BLOCK..])
  }

  lemma FoldNext(f: Transform, s: Words, data: Stream, block: Stream)
    requires Blocked(data) && |block| == BLOCK
    ensures Blocked(data + block) && Fold(f, s, data + block) == f(Fold(f, s, data), block)
  {
    var all := data + block;
    assert all[..|all| - BLOCK] == data && all[|all| - BLOCK..] == block;
  }

  lemma TailLength(whole: Stream, n: nat)
    requires Blocked(whole) && n < BLOCK
    ensures (|whole| + n) % BLOCK == n
  {
  }

  function LittleEndian(v: nat, n: nat): (r: Stream)
    ensures |r| == n
  {
    if n == 0 then [] else [v % 256] + LittleEndian(v / 256, n - 1)
  }

  // One bit, zeros up to 56 modulo 64, and the length in bits.
  function Padded(m: Stream): (r: Stream) {
    m + [0x80] + Zeros((119 - |m| % BLOCK) % BLOCK) + LittleEndian(8 * |m| % TWO_WORDS, 8)
  }

  lemma ZeroCount(i: nat)
    requires i < BLOCK
    ensures (119 - i) % BLOCK == if i < 56 then 55 - i else 119 - i
  {
  }

  // The message, a one bit, zeros, and the length in eight bytes, in as few blocks as hold these.
  lemma PaddedForm(m: Stream)
    ensures var p := Padded(m); var n := |p|;
            && |m| + 9 <= n < |m| + 9 + 64 && n % 64 == 0 && p[..|m|] == m && p[|m|] == 0x80
            && (forall i :: |m| < i < n - 8 ==> p[i] == 0)
            && p[n - 8..] == LittleEndian(8 * |m| % TWO_WORDS, 8)
  {
    PaddedBlocked(m);
    hide LittleEndian;
  }

  lemma PaddedBlocked(m: Stream)
    ensures Blocked(Padded(m)) && (|m| + 1 + (119 - |m| % BLOCK) % BLOCK) % BLOCK == 56
  {
    var q, i := |m| / BLOCK, |m| % BLOCK;
    var k := if i < 56 then 55 - i else 119 - i;
    ZeroCount(i);
    hide LittleEndian;
    assert |Padded(m)| == |m| + 1 + k + 8;
    var p := if i < 56 then q else q + 1;
    assert |m| + 1 + k == BLOCK * p + 56;
    ModUnique(|m| + 1 + k, BLOCK, p, 56);
    ModUnique(|m| + 1 + k + 8, BLOCK, p + 1, 0);
  }

  lemma ModUnique(v: nat, m: nat, q: nat, r: nat)
    requires m > 0 && v == m * q + r && r < m
    ensures v % m == r
  {
    DivUnique(v, m, q, r);
  }

  lemma PaddedParts(m: Stream, zeros: nat)
    requires zeros == if |m| % BLOCK < 56 then 55 - |m| % BLOCK else 119 - |m| % BLOCK
    ensures m + ([0x80] + Zeros(zeros)) + LittleEndian(8 * |m| % TWO_WORDS, 8) == Padded(m)
  {
    var i := |m| % BLOCK;
    ZeroCount(i);
    var z, len := Zeros(zeros), LittleEndian(8 * |m| % TWO_WORDS, 8);
    assert Padded(m) == m + [0x80] + z + len;
    hide LittleEndian, Zeros, Padded;
    Parts(m, z, len);
  }

  lemma Parts(m: Stream, z: Stream, len: Stream)
    ensures m + ([0x80] + z) + len == m + [0x80] + z + len
  {
    assert m + ([0x80] + z) == m + [0x80] + z;
  }

  const INIT: Words := [0x67452301, 0xefcdab89, 0x98badcfe, 0x10325476]

  function EncodeWords(ws: Words): Stream {
    if ws == [] then [] else EncodeWords(ws[..|ws| - 1]) + LittleEndian(ws[|ws| - 1], 4)
  }

  function Digest(f: Transform, m: Stream): Stream {
    PaddedBlocked(m);
    EncodeWords(Fold(f, INIT, Padded(m)))
  }

  // With a transformation that changes nothing, the digest is the four words of section 3.3 of RFC 1321,
  // in their order, low-order bytes first.
  lemma DigestKept(f: Transform, m: Stream)
    requires forall s, b :: f(s, b) == s
    ensures Digest(f, m) == [0x01, 0x23, 0x45, 0x67, 0x89, 0xab, 0xcd, 0xef, 0xfe, 0xdc, 0xba, 0x98, 0x76, 0x54, 0x32,
                             0x10]
  {
    PaddedBlocked(m);
    FoldKept(f, INIT, Padded(m));
    hide Padded;
    FirstWords();
  }

  lemma {:induction false} FoldKept(f: Transform, s: Words, data: Stream)
    requires Blocked(data) && forall s, b :: f(s, b) == s
    ensures Fold(f, s, data) == s
  {
    if data != [] {
      FoldKept(f, s, data[..|data| - BLOCK]);
    }
  }

  lemma FirstWords()
    ensures EncodeWords(INIT) == [0x01, 0x23, 0x45, 0x67, 0x89, 0xab, 0xcd, 0xef, 0xfe, 0xdc, 0xba, 0x98, 0x76, 0x54,
                                  0x32, 0x10]
  {
    hide LittleEndian, EncodeWords;
    WordIs(INIT[0], 0x01, 0x23, 0x45, 0x67);
    WordIs(INIT[1], 0x89, 0xab, 0xcd, 0xef);
    WordIs(INIT[2], 0xfe, 0xdc, 0xba, 0x98);
    WordIs(INIT[3], 0x76, 0x54, 0x32, 0x10);
    NoWords();
    WordMore([], INIT[0]);
    WordMore([INIT[0]], INIT[1]);
    WordMore([INIT[0], INIT[1]], INIT[2]);
    WordMore([INIT[0], INIT[1], INIT[2]], INIT[3]);
    assert [] + [INIT[0]] == [INIT[0]] && [INIT[0]] + [INIT[1]] == [INIT[0], INIT[1]];
    assert [INIT[0], INIT[1]] + [INIT[2]] == [INIT[0], INIT[1], INIT[2]];
    assert [INIT[0], INIT[1], INIT[2]] + [INIT[3]] == INIT;
  }

  lemma NoWords()
    ensures EncodeWords([]) == []
  {
  }

  lemma WordMore(ws: Words, w: nat)
    ensures EncodeWords(ws + [w]) == EncodeWords(ws) + LittleEndian(w, 4)
  {
    hide LittleEndian;
    assert (ws + [w])[..|ws|] == ws;
  }

  lemma WordIs(v: nat, a: byte, b: byte, c: byte, d: byte)
    requires v == a + 256 * (b + 256 * (c + 256 * d))
    ensures LittleEndian(v, 4) == [a, b, c, d]
  {
    var v1, v2 := b + 256 * (c + 256 * d), c + 256 * d;
    assert v / 256 == v1 && v1 / 256 == v2 && v2 / 256 == d && d / 256 == 0;
    assert LittleEndian(d, 1) == [d];
    assert LittleEndian(v2, 2) == [c, d];
    assert LittleEndian(v1, 3) == [b, c, d];
  }

  // ---------------------------------------------------------------- the bit counter

  // Two words hold the number of bits, which wraps around at 2^64.
  ghost predicate Counts(count0: nat, count1: nat, bytes: nat) {
    count0 < WORD && count1 < WORD && count0 + WORD * count1 == 8 * bytes % TWO_WORDS
  }

  // What update does to the counter.
  function Counted(count0: nat, count1: nat, n: nat): (nat, nat) {
    var low := n % WORD * 8 % WORD;
    var c0 := (count0 + low) % WORD;
    var carry := if c0 < low then 1 else 0;
    (c0, ((count1 + carry) % WORD + n % WORD / 0x2000_0000) % WORD)
  }

  lemma CountsOn(count0: nat, count1: nat, bytes: nat, n: nat)
    requires Counts(count0, count1, bytes) && n < WORD
    ensures var (c0, c1) := Counted(count0, count1, n); Counts(c0, c1, bytes + n)
  {
    var (c0, c1) := Counted(count0, count1, n);
    var q := 8 * bytes / TWO_WORDS;
    var low, high, over, w := CountedWords(count0, count1, n);
    Quotient(8 * bytes, TWO_WORDS);
    hide Counted;
    AddCounts(count0, count1, bytes, q, n, low, high, over, w, c0, c1);
    ModUnique(8 * (bytes + n), TWO_WORDS, q + w, c0 + WORD * c1);
  }

  // The two words with the carry over between them and the one that is lost.
  lemma CountedWords(count0: nat, count1: nat, n: nat) returns (low: nat, high: nat, over: nat, w: nat)
    requires count0 < WORD && count1 < WORD && n < WORD
    ensures 8 * n == low + WORD * high
    ensures var (c0, c1) := Counted(count0, count1, n);
            && c0 < WORD && c1 < WORD
            && c0 + WORD * over == count0 + low && c1 + WORD * w == count1 + over + high
  {
    low, high := n * 8 % WORD, n / 0x2000_0000;
    Shifted(n);
    LowWord(count0, low);
    over := if count0 + low >= WORD then 1 else 0;
    HighWord(count1, over, high);
    w := if count1 + over + high >= WORD then 1 else 0;
    assert n % WORD == n;
  }

  lemma Shifted(n: nat)
    requires n < WORD
    ensures 8 * n == n * 8 % WORD + WORD * (n / 0x2000_0000) && n / 0x2000_0000 < 8
  {
  }

  lemma Quotient(v: nat, m: nat)
    requires m > 0
    ensures v == m * (v / m) + v % m
  {
  }

  lemma AddCounts(count0: nat, count1: nat, bytes: nat, q: nat, n: nat, low: nat, high: nat, over: nat, w: nat,
                  c0: nat, c1: nat)
    requires 8 * bytes == TWO_WORDS * q + (count0 + WORD * count1) && 8 * n == low + WORD * high
    requires c0 + WORD * over == count0 + low && c1 + WORD * w == count1 + over + high
    ensures 8 * (bytes + n) == TWO_WORDS * (q + w) + (c0 + WORD * c1)
  {
  }

  // Only the low 32 bits of the length of a piece are counted, so any piece is counted right exactly
  // if what is left out is a multiple of 2^64 bits.
  lemma CountsExactly(count0: nat, count1: nat, bytes: nat, n: nat)
    requires Counts(count0, count1, bytes)
    ensures var (c0, c1) := Counted(count0, count1, n);
            Counts(c0, c1, bytes + n) <==> n / WORD % 0x2000_0000 == 0
  {
    var low, high := n % WORD, n / WORD;
    var (c0, c1) := Counted(count0, count1, n);
    assert low % WORD == low;
    assert Counted(count0, count1, n) == Counted(count0, count1, low);
    CountsOn(count0, count1, bytes, low);
    hide Counted;
    assert n == WORD * high + low;
    SameBits(bytes + low, high);
  }

  lemma SameBits(b: nat, high: nat)
    ensures 8 * (b + WORD * high) % TWO_WORDS == 8 * b % TWO_WORDS <==> high % 0x2000_0000 == 0
  {
    var q, r := 8 * b / TWO_WORDS, 8 * b % TWO_WORDS;
    var k, m := high / 0x2000_0000, high % 0x2000_0000;
    assert 8 * WORD * m < TWO_WORDS;
    var sum := r + 8 * WORD * m;
    var over := if sum >= TWO_WORDS then 1 else 0;
    assert 8 * (b + WORD * high) == TWO_WORDS * (q + k + over) + (sum - TWO_WORDS * over);
    ModUnique(8 * (b + WORD * high), TWO_WORDS, q + k + over, sum - TWO_WORDS * over);
  }

  // The 32-bit index of the loop of update after k turns, and what is compared with the length then.
  function TurnIndex(index: nat, k: nat): nat
    requires index < BLOCK
  {
    if k == 0 then BLOCK - index else (TurnIndex(index, k - 1) + 64) % WORD
  }

  function TurnTest(index: nat, k: nat): nat
    requires index < BLOCK
  {
    (TurnIndex(index, k) + 63) % WORD
  }

  lemma {:induction false} TurnsAre(index: nat, k: nat)
    requires index < BLOCK
    ensures TurnIndex(index, k) == (BLOCK - index + BLOCK * k) % WORD
    ensures TurnTest(index, k) == (BLOCK - index + BLOCK * k + 63) % WORD
  {
    if k > 0 {
      TurnsAre(index, k - 1);
      AddWrapped(BLOCK - index + BLOCK * (k - 1), 64);
    }
    AddWrapped(BLOCK - index + BLOCK * k, 63);
  }

  lemma AddWrapped(a: nat, b: nat)
    ensures (a % WORD + b) % WORD == (a + b) % WORD
  {
    var q := a / WORD;
    assert a == WORD * q + a % WORD;
    var s := a % WORD + b;
    ModUnique(a + b, WORD, q + s / WORD, s % WORD);
  }

  // The loop ends exactly for pieces below 2^32 bytes together with what waits in the buffer. For
  // others the test never fails, and update does not return.
  lemma UpdateReturns(index: nat, n: nat)
    requires index < BLOCK
    ensures (exists k: nat :: TurnTest(index, k) >= n) <==> index + n < WORD
  {
    hide TurnTest;
    if index + n < WORD {
      var k := LastTest(index);
    } else {
      forall k: nat
        ensures TurnTest(index, k) < n
      {
        TestBelow(index, k);
      }
    }
  }

  lemma LastTest(index: nat) returns (k: nat)
    requires index < BLOCK
    ensures TurnTest(index, k) == WORD - 1 - index
  {
    hide TurnTest, TurnIndex;
    k := 0x3FF_FFFE;
    TurnsAre(index, k);
  }

  lemma TestBelow(index: nat, k: nat)
    requires index < BLOCK
    ensures TurnTest(index, k) <= WORD - 1 - index
  {
    TurnsAre(index, k);
    hide TurnTest;
    var v := BLOCK - index + BLOCK * k + 63;
    var q, r := v / WORD, v % WORD;
    assert v == WORD * q + r;
    assert r == BLOCK * (k + 1 - 0x400_0000 * q) + (63 - index);
  }

  // A piece of 2^32 bytes: update does not return, and its bits would not be counted. With one byte in
  // the buffer a byte less is too long as well.
  lemma TooLong()
    ensures forall k: nat :: TurnTest(0, k) < 0x1_0000_0000 && TurnTest(1, k) < 0xFFFF_FFFF
    ensures Counts(0, 0, 0) && Counted(0, 0, 0x1_0000_0000) == (0, 0) && !Counts(0, 0, 0x1_0000_0000)
  {
    forall k: nat
      ensures TurnTest(0, k) < 0x1_0000_0000 && TurnTest(1, k) < 0xFFFF_FFFF
    {
      TestBelow(0, k);
      TestBelow(1, k);
    }
    CountsExactly(0, 0, 0, 0x1_0000_0000);
  }

  // A sum that wraps around is less than what was added.
  lemma LowWord(count0: nat, low: nat)
    requires count0 < WORD && low < WORD
    ensures var c0 := (count0 + low) % WORD; var over := if count0 + low >= WORD then 1 else 0;
            c0 == count0 + low - WORD * over && (c0 < low <==> over == 1)
  {
  }

  lemma HighWord(count1: nat, over: nat, high: nat)
    requires count1 < WORD && over <= 1 && high < 8
    ensures var sum := count1 + over + high;
            ((count1 + over) % WORD + high) % WORD == if sum >= WORD then sum - WORD else sum
  {
  }

  lemma CountsIndex(count0: nat, count1: nat, bytes: nat)
    requires Counts(count0, count1, bytes)
    ensures count0 / 8 % BLOCK == bytes % BLOCK
  {
    var q := 8 * bytes / TWO_WORDS;
    assert 8 * bytes == TWO_WORDS * q + (count0 + WORD * count1);
    EighthIndex(count0, count1, q, bytes);
  }

  lemma EighthIndex(count0: nat, count1: nat, q: nat, bytes: nat)
    requires 8 * bytes == TWO_WORDS * q + (count0 + WORD * count1)
    ensures count0 / 8 % BLOCK == bytes % BLOCK
  {
    var z, k := 0x80_0000 * count1 + 0x80_0000_0000_0000 * q, count0 / 8;
    assert bytes == k + BLOCK * z && count0 == 8 * k;
    ModUnique(bytes, BLOCK, z + k / BLOCK, k % BLOCK);
  }

  lemma {:induction false} LittleEndianSplit(low: nat, high: nat, n: nat, k: nat)
    requires low < Pow256(n)
    ensures LittleEndian(low + Pow256(n) * high, n + k) == LittleEndian(low, n) + LittleEndian(high, k)
    decreases n
  {
    if n == 0 {
    } else {
      var p := Pow256(n - 1);
      assert low + Pow256(n) * high == 256 * (low / 256 + p * high) + low % 256 by {
        assert Pow256(n) * high == 256 * (p * high);
      }
      DivUnique(low + Pow256(n) * high, 256, low / 256 + p * high, low % 256);
      LittleEndianSplit(low / 256, high, n - 1, k);
    }
  }

  function Pow256(n: nat): nat {
    if n == 0 then 1 else 256 * Pow256(n - 1)
  }

  // The counter as it is appended.
  lemma CounterBytes(count0: nat, count1: nat, bytes: nat)
    requires Counts(count0, count1, bytes)
    ensures EncodeWords([count0, count1]) == LittleEndian(8 * bytes % TWO_WORDS, 8)
  {
    assert Pow256(4) == WORD;
    LittleEndianSplit(count0, count1, 4, 4);
    assert [count0, count1][..1] == [count0] && [count0][..0] == [];
    assert EncodeWords([count0]) == [] + LittleEndian(count0, 4);
  }

  // ---------------------------------------------------------------- the incremental computation

  class MD5Native {
    const transform: Transform
    var count0: nat
    var count1: nat
    var state: Words
    const buffer: array<byte>
    var finalized: bool
    var digestVal: Stream
    // The message, and the blocks of it that have been folded.
    ghost var message: Stream
    ghost var whole: Stream

    constructor (transform: Transform)
      ensures Valid() && message == [] && !finalized && fresh(buffer) && this.transform == transform
    {
      this.transform := transform;
      count0, count1, state := 0, 0, INIT;
      buffer := new byte[BLOCK](_ => 0);
      finalized, digestVal := false, Zeros(16);
      message, whole := [], [];
    }

    ghost predicate Valid()
      reads this, buffer
    {
      && buffer.Length == BLOCK && Counts(count0, count1, |message|)
      && Blocked(whole) && state == Fold(transform, INIT, whole)
      && |message| - |whole| == |message| % BLOCK && message == whole + buffer[..|message| - |whole|]
    }

    // A piece: a 32-bit index runs over it in steps of 64.
    method Update(input: Stream)
      requires Valid() && |message| % BLOCK + |input| < WORD
      modifies this`count0, this`count1, this`state, this`message, this`whole, buffer
      ensures Valid() && message == old(message) + input
    {
      hide Counts, Counted, Fold, Blocked;
      CountsIndex(count0, count1, |message|);
      CountsOn(count0, count1, |message|, |input|);
      var index := count0 / 8 % BLOCK;
      var counted := Counted(count0, count1, |input|);
      count0, count1 := counted.0, counted.1;
      ghost var n := Absorb(index, input);
      message := message + input;
      TailLength(whole, n);
    }

    // Whole blocks are transformed, and the rest is kept in the buffer.
    method Absorb(index: nat, input: Stream) returns (ghost n: nat)
      requires buffer.Length == BLOCK && index < BLOCK && index + |input| < WORD
      requires Blocked(whole) && state == Fold(transform, INIT, whole)
      modifies this`state, this`whole, buffer
      ensures n < BLOCK && whole + buffer[..n] == old(whole + buffer[..index]) + input
      ensures Blocked(whole) && state == Fold(transform, INIT, whole)
    {
      hide Fold, Blocked;
      var partLen := BLOCK - index;
      ghost var before := whole + buffer[..index];
      if |input| < partLen {
        Copy(index, input);
        return index + |input|;
      }
      Copy(index, input[..partLen]);
      TransformBlock(buffer[..]);
      assert whole == before + input[..partLen];
      var i := TransformBlocks(index, input);
      Copy(0, input[i..]);
      assert input == input[..i] + input[i..];
      return |input| - i;
    }

    // The loop over the blocks that are in the piece.
    method TransformBlocks(index: nat, input: Stream) returns (i: nat)
      requires index < BLOCK && index + |input| < WORD && BLOCK - index <= |input|
      requires Blocked(whole) && state == Fold(transform, INIT, whole)
      modifies this`state, this`whole
      ensures BLOCK - index <= i <= |input| && |input| - i < BLOCK
      ensures whole == old(whole) + input[BLOCK - index..i]
      ensures Blocked(whole) && state == Fold(transform, INIT, whole)
    {
      hide Fold, Blocked;
      i := BLOCK - index;
      ghost var turns := 0;
      NoWrap(index, turns, |input|);
      while (i + 63) % WORD < |input|
        invariant i == BLOCK - index + BLOCK * turns == TurnIndex(index, turns) <= |input|
        invariant (i + 63) % WORD == i + 63 == TurnTest(index, turns)
        invariant Blocked(whole) && state == Fold(transform, INIT, whole)
        invariant whole == old(whole) + input[BLOCK - index..i]
      {
        TransformBlock(input[i..i + 64]);
        assert input[BLOCK - index..i + 64] == input[BLOCK - index..i] + input[i..i + 64];
        i := (i + 64) % WORD;
        turns := turns + 1;
        NoWrap(index, turns, |input|);
      }
    }

    lemma NoWrap(index: nat, turns: nat, n: nat)
      requires index < BLOCK && index + n < WORD && BLOCK - index + BLOCK * turns <= n
      ensures var i := BLOCK - index + BLOCK * turns;
              && (i + 63) % WORD == i + 63 == TurnTest(index, turns)
              && i < WORD && i == TurnIndex(index, turns)
    {
      TurnsAre(index, turns);
    }

    method Copy(at: nat, part: Stream)
      requires buffer.Length == BLOCK && at + |part| <= BLOCK
      modifies buffer
      ensures buffer[..at + |part|] == old(buffer[..at]) + part
    {
      forall k | 0 <= k < |part| {
        buffer[at + k] := part[k];
      }
    }

    method TransformBlock(block: Stream)
      requires |block| == BLOCK && Blocked(whole) && state == Fold(transform, INIT, whole)
      modifies this`state, this`whole
      ensures whole == old(whole) + block && Blocked(whole) && state == Fold(transform, INIT, whole)
    {
      FoldNext(transform, INIT, whole, block);
      state := transform(state, block);
      whole := whole + block;
    }

    // The message is padded, its length counted before that is appended, and the state is the digest.
    method Finalize()
      requires Valid() && !finalized
      modifies this, buffer
      ensures finalized && digestVal == Digest(transform, old(message))
    {
      ghost var m := message;
      var bits := Encode([count0, count1]);
      CounterBytes(count0, count1, |m|);
      CountsIndex(count0, count1, |m|);
      var index := count0 / 8 % BLOCK;
      var padLen := if index < 56 then 56 - index else 120 - index;
      PaddedParts(m, padLen - 1);
      PaddedBlocked(m);
      hide Counts, Fold, EncodeWords, LittleEndian, Padded, Zeros;
      Update([0x80] + Zeros(padLen - 1));
      Update(bits);
      assert message == Padded(m);
      AllFolded();
      digestVal := Encode(state);
      state, count0, count1 := [0, 0, 0, 0], 0, 0;
      forall k | 0 <= k < BLOCK {
        buffer[k] := 0;
      }
      finalized := true;
    }

    lemma AllFolded()
      requires Valid() && Blocked(message)
      ensures state == Fold(transform, INIT, message)
    {
      assert buffer[..0] == [] && whole + [] == whole;
    }

    static method Encode(input: Words) returns (output: Stream)
      ensures output == EncodeWords(input)
    {
      output := [];
      for i := 0 to |input|
        invariant output == EncodeWords(input[..i])
      {
        var w := input[i];
        assert input[..i + 1][..i] == input[..i];
        FourBytes(w);
        output := output + [w % 256, w / 256 % 256, w / 0x1_0000 % 256, w / 0x100_0000 % 256];
      }
      assert input[..|input|] == input;
    }
  }

  lemma FourBytes(w: nat)
    ensures LittleEndian(w, 4) == [w % 256, w / 256 % 256, w / 0x1_0000 % 256, w / 0x100_0000 % 256]
  {
    assert w / 256 / 256 == w / 0x1_0000 && w / 256 / 256 / 256 == w / 0x100_0000;
    assert LittleEndian(w / 256 / 256, 2) == [w / 256 / 256 % 256, w / 256 / 256 / 256 % 256] by {
      assert LittleEndian(w / 256 / 256 / 256, 1) == [w / 256 / 256 / 256 % 256];
    }
  }

  const CHUNK := 0x4000_0000

  // Pl_MD5::write cuts what it is given into chunks, so it may be given anything.
  method WriteChunks(md5: MD5Native, data: Stream)
    requires md5.Valid()
    modifies md5`count0, md5`count1, md5`state, md5`message, md5`whole, md5.buffer
    ensures md5.Valid() && md5.message == old(md5.message) + data
  {
    var done := 0;
    while done < |data|
      invariant done <= |data| && md5.Valid() && md5.message == old(md5.message) + data[..done]
    {
      var n := if |data| - done >= CHUNK then CHUNK else |data| - done;
      md5.Update(data[done..done + n]);
      assert data[..done + n] == data[..done] + data[done..done + n];
      done := done + n;
    }
    assert data[..done] == data;
  }

  // However a message is cut into pieces, its digest is that of the whole.
  method DigestOf(transform: Transform, pieces: seq<Stream>) returns (digest: Stream)
    requires forall i :: 0 <= i < |pieces| ==> |Concat(pieces[..i])| % BLOCK + |pieces[i]| < WORD
    ensures digest == Digest(transform, Concat(pieces))
  {
    var md5 := new MD5Native(transform);
    for i := 0 to |pieces|
      invariant md5.Valid() && !md5.finalized && md5.message == Concat(pieces[..i])
      invariant fresh(md5) && fresh(md5.buffer) && md5.transform == transform
    {
      md5.Update(pieces[i]);
      assert pieces[..i + 1][..i] == pieces[..i];
    }
    assert pieces[..|pieces|] == pieces;
    md5.Finalize();
    digest := md5.digestVal;
  }
}
