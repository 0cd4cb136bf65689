/** Bytes, and bits with the most significant one first. */
module Bytes {
  type byte = b: int | 0 <= b < 256

  function Repeat(n: nat, b: byte): (r: seq<byte>)
    ensures |r| == n
  {
    seq(n, _ => b)
  }

  function Zeros(n: nat): seq<byte> {
    Repeat(n, 0)
  }

  function Concat(pieces: seq<seq<byte>>): seq<byte> {
    if pieces == [] then [] else Concat(pieces[..|pieces| - 1]) + pieces[|pieces| - 1]
  }

  function Pow2(n: nat): (r: nat)
    ensures r >= 1
  {
    if n == 0 then 1 else 2 * Pow2(n - 1)
  }

  lemma {:induction false} Pow2Add(a: nat, b: nat)
    ensures Pow2(a + b) == Pow2(a) * Pow2(b)
  {
    if a > 0 {
      Pow2Add(a - 1, b);
      assert Pow2(a) * Pow2(b) == 2 * (Pow2(a - 1) * Pow2(b));
    }
  }

  lemma Pow2Small()
    ensures Pow2(0) == 1 && Pow2(1) == 2 && Pow2(2) == 4 && Pow2(3) == 8 && Pow2(4) == 16
    ensures Pow2(5) == 32 && Pow2(6) == 64 && Pow2(7) == 128 && Pow2(8) == 256
  {
    assert Pow2(3) == 8 && Pow2(6) == 64;
  }

  // The n low bits of v.
  function Bits(v: nat, n: nat): (r: seq<bool>)
    ensures |r| == n
  {
    if n == 0 then [] else Bits(v / 2, n - 1) + [v % 2 == 1]
  }

  function Value(bits: seq<bool>): nat {
    if bits == [] then 0 else 2 * Value(bits[..|bits| - 1]) + if bits[|bits| - 1] then 1 else 0
  }

  function BitsOf(data: seq<byte>): (r: seq<bool>)
    ensures |r| == 8 * |data|
  {
    if data == [] then [] else BitsOf(data[..|data| - 1]) + Bits(data[|data| - 1], 8)
  }

  lemma {:induction false} ValueAppend(a: seq<bool>, b: seq<bool>)
    ensures Value(a + b) == Value(a) * Pow2(|b|) + Value(b)
  {
    if b == [] {
      assert a + b == a;
    } else {
      var b', x := b[..|b| - 1], if b[|b| - 1] then 1 else 0;
      ValueAppend(a, b');
      assert (a + b)[..|a + b| - 1] == a + b';
      assert Value(a) * Pow2(|b|) == 2 * (Value(a) * Pow2(|b'|));
    }
  }

  lemma {:induction false} ValueBits(v: nat, n: nat)
    requires v < Pow2(n)
    ensures Value(Bits(v, n)) == v
  {
    if n > 0 {
      ValueBits(v / 2, n - 1);
      assert Bits(v, n)[..n - 1] == Bits(v / 2, n - 1);
    }
  }

  lemma {:induction false} ValueBound(bits: seq<bool>)
    ensures Value(bits) < Pow2(|bits|)
  {
    if bits != [] {
      ValueBound(bits[..|bits| - 1]);
    }
  }

  // Shifting right keeps the leading bits, masking keeps the trailing ones.
  lemma {:induction false} BitsPrefix(v: nat, n: nat, k: nat)
    requires k <= n
    ensures Bits(v, n)[..k] == Bits(v / Pow2(n - k), k)
  {
    if k < n {
      BitsPrefix(v / 2, n - 1, k);
      assert Bits(v, n)[..k] == Bits(v / 2, n - 1)[..k];
      DivDiv(v, 2, Pow2(n - 1 - k));
    } else {
      assert Bits(v, n)[..n] == Bits(v, n);
    }
  }

  lemma MulMono(m: nat, a: nat, b: nat)
    requires a <= b
    ensures m * a <= m * b
  {
  }

  lemma DivUnique(v: nat, m: nat, q: nat, r: nat)
    requires m > 0 && v == m * q + r && r < m
    ensures v / m == q && v % m == r
  {
    var q', r' := v / m, v % m;
    assert v == m * q' + r';
    if q' < q {
      MulMono(m, q' + 1, q);
    } else if q < q' {
      MulMono(m, q + 1, q');
    }
  }

  lemma DivDiv(v: nat, a: nat, b: nat)
    requires a > 0 && b > 0
    ensures a * b > 0 && v / a / b == v / (a * b)
  {
    var w, r := v / a, v % a;
    var q, r' := w / b, w % b;
    MulMono(a, r' + 1, b);
    MulMono(a, 1, b);
    DivDivParts(v, a, b, w, r, q, r');
    DivUnique(v, a * b, q, a * r' + r);
  }

  lemma DivDivParts(v: nat, a: nat, b: nat, w: nat, r: nat, q: nat, r': nat)
    requires v == a * w + r && w == b * q + r'
    ensures v == (a * b) * q + (a * r' + r)
  {
    assert a * (b * q + r') == a * (b * q) + a * r';
    assert a * (b * q) == (a * b) * q;
  }

  lemma {:induction false} BitsSuffix(v: nat, n: nat, k: nat)
    requires k <= n
    ensures Bits(v, n)[n - k..] == Bits(v % Pow2(k), k)
  {
    if k == 0 {
      assert Bits(v, n)[n..] == [];
    } else {
      BitsSuffix(v / 2, n - 1, k - 1);
      var w := v % Pow2(k);
      assert Bits(v, n)[n - k..] == Bits(v / 2, n - 1)[n - k..] + [v % 2 == 1];
      ModHalf(v, Pow2(k - 1));
      assert w / 2 == (v / 2) % Pow2(k - 1) && w % 2 == v % 2;
    }
  }

  lemma ModHalf(v: nat, m: nat)
    requires m > 0
    ensures (v % (2 * m)) / 2 == (v / 2) % m && (v % (2 * m)) % 2 == v % 2
  {
    var q, r := (v / 2) / m, (v / 2) % m;
    assert v == 2 * (v / 2) + v % 2;
    assert v / 2 == m * q + r;
    assert v == (2 * m) * q + (2 * r + v % 2) by {
      assert 2 * (m * q) == (2 * m) * q;
    }
    DivUnique(v, 2 * m, q, 2 * r + v % 2);
  }

  lemma {:induction false} BitsOfAppend(a: seq<byte>, b: seq<byte>)
    ensures BitsOf(a + b) == BitsOf(a) + BitsOf(b)
  {
    if b == [] {
      assert a + b == a;
    } else {
      var b' := b[..|b| - 1];
      BitsOfAppend(a, b');
      assert (a + b)[..|a + b| - 1] == a + b';
      assert BitsOf(a + b) == (BitsOf(a) + BitsOf(b')) + Bits(b[|b| - 1], 8);
    }
  }
}
