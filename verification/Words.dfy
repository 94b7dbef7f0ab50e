/** Machine words as natural numbers: bitwise exclusive-or and 64-bit hashing. */
module Words {

  import opened Prelude

  const TWO64: nat := 0x1_0000_0000_0000_0000

  function Pow2(n: nat): (p: nat)
    ensures p > 0
  {
    if n == 0 then 1 else 2 * Pow2(n - 1)
  }

  /** Exclusive-or of the low `n` bits of `a` and `b`. */
  function Xor(a: nat, b: nat, n: nat): nat {
    if n == 0 then 0 else 2 * Xor(a / 2, b / 2, n - 1) + (a + b) % 2
  }

  lemma {:induction false} XorBound(a: nat, b: nat, n: nat)
    ensures Xor(a, b, n) < Pow2(n)
  {
    if n > 0 {
      XorBound(a / 2, b / 2, n - 1);
    }
  }

  lemma Octave(n: nat)
    ensures Pow2(n + 8) == 256 * Pow2(n)
    ensures n == 0 ==> Pow2(n) == 1
  {
    assert Pow2(n + 8) == 2 * Pow2(n + 7) == 4 * Pow2(n + 6);
    assert Pow2(n + 6) == 2 * Pow2(n + 5) == 4 * Pow2(n + 4);
    assert Pow2(n + 4) == 2 * Pow2(n + 3) == 4 * Pow2(n + 2);
    assert Pow2(n + 2) == 2 * Pow2(n + 1);
  }

  lemma WordSizes()
    ensures Pow2(8) == 256 && Pow2(16) == 0x1_0000 && Pow2(64) == TWO64
  {
    hide Pow2;
    Octave(0);
    Octave(8);
    Octave(16);
    Octave(24);
    Octave(32);
    Octave(40);
    Octave(48);
    Octave(56);
  }

  lemma {:induction false} XorUndo(a: nat, key: nat, n: nat)
    requires a < Pow2(n)
    ensures Xor(Xor(a, key, n), key, n) == a
  {
    if n > 0 {
      var h, bit := Xor(a / 2, key / 2, n - 1), (a + key) % 2;
      var x := 2 * h + bit;
      assert Xor(a, key, n) == x;
      assert Xor(x, key, n) == 2 * Xor(x / 2, key / 2, n - 1) + (x + key) % 2;
      hide Xor;
      assert a / 2 < Pow2(n - 1);
      hide Pow2;
      XorUndo(a / 2, key / 2, n - 1);
      Halves(h, bit);
      Parity(a, key, h);
    }
  }

  lemma Halves(h: nat, bit: nat)
    requires bit < 2
    ensures (2 * h + bit) / 2 == h
  {
  }

  lemma Parity(a: nat, key: nat, h: nat)
    ensures (2 * h + (a + key) % 2 + key) % 2 == a % 2
    ensures 2 * (a / 2) + a % 2 == a
  {
  }

  lemma XorUnfolded(a: nat, b: nat, n: nat)
    requires n > 0
    ensures Xor(a, b, n) % 2 == (a + b) % 2 && Xor(a, b, n) / 2 == Xor(a / 2, b / 2, n - 1)
  {
    Halves(Xor(a / 2, b / 2, n - 1), (a + b) % 2);
  }

  lemma BitsDiffer(a: nat, b: nat)
    ensures (a + b) % 2 == 1 <==> (a % 2 == 1) != (b % 2 == 1)
  {
  }

  /** Bit `i` of a number. */
  predicate Bit(x: nat, i: nat) { x / Pow2(i) % 2 == 1 }

  lemma BitHalved(x: nat, i: nat)
    ensures Bit(x, 0) <==> x % 2 == 1
    ensures i > 0 ==> (Bit(x, i) <==> Bit(x / 2, i - 1))
  {
    if i > 0 {
      DivDiv(x, Pow2(i - 1));
    }
  }

  /** Bit by bit: a bit of the result is set if and only if exactly one of the two bits is. */
  lemma {:induction false} XorBit(a: nat, b: nat, n: nat, i: nat)
    requires i < n
    ensures Bit(Xor(a, b, n), i) <==> Bit(a, i) != Bit(b, i)
    decreases n
  {
    hide Xor, Bit;
    XorUnfolded(a, b, n);
    BitsDiffer(a, b);
    BitHalved(Xor(a, b, n), i);
    BitHalved(a, i);
    BitHalved(b, i);
    if i > 0 {
      XorBit(a / 2, b / 2, n - 1, i - 1);
    }
  }

  lemma DivDiv(x: nat, d: nat)
    requires d > 0
    ensures x / (2 * d) == x / 2 / d
  {
    var q, r := x / 2 / d, x / 2 % d;
    assert x / 2 == q * d + r;
    assert 2 * (x / 2) == q * (2 * d) + 2 * r;
    QuotientUnique(x, 2 * d, q, 2 * r + x % 2);
  }

  lemma Multiple(k: int, d: nat)
    ensures k >= 1 ==> k * d >= d
    ensures k <= -1 ==> k * d <= 0 - d
  {
  }

  lemma QuotientUnique(x: nat, d: nat, q: nat, r: nat)
    requires d > 0 && x == q * d + r && r < d
    ensures x / d == q
  {
    var q', r' := x / d, x % d;
    assert x == q' * d + r';
    Multiple(q - q', d);
    assert (q - q') * d == q * d - q' * d;
  }

  /** The low lane of an exclusive-or is that of the low lanes. */
  lemma LowLane(a: nat, b: nat)
    ensures Xor(a, b, 64) % 0x1_0000 == Xor(a % 0x1_0000, b % 0x1_0000, 16)
  {
    WordSizes();
    XorLow(a, b, 64, 16);
    XorOfLow(a, b, 16);
  }

  lemma {:induction false} XorLow(a: nat, b: nat, n: nat, k: nat)
    requires k <= n
    ensures Xor(a, b, n) % Pow2(k) == Xor(a, b, k)
    decreases k
  {
    if k > 0 {
      XorLow(a / 2, b / 2, n - 1, k - 1);
      ModHalves(Xor(a / 2, b / 2, n - 1), (a + b) % 2, Pow2(k - 1));
    }
  }

  lemma ModHalves(h: nat, bit: nat, p: nat)
    requires bit < 2 && p > 0
    ensures (2 * h + bit) % (2 * p) == 2 * (h % p) + bit
  {
    var q := h / p;
    assert 2 * h + bit == q * (2 * p) + (2 * (h % p) + bit);
    QuotientUnique(2 * h + bit, 2 * p, q, 2 * (h % p) + bit);
  }

  lemma SameParity(a: nat, b: nat, u: nat, v: nat)
    requires u % 2 == a % 2 && v % 2 == b % 2
    ensures (u + v) % 2 == (a + b) % 2
  {
  }

  lemma {:induction false} XorOfLow(a: nat, b: nat, k: nat)
    ensures Xor(a % Pow2(k), b % Pow2(k), k) == Xor(a, b, k)
    decreases k
  {
    if k > 0 {
      var p := Pow2(k - 1);
      LowHalf(a, p);
      LowHalf(b, p);
      OneStep(a, b, a % (2 * p), b % (2 * p), k);
      XorOfLow(a / 2, b / 2, k - 1);
    }
  }

  lemma OneStep(a: nat, b: nat, u: nat, v: nat, k: nat)
    requires k > 0 && u % 2 == a % 2 && v % 2 == b % 2
    ensures Xor(u, v, k) == Xor(a, b, k) <==> Xor(u / 2, v / 2, k - 1) == Xor(a / 2, b / 2, k - 1)
  {
    hide Xor;
    XorUnfolded(a, b, k);
    XorUnfolded(u, v, k);
    SameParity(a, b, u, v);
  }

  lemma LowHalf(a: nat, p: nat)
    requires p > 0
    ensures a % (2 * p) / 2 == a / 2 % p && a % (2 * p) % 2 == a % 2
  {
    ModHalves(a / 2, a % 2, p);
  }

  lemma {:induction false} XorSwap(a: nat, b: nat, n: nat)
    ensures Xor(a, b, n) == Xor(b, a, n)
  {
    if n > 0 {
      XorSwap(a / 2, b / 2, n - 1);
    }
  }

  // ---------------------------------------------------------------- FNV-1a, 64 bits

  const FNV_OFFSET: nat := 0xcbf2_9ce4_8422_2325
  const FNV_PRIME: nat := 0x0000_0100_0000_01b3
  /** The inverse of the prime modulo 2^64; the prime is odd. */
  const FNV_INVERSE: nat := 0xce96_5057_aff6_957b

  function WrappingMul(a: nat, b: nat): (r: nat)
    ensures r < TWO64
  {
    a * b % TWO64
  }

  function Fnv1aFrom(hash: nat, bytes: Bytes): (r: nat)
    requires hash < TWO64
    ensures r < TWO64
    decreases |bytes|
  {
    if bytes == [] then hash
    else Fnv1aFrom(WrappingMul(Xor(hash, bytes[0], 64), FNV_PRIME), bytes[1..])
  }

  function Fnv1a64(bytes: Bytes): (r: nat)
    ensures r < TWO64
  {
    Fnv1aFrom(FNV_OFFSET, bytes)
  }

  method HashBytes(bytes: Bytes) returns (hash: nat)
    ensures hash == Fnv1a64(bytes)
  {
    hash := FNV_OFFSET;
    var i := 0;
    while i < |bytes|
      invariant 0 <= i <= |bytes| && hash < TWO64
      invariant Fnv1aFrom(hash, bytes[i..]) == Fnv1a64(bytes)
    {
      assert bytes[i..][1..] == bytes[i + 1..];
      hash := WrappingMul(Xor(hash, bytes[i], 64), FNV_PRIME);
      i := i + 1;
    }
  }

  lemma Residue(a: int, t: int)
    requires 0 <= a < 0x1_0000_0000_0000_0000
    ensures (a + t * 0x1_0000_0000_0000_0000) % 0x1_0000_0000_0000_0000 == a
  {
  }

  lemma PrimeTimesInverse(a: int, q: int)
    ensures (a * 0x0000_0100_0000_01b3 - q * 0x1_0000_0000_0000_0000) * 0xce96_5057_aff6_957b
            == a + (a * 887285111055 - q * 0xce96_5057_aff6_957b) * 0x1_0000_0000_0000_0000
  {
  }

  /** Multiplying by the prime modulo 2^64 loses nothing. */
  lemma PrimeMulUndo(a: nat)
    requires a < TWO64
    ensures WrappingMul(WrappingMul(a, FNV_PRIME), FNV_INVERSE) == a
  {
    var q := a * 0x0000_0100_0000_01b3 / 0x1_0000_0000_0000_0000;
    PrimeTimesInverse(a, q);
    Residue(a, a * 887285111055 - q * 0xce96_5057_aff6_957b);
  }

  /** The hash from the front, byte by byte: start at the offset, then exclusive-or and multiply by the prime modulo 2^64. */
  lemma Fnv1aExactly(bytes: Bytes, b: byte)
    ensures Fnv1a64([]) == 0xcbf2_9ce4_8422_2325
    ensures Fnv1a64(bytes + [b]) == Xor(Fnv1a64(bytes), b, 64) * 0x0000_0100_0000_01b3 % 0x1_0000_0000_0000_0000
  {
    OneMoreByte(FNV_OFFSET, bytes, b);
  }

  lemma {:induction false} OneMoreByte(hash: nat, bytes: Bytes, b: byte)
    requires hash < TWO64
    ensures Fnv1aFrom(hash, bytes + [b]) == WrappingMul(Xor(Fnv1aFrom(hash, bytes), b, 64), FNV_PRIME)
    decreases |bytes|
  {
    hide Xor, WrappingMul;
    var all := bytes + [b];
    if bytes == [] {
      assert all == [b] && all[1..] == [];
    } else {
      assert all[1..] == bytes[1..] + [b];
      OneMoreByte(WrappingMul(Xor(hash, bytes[0], 64), FNV_PRIME), bytes[1..], b);
    }
  }
}
