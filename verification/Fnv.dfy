/**
  FNV-1a (draft-eastlake-fnv, section 2) over 32 and 64 bits: xor a byte in,
  multiply by an odd prime, keep the low word. Both primes have an inverse modulo
  the word size, so every byte step can be undone.

  Words are integers below a modulus; the wrap-around is written out.
*/
module Fnv {
  import opened ByteStrings

  /** A word size with its FNV constants; `inverse * prime` is one more than `excess` times the modulus. */
  datatype Width = Width(bits: nat, modulus: nat, offset: nat, prime: nat, inverse: nat, excess: nat)

  const W32 := Width(32, 0x1_0000_0000, 2166136261, 16777619, 0x359C_449B, 3513497)

  const W64 := Width(64, 0x1_0000_0000_0000_0000, 0xcbf2_9ce4_8422_2325, 0x0000_0100_0000_01b3,
                     0xce96_5057_aff6_957b, 887285111055)

  predicate Known(w: Width) {
    w == W32 || w == W64
  }

  // ---------- xor ----------

  /** Bitwise exclusive or. */
  function Xor(a: nat, b: nat): nat {
    if a == 0 && b == 0 then 0
    else (if a % 2 == b % 2 then 0 else 1) + 2 * Xor(a / 2, b / 2)
  }

  function Pow2(k: nat): nat {
    if k == 0 then 1 else 2 * Pow2(k - 1)
  }

  lemma {:induction false} XorFits(a: nat, b: nat, k: nat)
    requires a < Pow2(k) && b < Pow2(k)
    ensures Xor(a, b) < Pow2(k)
    decreases k
  {
    if k > 0 && !(a == 0 && b == 0) {
      XorFits(a / 2, b / 2, k - 1);
    }
  }

  lemma {:induction false} XorHalves(a: nat, b: nat)
    ensures Xor(a, b) % 2 == (if a % 2 == b % 2 then 0 else 1)
    ensures Xor(a, b) / 2 == Xor(a / 2, b / 2)
  {
  }

  /** Xoring the same value twice does nothing. */
  lemma {:induction false} XorUndone(a: nat, b: nat)
    ensures Xor(Xor(a, b), b) == a
    decreases a + b
  {
    if !(a == 0 && b == 0) {
      XorUndone(a / 2, b / 2);
      XorHalves(a, b);
      XorHalves(Xor(a, b), b);
    }
  }

  lemma {:induction false} XorCommutes(a: nat, b: nat)
    ensures Xor(a, b) == Xor(b, a)
    decreases a + b
  {
    if !(a == 0 && b == 0) {
      XorCommutes(a / 2, b / 2);
    }
  }

  // ---------- one byte ----------

  function Mix(w: Width, hash: nat, b: Byte): (h: nat)
    requires Known(w)
    ensures h < w.modulus
  {
    (Xor(hash, b) * w.prime) % w.modulus
  }

  function Unmix(w: Width, hash: nat, b: Byte): nat
    requires Known(w)
  {
    Xor((hash * w.inverse) % w.modulus, b)
  }

  function Hash(w: Width, hash: nat, s: Bytes): nat
    requires Known(w)
    decreases |s|
  {
    if s == [] then hash else Hash(w, Mix(w, hash, s[0]), s[1..])
  }

  lemma ModShift(x: nat, m: nat, t: int)
    requires x < m
    ensures (x + m * t) % m == x
  {
    var z := x + m * t;
    var d, s := z / m, z % m;
    assert m * (t - d) == s - x;
    Multiples(m, t - d);
  }

  lemma Multiples(m: nat, k: int)
    ensures k >= 1 ==> m * k >= m
    ensures k <= -1 ==> m * k <= 0 - m
  {
  }

  /** Multiplying by `p` and then by its inverse modulo `m` gives the number back. */
  lemma InverseCancels(x: nat, m: nat, p: nat, inv: nat, excess: nat)
    requires x < m && p * inv == 1 + excess * m
    ensures ((x * p) % m * inv) % m == x
  {
    var q, r := x * p / m, x * p % m;
    Recombined(x, m, p, inv, excess, q, r);
    ModShift(x, m, excess * x - q * inv);
  }

  /** The remainder times the inverse is `x` and a multiple of `m`. */
  lemma Recombined(x: nat, m: nat, p: nat, inv: nat, excess: nat, q: nat, r: nat)
    requires p * inv == 1 + excess * m && x * p == m * q + r
    ensures r * inv == x + m * (excess * x - q * inv)
  {
    calc {
      r * inv;
      (x * p - m * q) * inv;
      x * (p * inv) - m * (q * inv);
      x * (1 + excess * m) - m * (q * inv);
      x + m * (excess * x) - m * (q * inv);
    }
  }

  lemma PrimeCancels(w: Width, x: nat)
    requires Known(w) && x < w.modulus
    ensures ((x * w.prime) % w.modulus * w.inverse) % w.modulus == x
    ensures ((x * w.inverse) % w.modulus * w.prime) % w.modulus == x
  {
    InverseCancels(x, w.modulus, w.prime, w.inverse, w.excess);
    InverseCancels(x, w.modulus, w.inverse, w.prime, w.excess);
  }

  lemma WordXorFits(w: Width, hash: nat, b: Byte)
    requires Known(w) && hash < w.modulus
    ensures Xor(hash, b) < w.modulus
  {
    assert Pow2(8) == 256 && Pow2(16) == 0x1_0000 && Pow2(24) == 0x100_0000;
    assert Pow2(32) == 0x1_0000_0000;
    assert Pow2(40) == 0x100_0000_0000 && Pow2(48) == 0x1_0000_0000_0000 && Pow2(56) == 0x100_0000_0000_0000;
    assert Pow2(64) == 0x1_0000_0000_0000_0000;
    XorFits(hash, b, w.bits);
  }

  /** Every byte step is a bijection on the words: its inverse multiplies back and xors the byte out. */
  lemma StepInverts(w: Width, hash: nat, b: Byte)
    requires Known(w) && hash < w.modulus
    ensures Unmix(w, Mix(w, hash, b), b) == hash
    ensures Unmix(w, hash, b) < w.modulus && Mix(w, Unmix(w, hash, b), b) == hash
  {
    WordXorFits(w, hash, b);
    PrimeCancels(w, Xor(hash, b));
    XorUndone(hash, b);
    var back := (hash * w.inverse) % w.modulus;
    WordXorFits(w, back, b);
    XorUndone(back, b);
    PrimeCancels(w, hash);
  }

  /** From one state, two different bytes lead to two different states. */
  lemma BytesSeparate(w: Width, hash: nat, a: Byte, b: Byte)
    requires Known(w) && hash < w.modulus && Mix(w, hash, a) == Mix(w, hash, b)
    ensures a == b
  {
    WordXorFits(w, hash, a);
    WordXorFits(w, hash, b);
    PrimeCancels(w, Xor(hash, a));
    PrimeCancels(w, Xor(hash, b));
    assert Xor(hash, a) == Xor(hash, b);
    XorCommutes(hash, a);
    XorCommutes(hash, b);
    XorUndone(a, hash);
    XorUndone(b, hash);
  }

  // ---------- whole strings ----------

  /** Two states never merge, whatever is hashed after them. */
  lemma {:induction false} StatesStayApart(w: Width, g: nat, h: nat, s: Bytes)
    requires Known(w) && g < w.modulus && h < w.modulus
    requires Hash(w, g, s) == Hash(w, h, s)
    ensures g == h
    decreases |s|
  {
    if s != [] {
      StatesStayApart(w, Mix(w, g, s[0]), Mix(w, h, s[0]), s[1..]);
      StepInverts(w, g, s[0]);
      StepInverts(w, h, s[0]);
    }
  }

  ghost predicate DifferOnlyAt(s: Bytes, t: Bytes, i: nat) {
    && |s| == |t| && i < |s| && s[i] != t[i]
    && forall j :: 0 <= j < |s| && j != i ==> s[j] == t[j]
  }

  /** Two strings of one length that differ in exactly one byte never hash alike. */
  lemma {:induction false} OneByteChangesHash(w: Width, hash: nat, s: Bytes, t: Bytes, i: nat)
    requires Known(w) && hash < w.modulus && DifferOnlyAt(s, t, i)
    ensures Hash(w, hash, s) != Hash(w, hash, t)
    decreases i
  {
    if i > 0 {
      assert DifferOnlyAt(s[1..], t[1..], i - 1);
      OneByteChangesHash(w, Mix(w, hash, s[0]), s[1..], t[1..], i - 1);
    } else {
      assert s[1..] == t[1..];
      FirstByteChangesHash(w, hash, s[0], t[0], s[1..]);
    }
  }

  lemma FirstByteChangesHash(w: Width, hash: nat, a: Byte, b: Byte, rest: Bytes)
    requires Known(w) && hash < w.modulus && a != b
    ensures Hash(w, Mix(w, hash, a), rest) != Hash(w, Mix(w, hash, b), rest)
  {
    if Mix(w, hash, a) == Mix(w, hash, b) {
      BytesSeparate(w, hash, a, b);
    } else if Hash(w, Mix(w, hash, a), rest) == Hash(w, Mix(w, hash, b), rest) {
      StatesStayApart(w, Mix(w, hash, a), Mix(w, hash, b), rest);
    }
  }

  lemma {:induction false} HashConcat(w: Width, hash: nat, s: Bytes, t: Bytes)
    requires Known(w)
    ensures Hash(w, hash, s + t) == Hash(w, Hash(w, hash, s), t)
    decreases |s|
  {
    if s == [] {
      assert s + t == t;
    } else {
      assert (s + t)[1..] == s[1..] + t;
      HashConcat(w, Mix(w, hash, s[0]), s[1..], t);
    }
  }

  // ---------- the loop ----------

  method MixAll(w: Width, start: nat, s: Bytes) returns (hash: nat)
    requires Known(w)
    ensures hash == Hash(w, start, s)
  {
    hash := start;
    var i := 0;
    assert s[0..] == s;
    while i < |s|
      invariant i <= |s| && Hash(w, start, s) == Hash(w, hash, s[i..])
    {
      assert s[i..][1..] == s[i + 1..];
      hash := Mix(w, hash, s[i]);
      i := i + 1;
    }
  }

  /** The 64-bit checksum every component of the integrity run carries, before it is read as signed. */
  method Fnv1a64(s: Bytes) returns (hash: nat)
    ensures hash == Hash(W64, W64.offset, s)
  {
    hash := MixAll(W64, W64.offset, s);
  }
}
