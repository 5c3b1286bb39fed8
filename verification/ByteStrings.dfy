/** Byte strings, and the little-endian integers the wire formats store in them. */
module ByteStrings {
  import opened Wrappers

  type Byte = b: nat | b < 256

  type Bytes = seq<Byte>

  const TWO32: nat := 0x1_0000_0000
  const TWO64: nat := 0x1_0000_0000_0000_0000

  /** The `k` lowest bytes of `n`, lowest first. */
  function LowBytes(n: nat, k: nat): (s: Bytes)
    ensures |s| == k
  {
    if k == 0 then [] else [n % 256] + LowBytes(n / 256, k - 1)
  }

  /** The low 32 bits of `n`. */
  function LittleEndian32(n: nat): (s: Bytes)
    ensures |s| == 4
  {
    LowBytes(n, 4)
  }

  /** `k` bytes of `s` from `p` on, lowest first. */
  function Word(s: Bytes, p: nat, k: nat): nat
    requires p + k <= |s|
    decreases k
  {
    if k == 0 then 0
    else
      var low: nat := s[p];
      low + 256 * Word(s, p + 1, k - 1)
  }

  function Pow256(k: nat): nat {
    if k == 0 then 1 else 256 * Pow256(k - 1)
  }

  /** Reads past the end are `None`. */
  function U16At(s: Bytes, p: nat): Option<nat> {
    if p + 2 > |s| then None else Some(Word(s, p, 2))
  }

  function U32At(s: Bytes, p: nat): Option<nat> {
    if p + 4 > |s| then None else Some(Word(s, p, 4))
  }

  /** A word read as a two's complement signed one. */
  function Signed(n: nat, modulus: nat): int {
    if n < modulus / 2 then n else n - modulus
  }

  function I32At(s: Bytes, p: nat): Option<int> {
    if p + 4 > |s| then None else Some(Signed(Word(s, p, 4), TWO32))
  }

  function I64At(s: Bytes, p: nat): Option<int> {
    if p + 8 > |s| then None else Some(Signed(Word(s, p, 8), TWO64))
  }

  lemma {:induction false} WordBounded(s: Bytes, p: nat, k: nat)
    requires p + k <= |s|
    ensures Word(s, p, k) < Pow256(k)
    decreases k
  {
    if k > 0 {
      WordBounded(s, p + 1, k - 1);
    }
  }

  lemma PowersOf256()
    ensures Pow256(4) == TWO32 && Pow256(8) == TWO64
  {
    assert Pow256(2) == 0x1_0000 && Pow256(6) == 0x1_0000_0000_0000;
  }

  lemma {:induction false} WordElsewhere(s: Bytes, p: nat, t: Bytes, q: nat, k: nat)
    requires p + k <= |s| && q + k <= |t| && s[p..p + k] == t[q..q + k]
    ensures Word(s, p, k) == Word(t, q, k)
    decreases k
  {
    if k > 0 {
      assert s[p..p + k][0] == s[p] && t[q..q + k][0] == t[q];
      assert s[p + 1..p + 1 + (k - 1)] == s[p..p + k][1..] && t[q + 1..q + 1 + (k - 1)] == t[q..q + k][1..];
      WordElsewhere(s, p + 1, t, q + 1, k - 1);
    }
  }

  /** Reading back the low bytes of a number that fits gives the number. */
  lemma {:induction false} WordReadsBack(n: nat, k: nat)
    requires n < Pow256(k)
    ensures Word(LowBytes(n, k), 0, k) == n
    decreases k
  {
    if k > 0 {
      WordReadsBack(n / 256, k - 1);
      var s, rest := LowBytes(n, k), LowBytes(n / 256, k - 1);
      assert s[1..1 + (k - 1)] == rest[0..0 + (k - 1)];
      WordElsewhere(s, 1, rest, 0, k - 1);
    }
  }

  lemma ReadsBack32(n: nat, rest: Bytes)
    requires n < TWO32
    ensures U32At(LittleEndian32(n) + rest, 0) == Some(n)
  {
    PowersOf256();
    WordReadsBack(n, 4);
    var word := LittleEndian32(n);
    assert (word + rest)[0..4] == word[0..4];
    WordElsewhere(word + rest, 0, word, 0, 4);
  }

  lemma U32Bounded(s: Bytes, p: nat)
    ensures U32At(s, p).Some? ==> U32At(s, p).value < TWO32
  {
    if p + 4 <= |s| {
      PowersOf256();
      WordBounded(s, p, 4);
    }
  }

  /** The bytes read are the low bytes of the word. */
  lemma {:induction false} EncodesWord(s: Bytes, p: nat, k: nat)
    requires p + k <= |s|
    ensures LowBytes(Word(s, p, k), k) == s[p..p + k]
    decreases k
  {
    if k > 0 {
      EncodesWord(s, p + 1, k - 1);
      LowAndRest(s[p], Word(s, p + 1, k - 1));
      HeadAndTail(s, p, k);
    }
  }

  lemma LowAndRest(low: nat, rest: nat)
    requires low < 256
    ensures (low + 256 * rest) % 256 == low && (low + 256 * rest) / 256 == rest
  {
  }

  lemma HeadAndTail(s: Bytes, p: nat, k: nat)
    requires 0 < k && p + k <= |s|
    ensures s[p..p + k] == [s[p]] + s[p + 1..p + k]
  {
  }

  lemma EncodesWhatItReads(s: Bytes)
    requires |s| >= 4
    ensures LittleEndian32(U32At(s, 0).value) == s[..4]
  {
    EncodesWord(s, 0, 4);
  }

  /** Only the low bytes of a number are written. */
  lemma {:induction false} LowBytesWrap(n: nat, m: nat, k: nat)
    ensures LowBytes(n + Pow256(k) * m, k) == LowBytes(n, k)
    decreases k
  {
    if k > 0 {
      var whole, rest := n + Pow256(k) * m, n / 256 + Pow256(k - 1) * m;
      assert Pow256(k) * m == 256 * (Pow256(k - 1) * m);
      assert whole % 256 == n % 256 && whole / 256 == rest;
      LowBytesWrap(n / 256, m, k - 1);
    }
  }

  lemma LittleEndianWraps(n: nat)
    ensures LittleEndian32(n) == LittleEndian32(n % TWO32)
  {
    PowersOf256();
    LowBytesWrap(n % TWO32, n / TWO32, 4);
  }
}
