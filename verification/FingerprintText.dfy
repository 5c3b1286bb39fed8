/**
  The fingerprint from its definition: the eight lower-case hexadecimal digits of
  the 32-bit FNV-1a (draft-eastlake-fnv, section 2) of the names and versions, with
  every constant written out and the bytes taken first to last.
*/
module FingerprintText {
  import opened ByteStrings
  import opened Components
  import opened Fnv
  import opened HashedNames
  import opened Sequences

  // ---------- xor ----------

  type Bit = b: nat | b < 2

  /** `high` followed by the given bits, highest first. */
  function Number(high: nat, bits: seq<Bit>): nat
    decreases |bits|
  {
    if bits == [] then high else Number(2 * high + bits[0], bits[1..])
  }

  /** One bit for every place: set where the two differ. */
  function Differences(x: seq<Bit>, y: seq<Bit>): seq<Bit>
    requires |x| == |y|
  {
    if x == [] then [] else [if x[0] == y[0] then 0 else 1] + Differences(x[1..], y[1..])
  }

  lemma XorBit(a: nat, b: nat, x: Bit, y: Bit)
    ensures Xor(2 * a + x, 2 * b + y) == 2 * Xor(a, b) + (if x == y then 0 else 1)
  {
    if !(2 * a + x == 0 && 2 * b + y == 0) {
      assert (2 * a + x) / 2 == a && (2 * b + y) / 2 == b;
      assert (2 * a + x) % 2 == x && (2 * b + y) % 2 == y;
    }
  }

  lemma {:induction false} XorBelow(a: nat, x: seq<Bit>, b: nat, y: seq<Bit>)
    requires |x| == |y|
    ensures Xor(Number(a, x), Number(b, y)) == Number(Xor(a, b), Differences(x, y))
    decreases |x|
  {
    if x != [] {
      XorBit(a, b, x[0], y[0]);
      XorBelow(2 * a + x[0], x[1..], 2 * b + y[0], y[1..]);
    }
  }

  /** The exclusive or of two words of one length has a bit exactly where they differ. */
  lemma XorIsBitwise(x: seq<Bit>, y: seq<Bit>)
    requires |x| == |y|
    ensures Xor(Number(0, x), Number(0, y)) == Number(0, Differences(x, y))
  {
    XorBelow(0, x, 0, y);
  }

  // ---------- the hash ----------

  /** FNV-1a over 32 bits, the last byte mixed in last. */
  function Fnv32(s: Bytes): nat {
    if s == [] then 2166136261
    else (Xor(Fnv32(s[..|s| - 1]), s[|s| - 1]) * 16777619) % 0x1_0000_0000
  }

  /** FNV-1a over 64 bits. */
  function Fnv64(s: Bytes): nat {
    if s == [] then 0xcbf2_9ce4_8422_2325
    else (Xor(Fnv64(s[..|s| - 1]), s[|s| - 1]) * 0x100_0000_01b3) % 0x1_0000_0000_0000_0000
  }

  lemma HashMore(w: Width, hash: nat, s: Bytes, b: Byte)
    requires Known(w)
    ensures Hash(w, hash, s + [b]) == Mix(w, Hash(w, hash, s), b)
  {
    HashConcat(w, hash, s, [b]);
    assert [b][1..] == [];
  }

  lemma {:induction false} HashIsFnv32(s: Bytes)
    ensures Hash(W32, W32.offset, s) == Fnv32(s)
  {
    if s != [] {
      HashIsFnv32(s[..|s| - 1]);
      HashMore(W32, W32.offset, s[..|s| - 1], s[|s| - 1]);
      SplitLast(s);
    }
  }

  lemma {:induction false} HashIsFnv64(s: Bytes)
    ensures Hash(W64, W64.offset, s) == Fnv64(s)
  {
    if s != [] {
      HashIsFnv64(s[..|s| - 1]);
      HashMore(W64, W64.offset, s[..|s| - 1], s[|s| - 1]);
      SplitLast(s);
    }
  }

  // ---------- the hashed bytes ----------

  function NamesOf(fields: seq<Field>): Bytes {
    if fields == [] then [] else NamesOf(fields[..|fields| - 1]) + fields[|fields| - 1].name
  }

  /** Component by component: its name, version 1 in four bytes, its field names in order. */
  function HashedBytes(cs: seq<Component>): Bytes {
    if cs == [] then []
    else
      var last := cs[|cs| - 1];
      HashedBytes(cs[..|cs| - 1]) + (last.name + [1, 0, 0, 0] + NamesOf(last.fields))
  }

  lemma {:induction false} FieldNamesMore(fields: seq<Field>, last: Field)
    ensures FieldNames(fields + [last]) == FieldNames(fields) + last.name
    decreases |fields|
  {
    if fields == [] {
      assert [last][1..] == [] && fields + [last] == [last];
      assert last.name + [] == last.name && [] + last.name == last.name;
    } else {
      assert (fields + [last])[1..] == fields[1..] + [last];
      FieldNamesMore(fields[1..], last);
      Regroup(fields[0].name, FieldNames(fields[1..]), last.name);
    }
  }

  lemma {:induction false} FieldNamesInOrder(fields: seq<Field>)
    ensures FieldNames(fields) == NamesOf(fields)
  {
    if fields != [] {
      FieldNamesInOrder(fields[..|fields| - 1]);
      FieldNamesMore(fields[..|fields| - 1], fields[|fields| - 1]);
      SplitLast(fields);
    }
  }

  lemma {:induction false} SerialiseMore(cs: seq<Component>, last: Component)
    ensures Serialise(cs + [last]) == Serialise(cs) + ComponentBytes(last)
    decreases |cs|
  {
    if cs == [] {
      assert [last][1..] == [] && cs + [last] == [last];
      assert ComponentBytes(last) + [] == ComponentBytes(last) && [] + ComponentBytes(last) == ComponentBytes(last);
    } else {
      assert (cs + [last])[1..] == cs[1..] + [last];
      SerialiseMore(cs[1..], last);
      Regroup(ComponentBytes(cs[0]), Serialise(cs[1..]), ComponentBytes(last));
    }
  }

  lemma {:induction false} SerialiseInOrder(cs: seq<Component>)
    requires Derived(cs)
    ensures Serialise(cs) == HashedBytes(cs)
  {
    if cs != [] {
      var init, last := cs[..|cs| - 1], cs[|cs| - 1];
      assert last in cs && forall c :: c in init ==> c in cs;
      SerialiseInOrder(init);
      SerialiseMore(init, last);
      SplitLast(cs);
      VersionBytes();
      FieldNamesInOrder(last.fields);
    }
  }

  // ---------- the text ----------

  /** The value of a lower-case hexadecimal digit; sixteen for any other character. */
  function DigitOf(c: char): nat {
    if '0' <= c <= '9' then c as nat - '0' as nat
    else if 'a' <= c <= 'f' then c as nat - 'a' as nat + 10
    else 16
  }

  function ValueOf(text: string): nat {
    if text == "" then 0 else 16 * ValueOf(text[..|text| - 1]) + DigitOf(text[|text| - 1])
  }

  ghost predicate LowerHex(text: string) {
    forall i :: 0 <= i < |text| ==> DigitOf(text[i]) < 16
  }

  lemma DigitReadsBack(d: nat)
    requires d < 16
    ensures DigitOf(HexDigit(d)) == d
  {
  }

  lemma {:induction false} HexReadsBack(n: nat, k: nat)
    requires n < Pow16(k)
    ensures LowerHex(Hex(n, k)) && ValueOf(Hex(n, k)) == n
    decreases k
  {
    if k > 0 {
      HexReadsBack(n / 16, k - 1);
      DigitReadsBack(n % 16);
      assert Hex(n, k)[..k - 1] == Hex(n / 16, k - 1);
    }
  }

  /** Eight lower-case digits whose value is the 32-bit FNV-1a of the names and versions in order. */
  lemma FingerprintIsFnv1a(cs: seq<Component>)
    requires Derived(cs)
    ensures
      var text := Fingerprint(cs);
      |text| == 8 && LowerHex(text) && ValueOf(text) == Fnv32(HashedBytes(cs))
  {
    SerialiseInOrder(cs);
    HashIsFnv32(HashedBytes(cs));
    HashFits(W32.offset, HashedBytes(cs));
    assert Pow16(4) == 0x1_0000 && Pow16(8) == 0x1_0000_0000;
    HexReadsBack(Hash(W32, W32.offset, HashedBytes(cs)), 8);
  }
}
