/**
  The component list a processor declares: its systems' row types, each once,
  sorted by name, and the fingerprint of that list.

  Names are UTF-8 byte strings and compare byte by byte.
*/
module Components {
  import opened Wrappers
  import opened ByteStrings
  import opened Fnv

  datatype ColumnType = Int64 | Float64 | Utf8 | Boolean

  datatype Field = Field(name: Bytes, ty: ColumnType)

  datatype Component = Component(name: Bytes, version: nat, fields: seq<Field>)

  /** Every component this SDK derives declares the same schema version. */
  const SCHEMA_VERSION := 1

  // ---------- the order of names ----------

  predicate Less(a: Bytes, b: Bytes) {
    if b == [] then false
    else if a == [] then true
    else a[0] < b[0] || (a[0] == b[0] && Less(a[1..], b[1..]))
  }

  lemma {:induction false} LessIsTotal(a: Bytes, b: Bytes)
    ensures Less(a, b) || Less(b, a) || a == b
    ensures !(Less(a, b) && Less(b, a))
    ensures !Less(a, a)
  {
    if a != [] && b != [] {
      LessIsTotal(a[1..], b[1..]);
      assert a[0] == b[0] && a[1..] == b[1..] ==> a == b by {
        assert a == [a[0]] + a[1..] && b == [b[0]] + b[1..];
      }
    }
    if a != [] {
      LessIsIrreflexive(a);
    }
  }

  lemma {:induction false} LessIsIrreflexive(a: Bytes)
    ensures !Less(a, a)
  {
    if a != [] {
      LessIsIrreflexive(a[1..]);
    }
  }

  lemma {:induction false} LessIsTransitive(a: Bytes, b: Bytes, c: Bytes)
    requires Less(a, b) && Less(b, c)
    ensures Less(a, c)
  {
    if a != [] && a[0] == b[0] && b[0] == c[0] {
      LessIsTransitive(a[1..], b[1..], c[1..]);
    }
  }

  /** `a` is a proper prefix of `b`, or its byte is the smaller one where the two first differ. */
  ghost predicate Precedes(a: Bytes, b: Bytes) {
    exists n :: PartAt(a, b, n)
  }

  /** The two agree on the first `n` bytes; then `a` ends and `b` does not, or `a`'s byte is smaller. */
  predicate PartAt(a: Bytes, b: Bytes, n: nat) {
    && n <= |a| && n < |b| && a[..n] == b[..n]
    && (n == |a| || a[n] < b[n])
  }

  lemma {:induction false} LessPartsSomewhere(a: Bytes, b: Bytes) returns (n: nat)
    requires Less(a, b)
    ensures PartAt(a, b, n)
  {
    if a == [] || a[0] < b[0] {
      n := 0;
    } else {
      n := LessPartsSomewhere(a[1..], b[1..]);
      assert a[..n + 1] == [a[0]] + a[1..][..n] && b[..n + 1] == [b[0]] + b[1..][..n];
      n := n + 1;
    }
  }

  lemma {:induction false} PartIsLess(a: Bytes, b: Bytes, n: nat)
    requires PartAt(a, b, n)
    ensures Less(a, b)
    decreases n
  {
    if n > 0 {
      assert a[..n][0] == a[0] && b[..n][0] == b[0];
      assert a[1..][..n - 1] == a[..n][1..] && b[1..][..n - 1] == b[..n][1..];
      PartIsLess(a[1..], b[1..], n - 1);
    }
  }

  /** The order of names is the byte-wise lexicographic one. */
  lemma LessIsLexicographic(a: Bytes, b: Bytes)
    ensures Less(a, b) <==> Precedes(a, b)
  {
    if Less(a, b) {
      var n := LessPartsSomewhere(a, b);
    }
    if Precedes(a, b) {
      var n :| PartAt(a, b, n);
      PartIsLess(a, b, n);
    }
  }

  /** Every name precedes all later ones. */
  ghost predicate InOrder(cs: seq<Component>) {
    forall i, j :: 0 <= i < j < |cs| ==> Precedes(cs[i].name, cs[j].name)
  }

  lemma SortedIsInOrder(cs: seq<Component>)
    ensures Sorted(cs) <==> InOrder(cs)
  {
    forall i, j | 0 <= i < j < |cs| ensures Less(cs[i].name, cs[j].name) <==> Precedes(cs[i].name, cs[j].name) {
      LessIsLexicographic(cs[i].name, cs[j].name);
    }
  }

  ghost predicate Sorted(cs: seq<Component>) {
    forall i, j :: 0 <= i < j < |cs| ==> Less(cs[i].name, cs[j].name)
  }

  ghost predicate DistinctNames(cs: seq<Component>) {
    forall i, j :: 0 <= i < j < |cs| ==> cs[i].name != cs[j].name
  }

  lemma SortedIsDistinct(cs: seq<Component>)
    requires Sorted(cs)
    ensures DistinctNames(cs)
  {
    forall i, j | 0 <= i < j < |cs| ensures cs[i].name != cs[j].name {
      LessIsIrreflexive(cs[i].name);
    }
  }

  // ---------- what the list has to be ----------

  /** Two systems declare one component with different fields. */
  ghost predicate Clash(declared: seq<Component>) {
    exists c, d :: c in declared && d in declared && c.name == d.name && c.fields != d.fields
  }

  ghost predicate Derived(declared: seq<Component>) {
    forall c :: c in declared ==> c.version == SCHEMA_VERSION
  }

  ghost predicate SameElements(a: seq<Component>, b: seq<Component>) {
    forall c :: c in a <==> c in b
  }

  /** The list is sorted without repeats and holds exactly the declared components. */
  ghost predicate Canonical(list: seq<Component>, declared: seq<Component>) {
    Sorted(list) && SameElements(list, declared)
  }

  /** A strictly sorted list is determined by its elements. */
  lemma {:induction false} SortedIsUnique(a: seq<Component>, b: seq<Component>)
    requires Sorted(a) && Sorted(b) && SameElements(a, b)
    ensures a == b
    decreases |a|
  {
    if a == [] {
      if b != [] {
        HasElement(b);
      }
    } else {
      assert a[0] in b && b[0] in a;
      HeadIsLeast(a, b);
      forall c ensures c in a[1..] <==> c in b[1..] {
        TailLosesHead(a, c);
        TailLosesHead(b, c);
      }
      SortedIsUnique(a[1..], b[1..]);
    }
  }

  lemma HasElement(b: seq<Component>)
    requires b != []
    ensures exists c :: c in b
  {
    assert b[0] in b;
  }

  lemma HeadIsLeast(a: seq<Component>, b: seq<Component>)
    requires a != [] && b != [] && Sorted(a) && Sorted(b) && a[0] in b && b[0] in a
    ensures a[0] == b[0]
  {
    LessIsTotal(a[0].name, b[0].name);
  }

  lemma TailLosesHead(a: seq<Component>, c: Component)
    requires a != [] && Sorted(a)
    ensures c in a[1..] <==> c in a && c != a[0]
  {
    LessIsTotal(a[0].name, a[0].name);
    if c in a && c != a[0] {
      var i :| 0 <= i < |a| && a[i] == c;
      assert a[1..][i - 1] == c;
    }
    if c in a[1..] {
      var i :| 0 <= i < |a[1..]| && a[1..][i] == c;
      assert a[i + 1] == c;
    }
  }

  /** The list depends on which components are declared, not on the order of the systems. */
  lemma RegistrationOrderIrrelevant(declared: seq<Component>, permuted: seq<Component>, a: seq<Component>, b: seq<Component>)
    requires multiset(declared) == multiset(permuted)
    ensures Clash(declared) <==> Clash(permuted)
    ensures Canonical(a, declared) && Canonical(b, permuted) ==> a == b && Fingerprint(a) == Fingerprint(b)
  {
    SameMultisetSameElements(declared, permuted);
    if Canonical(a, declared) && Canonical(b, permuted) {
      SortedIsUnique(a, b);
    }
  }

  // ---------- collecting and sorting ----------

  lemma PrefixMember(s: seq<Component>, i: nat, c: Component)
    requires i <= |s| && c in s[..i]
    ensures c in s
  {
    var j :| 0 <= j < i && s[..i][j] == c;
    assert s[j] == c;
  }

  /** Each name once, in order of first appearance; `None` is the refusal to build the processor. */
  method Collect(declared: seq<Component>) returns (out: Option<seq<Component>>)
    requires Derived(declared)
    ensures out.None? <==> Clash(declared)
    ensures out.Some? ==> DistinctNames(out.value) && SameElements(out.value, declared)
  {
    var seen: seq<Component> := [];
    var i := 0;
    while i < |declared|
      invariant i <= |declared|
      invariant DistinctNames(seen) && SameElements(seen, declared[..i])
      invariant !Clash(declared[..i])
    {
      var spec := declared[i];
      assert declared[..i + 1] == declared[..i] + [spec];
      var known := false;
      var k := 0;
      while k < |seen|
        invariant k <= |seen|
        invariant known <==> exists c :: c in seen[..k] && c.name == spec.name
        invariant forall c :: c in seen[..k] && c.name == spec.name ==> c == spec
      {
        assert seen[..k + 1] == seen[..k] + [seen[k]];
        if seen[k].name == spec.name {
          known := true;
          assert seen[k] in seen;
          PrefixMember(declared, i, seen[k]);
          assert seen[k].version == SCHEMA_VERSION && spec in declared && spec.version == SCHEMA_VERSION;
          if seen[k].fields != spec.fields {
            return None;
          }
        }
        k := k + 1;
      }
      assert seen[..k] == seen;
      if !known {
        seen := seen + [spec];
      }
      i := i + 1;
    }
    assert declared[..i] == declared;
    out := Some(seen);
  }

  function Swapped(s: seq<Component>, j: nat): seq<Component>
    requires 0 < j < |s|
  {
    s[j := s[j - 1]][j - 1 := s[j]]
  }

  /** Element `j` swaps down while it is smaller than the one before it. */
  function Sift(s: seq<Component>, j: nat): seq<Component>
    requires j < |s|
    decreases j
  {
    if j > 0 && Less(s[j].name, s[j - 1].name) then Sift(Swapped(s, j), j - 1) else s
  }

  lemma SwapPermutes(s: seq<Component>, j: nat)
    requires 0 < j < |s|
    ensures multiset(Swapped(s, j)) == multiset(s)
    ensures DistinctNames(s) ==> DistinctNames(Swapped(s, j))
  {
    assert s == s[..j - 1] + [s[j - 1], s[j]] + s[j + 1..];
    assert Swapped(s, j) == s[..j - 1] + [s[j], s[j - 1]] + s[j + 1..];
  }

  lemma {:induction false} SiftPermutes(s: seq<Component>, j: nat)
    requires j < |s|
    ensures multiset(Sift(s, j)) == multiset(s)
    ensures DistinctNames(s) ==> DistinctNames(Sift(s, j))
    decreases j
  {
    if j > 0 && Less(s[j].name, s[j - 1].name) {
      SwapPermutes(s, j);
      SiftPermutes(Swapped(s, j), j - 1);
    }
  }

  /** The first `i + 1` elements are in order, leaving out the one at `j`. */
  ghost predicate SortedBut(s: seq<Component>, i: nat, j: nat)
    requires i < |s|
  {
    forall p, q :: 0 <= p < q <= i && q != j ==> Less(s[p].name, s[q].name)
  }

  lemma {:induction false} SiftSorts(s: seq<Component>, i: nat, j: nat)
    requires j <= i < |s| && DistinctNames(s) && SortedBut(s, i, j)
    ensures |Sift(s, j)| == |s| && Sorted(Sift(s, j)[..i + 1])
    decreases j
  {
    if j > 0 && Less(s[j].name, s[j - 1].name) {
      SwapPermutes(s, j);
      SiftSorts(Swapped(s, j), i, j - 1);
    } else if j > 0 {
      LessIsTotal(s[j].name, s[j - 1].name);
      forall p | 0 <= p < j ensures Less(s[p].name, s[j].name) {
        if p < j - 1 {
          LessIsTransitive(s[p].name, s[j - 1].name, s[j].name);
        }
      }
    }
  }

  /** One outer step of the insertion sort, in place. */
  method SiftDown(a: array<Component>, i: nat)
    requires i < a.Length
    modifies a
    ensures a[..] == Sift(old(a[..]), i)
  {
    var j := i;
    while j > 0 && Less(a[j].name, a[j - 1].name)
      invariant 0 <= j <= i
      invariant Sift(a[..], j) == Sift(old(a[..]), i)
    {
      ghost var before := a[..];
      a[j], a[j - 1] := a[j - 1], a[j];
      assert a[..] == Swapped(before, j);
      j := j - 1;
    }
  }

  method InsertionSort(a: array<Component>)
    requires DistinctNames(a[..])
    modifies a
    ensures Sorted(a[..]) && InOrder(a[..]) && multiset(a[..]) == multiset(old(a[..]))
  {
    if a.Length == 0 {
      return;
    }
    var i := 1;
    while i < a.Length
      invariant 1 <= i <= a.Length
      invariant Sorted(a[..i]) && DistinctNames(a[..])
      invariant multiset(a[..]) == multiset(old(a[..]))
    {
      ghost var before := a[..];
      assert a[..i] == before[..i];
      assert SortedBut(before, i, i);
      SiftSorts(before, i, i);
      SiftPermutes(before, i);
      SiftDown(a, i);
      assert a[..i + 1] == a[..][..i + 1];
      i := i + 1;
    }
    assert a[..a.Length] == a[..];
    SortedIsInOrder(a[..]);
  }

  lemma SameMultisetSameElements(a: seq<Component>, b: seq<Component>)
    requires multiset(a) == multiset(b)
    ensures SameElements(a, b)
  {
    assert forall c :: c in a <==> c in multiset(a);
    assert forall c :: c in b <==> c in multiset(b);
  }

  method ComponentsOf(declared: seq<Component>) returns (out: Option<seq<Component>>)
    requires Derived(declared)
    ensures out.None? <==> Clash(declared)
    ensures out.Some? ==> Canonical(out.value, declared)
    ensures out.Some? ==> InOrder(out.value) && DistinctNames(out.value) && SameElements(out.value, declared)
  {
    var collected := Collect(declared);
    if collected.None? {
      return None;
    }
    var list := collected.value;
    var a := new Component[|list|](i requires 0 <= i < |list| => list[i]);
    assert a[..] == list;
    InsertionSort(a);
    SameMultisetSameElements(a[..], list);
    SortedIsDistinct(a[..]);
    out := Some(a[..]);
  }

  // ---------- the fingerprint ----------

  function FieldNames(fields: seq<Field>): Bytes {
    if fields == [] then [] else fields[0].name + FieldNames(fields[1..])
  }

  function ComponentBytes(c: Component): Bytes {
    c.name + LittleEndian32(c.version) + FieldNames(c.fields)
  }

  /** Everything the fingerprint reads, in the order it reads it. */
  function Serialise(cs: seq<Component>): Bytes {
    if cs == [] then [] else ComponentBytes(cs[0]) + Serialise(cs[1..])
  }

  function HexDigit(d: nat): char
    requires d < 16
  {
    "0123456789abcdef"[d]
  }

  /** `n` in base sixteen, `k` digits, most significant first. */
  function Hex(n: nat, k: nat): (s: string)
    ensures |s| == k
  {
    if k == 0 then "" else Hex(n / 16, k - 1) + [HexDigit(n % 16)]
  }

  lemma HexDigitsSeparate(a: nat, b: nat)
    requires a < 16 && b < 16 && HexDigit(a) == HexDigit(b)
    ensures a == b
  {
  }

  lemma {:induction false} HexSeparates(a: nat, b: nat, k: nat)
    requires a < Pow16(k) && b < Pow16(k) && Hex(a, k) == Hex(b, k)
    ensures a == b
    decreases k
  {
    if k > 0 {
      var s, t := Hex(a / 16, k - 1), Hex(b / 16, k - 1);
      assert (s + [HexDigit(a % 16)])[..k - 1] == s && (t + [HexDigit(b % 16)])[..k - 1] == t;
      assert (s + [HexDigit(a % 16)])[k - 1] == (t + [HexDigit(b % 16)])[k - 1];
      HexSeparates(a / 16, b / 16, k - 1);
      HexDigitsSeparate(a % 16, b % 16);
    }
  }

  function Pow16(k: nat): nat {
    if k == 0 then 1 else 16 * Pow16(k - 1)
  }

  function Fingerprint(cs: seq<Component>): string {
    Hex(Hash(W32, W32.offset, Serialise(cs)), 8)
  }

  lemma {:induction false} HashFits(hash: nat, s: Bytes)
    requires hash < W32.modulus
    ensures Hash(W32, hash, s) < W32.modulus
    decreases |s|
  {
    if s != [] {
      HashFits(Mix(W32, hash, s[0]), s[1..]);
    }
  }

  /** Lists whose serialised bytes are equally long and differ in one byte never share a fingerprint. */
  lemma OneByteChangesFingerprint(cs: seq<Component>, ds: seq<Component>, i: nat)
    requires DifferOnlyAt(Serialise(cs), Serialise(ds), i)
    ensures Fingerprint(cs) != Fingerprint(ds)
  {
    OneByteChangesHash(W32, W32.offset, Serialise(cs), Serialise(ds), i);
    HashFits(W32.offset, Serialise(cs));
    HashFits(W32.offset, Serialise(ds));
    if Fingerprint(cs) == Fingerprint(ds) {
      assert Pow16(4) == 0x1_0000 && Pow16(8) == 0x1_0000_0000;
      HexSeparates(Hash(W32, W32.offset, Serialise(cs)), Hash(W32, W32.offset, Serialise(ds)), 8);
    }
  }

  // ---------- the hashing loops ----------

  method ComputeFingerprint(cs: seq<Component>) returns (text: string)
    ensures text == Fingerprint(cs)
  {
    var hash: nat := W32.offset;
    var i := 0;
    assert cs[0..] == cs;
    while i < |cs|
      invariant i <= |cs|
      invariant Hash(W32, W32.offset, Serialise(cs)) == Hash(W32, hash, Serialise(cs[i..]))
    {
      var c := cs[i];
      assert cs[i..][1..] == cs[i + 1..];
      HashConcat(W32, hash, ComponentBytes(c), Serialise(cs[i + 1..]));
      hash := MixComponent(hash, c);
      i := i + 1;
    }
    text := Hex(hash, 8);
  }

  method MixComponent(start: nat, c: Component) returns (hash: nat)
    ensures hash == Hash(W32, start, ComponentBytes(c))
  {
    HashConcat(W32, start, c.name + LittleEndian32(c.version), FieldNames(c.fields));
    HashConcat(W32, start, c.name, LittleEndian32(c.version));
    hash := MixAll(W32, start, c.name);
    hash := MixAll(W32, hash, LittleEndian32(c.version));
    ghost var named := hash;
    var k := 0;
    assert c.fields[0..] == c.fields;
    while k < |c.fields|
      invariant k <= |c.fields|
      invariant Hash(W32, named, FieldNames(c.fields)) == Hash(W32, hash, FieldNames(c.fields[k..]))
    {
      assert c.fields[k..][1..] == c.fields[k + 1..];
      HashConcat(W32, hash, c.fields[k].name, FieldNames(c.fields[k + 1..]));
      hash := MixAll(W32, hash, c.fields[k].name);
      k := k + 1;
    }
  }
}
