/**
  What the hashed bytes of a component list say about its names: exactly the first
  component's name and, component by component, its field names run together with
  the next component's name.
*/
module HashedNames {
  import opened ByteStrings
  import opened Components
  import opened Sequences

  /** The four version bytes after every component name. */
  const SEPARATOR: Bytes := [1, 0, 0, 0]

  function FirstName(cs: seq<Component>): Bytes {
    if cs == [] then [] else cs[0].name
  }

  /** What stands between one version and the next. */
  function Gaps(cs: seq<Component>): seq<Bytes> {
    if cs == [] then [] else [FieldNames(cs[0].fields) + FirstName(cs[1..])] + Gaps(cs[1..])
  }

  function Spread(gaps: seq<Bytes>): Bytes {
    if gaps == [] then [] else SEPARATOR + (gaps[0] + Spread(gaps[1..]))
  }

  /** No byte that could open a version. */
  predicate Plain(s: Bytes) {
    forall i :: 0 <= i < |s| ==> s[i] >= 2
  }

  predicate PlainNames(cs: seq<Component>) {
    forall i :: 0 <= i < |cs| ==> Plain(cs[i].name) && forall k :: 0 <= k < |cs[i].fields| ==> Plain(cs[i].fields[k].name)
  }

  lemma VersionBytes()
    ensures LittleEndian32(SCHEMA_VERSION) == SEPARATOR
  {
    assert LowBytes(0, 3) == [0] + LowBytes(0, 2) == [0, 0, 0];
    assert LowBytes(1, 4) == [1] + LowBytes(0, 3);
  }

  lemma {:induction false} SerialiseSpreads(cs: seq<Component>)
    requires Derived(cs)
    ensures Serialise(cs) == FirstName(cs) + Spread(Gaps(cs))
    decreases |cs|
  {
    if cs != [] {
      var c, rest := cs[0], cs[1..];
      assert c in cs && forall d :: d in rest ==> d in cs;
      SerialiseSpreads(rest);
      VersionBytes();
      Regroup(FieldNames(c.fields), FirstName(rest), Spread(Gaps(rest)));
      Regroup(c.name, SEPARATOR, FieldNames(c.fields));
      Regroup(c.name, SEPARATOR + FieldNames(c.fields), Serialise(rest));
      Regroup(SEPARATOR, FieldNames(c.fields), Serialise(rest));
      GapsCons(cs);
    }
  }

  lemma GapsCons(cs: seq<Component>)
    requires cs != []
    ensures Spread(Gaps(cs)) == SEPARATOR + (FieldNames(cs[0].fields) + FirstName(cs[1..]) + Spread(Gaps(cs[1..])))
  {
    assert Gaps(cs)[1..] == Gaps(cs[1..]);
  }

  // ---------- cutting at the separators ----------

  function FirstLow(s: Bytes): nat {
    if s == [] || s[0] < 2 then 0 else 1 + FirstLow(s[1..])
  }

  lemma {:induction false} LowAfterPlain(a: Bytes, tail: Bytes)
    requires Plain(a) && (tail == [] || tail[0] < 2)
    ensures FirstLow(a + tail) == |a|
    decreases |a|
  {
    if a == [] {
      assert a + tail == tail;
    } else {
      assert (a + tail)[1..] == a[1..] + tail;
      LowAfterPlain(a[1..], tail);
    }
  }

  lemma SpreadStartsLow(gaps: seq<Bytes>)
    ensures gaps != [] ==> Spread(gaps) != [] && Spread(gaps)[0] == 1
    ensures gaps == [] ==> Spread(gaps) == []
  {
  }

  lemma {:induction false} CutsAlike(a: Bytes, gaps: seq<Bytes>, b: Bytes, others: seq<Bytes>)
    requires Plain(a) && Plain(b)
    requires forall i :: 0 <= i < |gaps| ==> Plain(gaps[i])
    requires forall i :: 0 <= i < |others| ==> Plain(others[i])
    requires a + Spread(gaps) == b + Spread(others)
    ensures a == b && gaps == others
    decreases |gaps|
  {
    SpreadStartsLow(gaps);
    SpreadStartsLow(others);
    LowAfterPlain(a, Spread(gaps));
    LowAfterPlain(b, Spread(others));
    assert (a + Spread(gaps))[..|a|] == a && (b + Spread(others))[..|b|] == b;
    assert (a + Spread(gaps))[|a|..] == Spread(gaps) && (b + Spread(others))[|b|..] == Spread(others);
    if gaps != [] {
      assert Spread(gaps)[4..] == gaps[0] + Spread(gaps[1..]);
      assert Spread(others)[4..] == others[0] + Spread(others[1..]);
      CutsAlike(gaps[0], gaps[1..], others[0], others[1..]);
      assert gaps == [gaps[0]] + gaps[1..] && others == [others[0]] + others[1..];
    }
  }

  lemma {:induction false} PlainFieldNames(fields: seq<Field>)
    requires forall k :: 0 <= k < |fields| ==> Plain(fields[k].name)
    ensures Plain(FieldNames(fields))
  {
    if fields != [] {
      PlainFieldNames(fields[1..]);
    }
  }

  lemma {:induction false} PlainGaps(cs: seq<Component>)
    requires PlainNames(cs)
    ensures forall i :: 0 <= i < |Gaps(cs)| ==> Plain(Gaps(cs)[i])
  {
    if cs != [] {
      PlainFieldNames(cs[0].fields);
      PlainGaps(cs[1..]);
    }
  }

  /**
    The hashed bytes determine the first name and the gaps and nothing more: two
    lists of plain names hash the same bytes exactly when those agree.
  */
  lemma SameBytesExactly(cs: seq<Component>, ds: seq<Component>)
    requires Derived(cs) && Derived(ds) && PlainNames(cs) && PlainNames(ds)
    ensures Serialise(cs) == Serialise(ds) <==> FirstName(cs) == FirstName(ds) && Gaps(cs) == Gaps(ds)
  {
    SerialiseSpreads(cs);
    SerialiseSpreads(ds);
    if Serialise(cs) == Serialise(ds) {
      PlainGaps(cs);
      PlainGaps(ds);
      CutsAlike(FirstName(cs), Gaps(cs), FirstName(ds), Gaps(ds));
    }
  }

  /** A field name that holds a version's bytes makes one component hash like two. */
  lemma VersionBytesInAName(a: Bytes, x: Bytes, b: Bytes, y: Bytes, t: ColumnType)
    ensures
      var one := [Component(a, SCHEMA_VERSION, [Field(x + b + SEPARATOR + y, t)])];
      var two := [Component(a, SCHEMA_VERSION, [Field(x, t)]), Component(b, SCHEMA_VERSION, [Field(y, t)])];
      Serialise(one) == Serialise(two) && |Gaps(one)| != |Gaps(two)| && !PlainNames(one)
  {
    var name := x + b + SEPARATOR + y;
    var one := [Component(a, SCHEMA_VERSION, [Field(name, t)])];
    var last := [Component(b, SCHEMA_VERSION, [Field(y, t)])];
    var two := [Component(a, SCHEMA_VERSION, [Field(x, t)])] + last;
    assert two[1..] == last && one[1..] == [] && last[1..] == [];
    OneName(name, t);
    OneName(x, t);
    OneName(y, t);
    SerialiseSpreads(one);
    SerialiseSpreads(two);
    GapsCons(one);
    GapsCons(two);
    GapsCons(last);
    Regroup(x + b, SEPARATOR, y);
    assert name[|x| + |b|] == 1 && one[0].fields[0].name == name;
    assert !Plain(one[0].fields[0].name);
  }

  lemma OneName(name: Bytes, t: ColumnType)
    ensures FieldNames([Field(name, t)]) == name
  {
    assert [Field(name, t)][1..] == [];
  }

  // ---------- what the fingerprint cannot see ----------

  lemma {:induction false} NamesConcat(a: seq<Field>, b: seq<Field>)
    ensures FieldNames(a + b) == FieldNames(a) + FieldNames(b)
    decreases |a|
  {
    if a == [] {
      assert a + b == b;
    } else {
      assert (a + b)[1..] == a[1..] + b;
      NamesConcat(a[1..], b);
    }
  }

  lemma {:induction false} SerialiseConcat(a: seq<Component>, b: seq<Component>)
    ensures Serialise(a + b) == Serialise(a) + Serialise(b)
    decreases |a|
  {
    if a == [] {
      assert a + b == b;
    } else {
      assert (a + b)[1..] == a[1..] + b;
      SerialiseConcat(a[1..], b);
    }
  }

  lemma OneComponent(c: Component)
    ensures Serialise([c]) == ComponentBytes(c)
  {
    assert [c][1..] == [];
  }

  /** Only a component's bytes matter to the list around it. */
  lemma InPlace(before: seq<Component>, c: Component, after: seq<Component>)
    ensures Serialise(before + [c] + after) == Serialise(before) + ComponentBytes(c) + Serialise(after)
  {
    SerialiseConcat(before + [c], after);
    SerialiseConcat(before, [c]);
    OneComponent(c);
  }

  lemma TwoNames(before: seq<Field>, f: Field, g: Field, after: seq<Field>)
    ensures FieldNames(before + [f, g] + after) == FieldNames(before) + (f.name + g.name) + FieldNames(after)
  {
    NamesConcat(before + [f, g], after);
    NamesConcat(before, [f, g]);
    assert [f, g] == [f] + [g];
    NamesConcat([f], [g]);
    OneName(f.name, f.ty);
    OneName(g.name, g.ty);
  }

  /** In any component, the fingerprint sees neither a field's type nor where one field name ends and the next begins. */
  lemma FieldBoundariesInvisible(before: seq<Component>, name: Bytes, version: nat, first: seq<Field>, last: seq<Field>,
                                 a: Bytes, b: Bytes, c: Bytes, types: (ColumnType, ColumnType, ColumnType, ColumnType),
                                 after: seq<Component>)
    ensures
      var early := Component(name, version, first + [Field(a + b, types.0), Field(c, types.1)] + last);
      var late := Component(name, version, first + [Field(a, types.2), Field(b + c, types.3)] + last);
      Fingerprint(before + [early] + after) == Fingerprint(before + [late] + after)
  {
    var early := Component(name, version, first + [Field(a + b, types.0), Field(c, types.1)] + last);
    var late := Component(name, version, first + [Field(a, types.2), Field(b + c, types.3)] + last);
    TwoNames(first, Field(a + b, types.0), Field(c, types.1), last);
    TwoNames(first, Field(a, types.2), Field(b + c, types.3), last);
    Regroup(a, b, c);
    InPlace(before, early, after);
    InPlace(before, late, after);
  }

  /** Nor where a component's last field name ends and the next component's name begins. */
  lemma ComponentBoundariesInvisible(before: seq<Component>, name: Bytes, fields: seq<Field>, a: Bytes, b: Bytes, t: ColumnType,
                                     c: Bytes, next: seq<Field>, after: seq<Component>)
    ensures
      var early := [Component(name, SCHEMA_VERSION, fields + [Field(a + b, t)]), Component(c, SCHEMA_VERSION, next)];
      var late := [Component(name, SCHEMA_VERSION, fields + [Field(a, t)]), Component(b + c, SCHEMA_VERSION, next)];
      Fingerprint(before + early + after) == Fingerprint(before + late + after)
  {
    var early := [Component(name, SCHEMA_VERSION, fields + [Field(a + b, t)]), Component(c, SCHEMA_VERSION, next)];
    var late := [Component(name, SCHEMA_VERSION, fields + [Field(a, t)]), Component(b + c, SCHEMA_VERSION, next)];
    NamesConcat(fields, [Field(a + b, t)]);
    NamesConcat(fields, [Field(a, t)]);
    OneName(a + b, t);
    OneName(a, t);
    SameGapsSameBytes(early, late, FieldNames(fields), a, b, c);
    SerialiseConcat(before + early, after);
    SerialiseConcat(before, early);
    SerialiseConcat(before + late, after);
    SerialiseConcat(before, late);
  }

  lemma SameGapsSameBytes(early: seq<Component>, late: seq<Component>, names: Bytes, a: Bytes, b: Bytes, c: Bytes)
    requires |early| == |late| == 2 && Derived(early) && Derived(late)
    requires early[0].name == late[0].name && early[1].fields == late[1].fields
    requires early[1].name == c && late[1].name == b + c
    requires FieldNames(early[0].fields) == names + (a + b) && FieldNames(late[0].fields) == names + a
    ensures Serialise(early) == Serialise(late)
  {
    SerialiseSpreads(early);
    SerialiseSpreads(late);
    TwoGaps(early);
    TwoGaps(late);
    Regroup(names, a, b);
    Regroup(names + a, b, c);
  }

  lemma TwoGaps(cs: seq<Component>)
    requires |cs| == 2
    ensures Gaps(cs) == [FieldNames(cs[0].fields) + cs[1].name, FieldNames(cs[1].fields)]
  {
    var rest := cs[1..];
    assert rest[0] == cs[1] && rest[1..] == [] && Gaps(rest[1..]) == [];
    assert FieldNames(cs[1].fields) + FirstName(rest[1..]) == FieldNames(cs[1].fields);
    assert Gaps(rest) == [FieldNames(cs[1].fields)];
    assert Gaps(cs) == [FieldNames(cs[0].fields) + cs[1].name] + Gaps(rest);
  }

  /** Adding a field, which is never nameless, always changes what is hashed: it grows by the name's length. */
  lemma AddedFieldLengthens(before: seq<Component>, name: Bytes, version: nat, first: seq<Field>, f: Field, last: seq<Field>,
                            after: seq<Component>)
    ensures
      var without := Serialise(before + [Component(name, version, first + last)] + after);
      var added := Serialise(before + [Component(name, version, first + [f] + last)] + after);
      |added| == |without| + |f.name| && (f.name != [] ==> added != without)
  {
    InPlace(before, Component(name, version, first + last), after);
    InPlace(before, Component(name, version, first + [f] + last), after);
    NamesConcat(first, last);
    NamesConcat(first + [f], last);
    NamesConcat(first, [f]);
    OneName(f.name, f.ty);
  }
}
