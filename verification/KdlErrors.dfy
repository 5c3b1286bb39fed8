/**
  Which error a document is refused with: the first rule broken, in the order the
  rules are checked and the document is written, at the offset of what breaks it.
*/
module KdlErrors {
  import opened Wrappers
  import opened Sequences
  import opened KdlMapping

  // ---------- the first fault ----------

  /** A scalar that means nothing in a configuration. */
  predicate ScalarFault(x: Entry, e: MappingError) {
    match x.value
    case Null => e == NullValue(x.at)
    case Float(NonFinite) => e == NotFinite(x.at)
    case Integer(i) => !(-0x8000_0000_0000_0000 <= i < 0x1_0000_0000_0000_0000) && e == TooWide(i, x.at)
    case _ => false
  }

  predicate AnnotatedAt(entries: seq<Entry>, i: nat, e: MappingError) {
    && i < |entries| && entries[i].ty.Some? && e == Annotated(entries[i].ty.value, entries[i].at)
    && forall j :: 0 <= j < i ==> entries[j].ty.None?
  }

  ghost predicate AnnotatedFirst(entries: seq<Entry>, e: MappingError) {
    exists i :: AnnotatedAt(entries, i, e)
  }

  predicate IllegalAt(xs: seq<Entry>, i: nat, e: MappingError) {
    i < |xs| && ScalarFault(xs[i], e) && forall j :: 0 <= j < i ==> LegalScalar(xs[j].value)
  }

  ghost predicate IllegalFirst(xs: seq<Entry>, e: MappingError) {
    exists i :: IllegalAt(xs, i, e)
  }

  /** The property's key is taken by one of `keys` or by an earlier property. */
  predicate TakenAt(keys: set<string>, ps: seq<Entry>, i: nat)
    requires i < |ps| && forall p :: p in ps ==> p.name.Some?
  {
    ps[i].name.value in keys || exists j :: 0 <= j < i && ps[j].name == ps[i].name
  }

  predicate PropertyAt(keys: set<string>, ps: seq<Entry>, i: nat, e: MappingError)
    requires forall p :: p in ps ==> p.name.Some?
  {
    && i < |ps|
    && (if TakenAt(keys, ps, i) then e == DuplicateKey(ps[i].name.value, ps[i].at) else ScalarFault(ps[i], e))
    && forall j :: 0 <= j < i ==> !TakenAt(keys, ps, j) && LegalScalar(ps[j].value)
  }

  ghost predicate PropertyFirst(keys: set<string>, ps: seq<Entry>, e: MappingError)
    requires forall p :: p in ps ==> p.name.Some?
  {
    exists i :: PropertyAt(keys, ps, i, e)
  }

  /** A child is named like a key the table has. */
  predicate ClashAt(nodes: seq<Node>, keys: set<string>, i: nat, e: MappingError) {
    && i < |nodes| && nodes[i].name in keys && e == DuplicateKey(nodes[i].name, nodes[i].at)
    && forall j :: 0 <= j < i ==> nodes[j].name !in keys
  }

  ghost predicate ClashFirst(nodes: seq<Node>, keys: set<string>, e: MappingError) {
    exists i :: ClashAt(nodes, keys, i, e)
  }

  /** The first node that is not legal has the fault. */
  ghost predicate ChildFirst(nodes: seq<Node>, e: MappingError)
    decreases nodes, 0
  {
    nodes != [] && (FirstFault(nodes[0], e) || (Legal(nodes[0]) && ChildFirst(nodes[1..], e)))
  }

  /** The children's own faults come before any clash of their names. */
  ghost predicate ChildrenFault(nodes: seq<Node>, keys: set<string>, e: MappingError)
    decreases nodes, 1
  {
    ChildFirst(nodes, e) || (LegalAll(nodes) && ClashFirst(nodes, keys, e))
  }

  /** What is wrong with the node's own argument and properties. */
  ghost predicate OwnFault(entries: seq<Entry>, e: MappingError) {
    var arguments := Arguments(entries);
    || IllegalFirst(arguments, e)
    || ((forall x :: x in arguments ==> LegalScalar(x.value))
        && PropertyFirst(if arguments == [] then {} else {"id"}, Properties(entries), e))
  }

  /** Annotations first, then the node's own entries, then its children. */
  ghost predicate FirstFault(node: Node, e: MappingError)
    decreases node
  {
    if node.ty.Some? then e == Annotated(node.ty.value, node.at)
    else if exists x :: x in node.entries && x.ty.Some? then AnnotatedFirst(node.entries, e)
    else if !IsTable(node) then IllegalFirst(Arguments(node.entries), e)
    else if |Arguments(node.entries)| > 1 then e == TooManyArguments(|Arguments(node.entries)|, node.at)
    else
      || OwnFault(node.entries, e)
      || (node.children.Block? && OwnRules(node.entries)
          && ChildrenFault(node.children.nodes, OwnKeys(node.entries), e))
  }

  // ---------- entries ----------

  lemma ScalarFailsExactly(x: Entry, e: MappingError)
    ensures ScalarToValue(x.value, x.at) == Failure(e) <==> ScalarFault(x, e)
    ensures ScalarToValue(x.value, x.at).Success? <==> LegalScalar(x.value)
    ensures ScalarFault(x, e) ==> !LegalScalar(x.value)
  {
  }

  lemma {:induction false} AnnotationFailsExactly(entries: seq<Entry>, e: MappingError)
    ensures FirstAnnotation(entries) == Some(e) <==> AnnotatedFirst(entries, e)
    decreases |entries|
  {
    if entries != [] {
      var rest := entries[1..];
      AnnotationFailsExactly(rest, e);
      if entries[0].ty.Some? {
        assert FirstAnnotation(entries) == Some(e) ==> AnnotatedAt(entries, 0, e);
      } else {
        forall i: nat ensures AnnotatedAt(rest, i, e) <==> AnnotatedAt(entries, i + 1, e) {
          ShiftAnnotated(entries, i, e);
        }
        assert !AnnotatedAt(entries, 0, e);
        if AnnotatedFirst(entries, e) {
          var i: nat :| AnnotatedAt(entries, i, e);
          assert AnnotatedAt(rest, i - 1, e);
        }
      }
    }
  }

  lemma ShiftAnnotated(entries: seq<Entry>, i: nat, e: MappingError)
    requires entries != [] && entries[0].ty.None?
    ensures AnnotatedAt(entries[1..], i, e) <==> AnnotatedAt(entries, i + 1, e)
  {
    assert forall j :: 0 <= j < |entries| - 1 ==> entries[1..][j] == entries[j + 1];
    if AnnotatedAt(entries, i + 1, e) {
      assert forall j :: 0 <= j < i ==> entries[1..][j] == entries[j + 1];
    }
    if AnnotatedAt(entries[1..], i, e) {
      forall j | 0 <= j < i + 1 ensures entries[j].ty.None? {
        assert j > 0 ==> entries[j] == entries[1..][j - 1];
      }
    }
  }

  lemma {:induction false} ScalarsFailExactly(xs: seq<Entry>, e: MappingError)
    ensures ScalarsToValues(xs) == Failure(e) <==> IllegalFirst(xs, e)
    decreases |xs|
  {
    if xs != [] {
      var rest := xs[1..];
      ScalarFailsExactly(xs[0], e);
      ScalarsFailExactly(rest, e);
      if LegalScalar(xs[0].value) {
        forall i: nat ensures IllegalAt(rest, i, e) <==> IllegalAt(xs, i + 1, e) {
          ShiftIllegal(xs, i, e);
        }
        assert !IllegalAt(xs, 0, e);
        if IllegalFirst(xs, e) {
          var i: nat :| IllegalAt(xs, i, e);
          assert IllegalAt(rest, i - 1, e);
        }
      } else {
        assert ScalarFault(xs[0], e) ==> IllegalAt(xs, 0, e);
      }
    }
  }

  lemma ShiftIllegal(xs: seq<Entry>, i: nat, e: MappingError)
    requires xs != [] && LegalScalar(xs[0].value)
    ensures IllegalAt(xs[1..], i, e) <==> IllegalAt(xs, i + 1, e)
  {
    assert forall j :: 0 <= j < |xs| - 1 ==> xs[1..][j] == xs[j + 1];
    if IllegalAt(xs[1..], i, e) {
      forall j | 0 <= j < i + 1 ensures LegalScalar(xs[j].value) {
        assert j > 0 ==> xs[j] == xs[1..][j - 1];
      }
    }
  }

  lemma {:induction false} PropertiesFailExactly(table: Table, ps: seq<Entry>, e: MappingError)
    requires forall p :: p in ps ==> p.name.Some?
    ensures AddProperties(table, ps) == Failure(e) <==> PropertyFirst(table.Keys, ps, e)
    decreases |ps|
  {
    if ps != [] {
      var p, rest := ps[0], ps[1..];
      ScalarFailsExactly(p, e);
      assert !TakenAt(table.Keys, ps, 0) <==> p.name.value !in table;
      if p.name.value !in table && LegalScalar(p.value) {
        var next := table[p.name.value := ScalarToValue(p.value, p.at).value];
        PropertiesFailExactly(next, rest, e);
        assert next.Keys == table.Keys + {p.name.value};
        PropertyShifts(table.Keys, ps, e);
      } else {
        assert AddProperties(table, ps) == Failure(e) ==> PropertyAt(table.Keys, ps, 0, e);
      }
    }
  }

  lemma ShiftTaken(keys: set<string>, ps: seq<Entry>, i: nat)
    requires i + 1 < |ps| && forall p :: p in ps ==> p.name.Some?
    ensures TakenAt(keys + {ps[0].name.value}, ps[1..], i) <==> TakenAt(keys, ps, i + 1)
  {
    var rest := ps[1..];
    if exists j :: 0 <= j < i && rest[j].name == rest[i].name {
      var j :| 0 <= j < i && rest[j].name == rest[i].name;
      assert ps[j + 1].name == ps[i + 1].name;
    }
    if exists j :: 0 <= j < i + 1 && ps[j].name == ps[i + 1].name {
      var j :| 0 <= j < i + 1 && ps[j].name == ps[i + 1].name;
      assert j > 0 ==> rest[j - 1].name == rest[i].name;
    }
  }

  lemma PropertyShifts(keys: set<string>, ps: seq<Entry>, e: MappingError)
    requires ps != [] && (forall p :: p in ps ==> p.name.Some?)
    requires !TakenAt(keys, ps, 0) && LegalScalar(ps[0].value)
    ensures PropertyFirst(keys, ps, e) <==> PropertyFirst(keys + {ps[0].name.value}, ps[1..], e)
  {
    var rest, more := ps[1..], keys + {ps[0].name.value};
    ScalarFailsExactly(ps[0], e);
    assert !PropertyAt(keys, ps, 0, e);
    forall i: nat ensures PropertyAt(more, rest, i, e) <==> PropertyAt(keys, ps, i + 1, e) {
      ShiftProperty(keys, ps, i, e);
    }
    if PropertyFirst(keys, ps, e) {
      var i: nat :| PropertyAt(keys, ps, i, e);
      assert PropertyAt(more, rest, i - 1, e);
    }
  }

  lemma ShiftProperty(keys: set<string>, ps: seq<Entry>, i: nat, e: MappingError)
    requires ps != [] && (forall p :: p in ps ==> p.name.Some?)
    requires !TakenAt(keys, ps, 0) && LegalScalar(ps[0].value)
    ensures PropertyAt(keys + {ps[0].name.value}, ps[1..], i, e) <==> PropertyAt(keys, ps, i + 1, e)
  {
    var rest, more := ps[1..], keys + {ps[0].name.value};
    forall j: nat | j + 1 < |ps| ensures TakenAt(more, rest, j) <==> TakenAt(keys, ps, j + 1) {
      ShiftTaken(keys, ps, j);
    }
    if PropertyAt(more, rest, i, e) {
      forall j | 0 <= j < i + 1 ensures !TakenAt(keys, ps, j) && LegalScalar(ps[j].value) {
        assert j > 0 ==> ps[j] == rest[j - 1] && !TakenAt(more, rest, j - 1);
      }
    }
    if PropertyAt(keys, ps, i + 1, e) {
      forall j | 0 <= j < i ensures !TakenAt(more, rest, j) && LegalScalar(rest[j].value) {
        assert rest[j] == ps[j + 1] && !TakenAt(keys, ps, j + 1);
      }
    }
  }

  // ---------- clashing names ----------

  /** The first group whose name is a key already. */
  function FirstGroupIn(groups: seq<Group>, keys: set<string>): Option<MappingError> {
    if groups == [] then None
    else if groups[0].name in keys then Some(DuplicateKey(groups[0].name, groups[0].at))
    else FirstGroupIn(groups[1..], keys)
  }

  function FirstChildIn(children: seq<Child>, keys: set<string>): Option<MappingError> {
    if children == [] then None
    else if children[0].name in keys then Some(DuplicateKey(children[0].name, children[0].at))
    else FirstChildIn(children[1..], keys)
  }

  lemma {:induction false} InsertFailsExactly(table: Table, groups: seq<Group>, keys: set<string>, e: MappingError)
    requires forall i, j :: 0 <= i < j < |groups| ==> groups[i].name != groups[j].name
    requires forall g :: g in groups ==> (g.name in table <==> g.name in keys)
    ensures InsertGroups(table, groups) == Failure(e) <==> FirstGroupIn(groups, keys) == Some(e)
    decreases |groups|
  {
    if groups != [] {
      FirstGroup(groups);
      if groups[0].name !in table {
        forall g | g in groups[1..] ensures g.name != groups[0].name {
          assert g.name in GroupNames(groups[1..]);
        }
        InsertFailsExactly(table[groups[0].name := Collapse(groups[0].values)], groups[1..], keys, e);
      }
    }
  }

  lemma {:induction false} OneGroupMore(groups: seq<Group>, g: Group, keys: set<string>)
    ensures FirstGroupIn(groups + [g], keys) ==
      if FirstGroupIn(groups, keys).Some? then FirstGroupIn(groups, keys)
      else if g.name in keys then Some(DuplicateKey(g.name, g.at)) else None
    decreases |groups|
  {
    if groups == [] {
      assert groups + [g] == [g] && [g][1..] == [];
    } else {
      assert (groups + [g])[1..] == groups[1..] + [g];
      OneGroupMore(groups[1..], g, keys);
    }
  }

  lemma {:induction false} OneChildMore(children: seq<Child>, c: Child, keys: set<string>)
    ensures FirstChildIn(children + [c], keys) ==
      if FirstChildIn(children, keys).Some? then FirstChildIn(children, keys)
      else if c.name in keys then Some(DuplicateKey(c.name, c.at)) else None
    decreases |children|
  {
    if children == [] {
      assert children + [c] == [c] && [c][1..] == [];
    } else {
      assert (children + [c])[1..] == children[1..] + [c];
      OneChildMore(children[1..], c, keys);
    }
  }

  /** A group that grows keeps its name and place; if it is named like a key, an earlier one or it is the first. */
  lemma {:induction false} GrownKeepsFirst(groups: seq<Group>, i: nat, values: seq<Value>, keys: set<string>)
    requires i < |groups|
    ensures FirstGroupIn(groups[i := groups[i].(values := values)], keys) == FirstGroupIn(groups, keys)
    ensures groups[i].name in keys ==> FirstGroupIn(groups, keys).Some?
    decreases i
  {
    if i > 0 {
      assert groups[i := groups[i].(values := values)][1..] == groups[1..][i - 1 := groups[1..][i - 1].(values := values)];
      GrownKeepsFirst(groups[1..], i - 1, values, keys);
    } else {
      assert groups[0 := groups[0].(values := values)][1..] == groups[1..];
    }
  }

  lemma AddedKeepsFirst(groups: seq<Group>, c: Child, keys: set<string>)
    ensures FirstGroupIn(AddToGroups(groups, c), keys) ==
      if FirstGroupIn(groups, keys).Some? then FirstGroupIn(groups, keys)
      else if c.name in keys then Some(DuplicateKey(c.name, c.at)) else None
  {
    var i := GroupIndex(groups, c.name);
    if i < |groups| {
      GrownKeepsFirst(groups, i, groups[i].values + [c.value], keys);
    } else {
      OneGroupMore(groups, Group(c.name, [c.value], c.at), keys);
    }
  }

  lemma {:induction false} GatherKeepsFirst(children: seq<Child>, keys: set<string>)
    ensures FirstGroupIn(Gather(children), keys) == FirstChildIn(children, keys)
    decreases |children|
  {
    if children != [] {
      var init, c := children[..|children| - 1], children[|children| - 1];
      GatherKeepsFirst(init, keys);
      AddedKeepsFirst(Gather(init), c, keys);
      OneChildMore(init, c, keys);
      SplitLast(children);
    }
  }

  /** The nodes' names and places, whatever their values. */
  ghost predicate NamedAlike(nodes: seq<Node>, children: seq<Child>) {
    |nodes| == |children| &&
    forall i :: 0 <= i < |nodes| ==> children[i].name == nodes[i].name && children[i].at == nodes[i].at
  }

  lemma {:induction false} FirstChildExactly(nodes: seq<Node>, children: seq<Child>, keys: set<string>, e: MappingError)
    requires NamedAlike(nodes, children)
    ensures FirstChildIn(children, keys) == Some(e) <==> ClashFirst(nodes, keys, e)
    decreases |nodes|
  {
    if nodes != [] {
      var rest := nodes[1..];
      assert NamedAlike(rest, children[1..]);
      FirstChildExactly(rest, children[1..], keys, e);
      if nodes[0].name in keys {
        assert FirstChildIn(children, keys) == Some(e) ==> ClashAt(nodes, keys, 0, e);
      } else {
        forall i: nat ensures ClashAt(rest, keys, i, e) <==> ClashAt(nodes, keys, i + 1, e) {
          ShiftClash(nodes, keys, i, e);
        }
        assert !ClashAt(nodes, keys, 0, e);
        if ClashFirst(nodes, keys, e) {
          var i: nat :| ClashAt(nodes, keys, i, e);
          assert ClashAt(rest, keys, i - 1, e);
        }
      }
    }
  }

  lemma ShiftClash(nodes: seq<Node>, keys: set<string>, i: nat, e: MappingError)
    requires nodes != [] && nodes[0].name !in keys
    ensures ClashAt(nodes[1..], keys, i, e) <==> ClashAt(nodes, keys, i + 1, e)
  {
    assert forall j :: 0 <= j < |nodes| - 1 ==> nodes[1..][j] == nodes[j + 1];
    if ClashAt(nodes[1..], keys, i, e) {
      forall j | 0 <= j < i + 1 ensures nodes[j].name !in keys {
        assert j > 0 ==> nodes[j] == nodes[1..][j - 1];
      }
    }
  }

  lemma ClashesExactly(table: Table, nodes: seq<Node>, e: MappingError)
    requires ChildrenOf(nodes).Success?
    ensures Extend(table, nodes) == Failure(e) <==> ClashFirst(nodes, table.Keys, e)
  {
    var children := ChildrenOf(nodes).value;
    ChildrenKeepNames(nodes);
    GatherGathers(children);
    InsertFailsExactly(table, Gather(children), table.Keys, e);
    GatherKeepsFirst(children, table.Keys);
    FirstChildExactly(nodes, children, table.Keys, e);
  }

  // ---------- nodes ----------

  lemma OwnFailsExactly(entries: seq<Entry>, e: MappingError)
    requires |Arguments(entries)| <= 1
    ensures OwnTable(Arguments(entries), Properties(entries)) == Failure(e) <==> OwnFault(entries, e)
  {
    var arguments, properties := Arguments(entries), Properties(entries);
    if arguments == [] {
      var empty: Table := map[];
      assert empty.Keys == {};
      PropertiesFailExactly(empty, properties, e);
    } else {
      var a := arguments[0];
      ScalarFailsExactly(a, e);
      assert IllegalFirst(arguments, e) <==> IllegalAt(arguments, 0, e);
      if LegalScalar(a.value) {
        var id: Table := map["id" := ScalarToValue(a.value, a.at).value];
        assert id.Keys == {"id"};
        PropertiesFailExactly(id, properties, e);
      } else {
        assert a in arguments;
      }
    }
  }

  lemma AnnotationsSplit(entries: seq<Entry>)
    ensures FirstAnnotation(entries).Some? <==> exists x :: x in entries && x.ty.Some?
  {
    EntriesSplit(entries);
  }

  /** A node is refused with an error exactly when that is its first fault. */
  lemma {:induction false} NodeErrorExactly(node: Node, e: MappingError)
    ensures NodeToValue(node) == Failure(e) <==> FirstFault(node, e)
    decreases node, 0
  {
    var arguments := Arguments(node.entries);
    AnnotationsSplit(node.entries);
    AnnotationFailsExactly(node.entries, e);
    if Unannotated(node) {
      if !IsTable(node) {
        ListFailsExactly(node, e);
      } else if |arguments| <= 1 {
        OwnFailsExactly(node.entries, e);
        if node.children.Block? {
          ChildrenErrorExactly(node.children.nodes, e);
          BlockFailsExactly(node, e);
        }
      }
    }
  }

  lemma ListFailsExactly(node: Node, e: MappingError)
    requires Unannotated(node) && !IsTable(node)
    ensures NodeToValue(node) == Failure(e) <==> IllegalFirst(Arguments(node.entries), e)
  {
    var arguments := Arguments(node.entries);
    ScalarsFailExactly(arguments, e);
    if |arguments| == 1 {
      ScalarFailsExactly(arguments[0], e);
      assert IllegalFirst(arguments, e) <==> IllegalAt(arguments, 0, e);
    }
  }

  lemma BlockFailsExactly(node: Node, e: MappingError)
    requires Unannotated(node) && node.children.Block? && |Arguments(node.entries)| <= 1
    requires ChildrenOf(node.children.nodes) == Failure(e) <==> ChildFirst(node.children.nodes, e)
    ensures NodeToValue(node) == Failure(e) <==>
      || OwnFault(node.entries, e)
      || (OwnRules(node.entries) && ChildrenFault(node.children.nodes, OwnKeys(node.entries), e))
  {
    var own, nodes := OwnTable(Arguments(node.entries), Properties(node.entries)), node.children.nodes;
    OwnFailsExactly(node.entries, e);
    OwnTableHolds(node.entries);
    ChildrenMapExactly(nodes);
    if own.Success? && ChildrenOf(nodes).Success? {
      ClashesExactly(own.value, nodes, e);
    }
  }

  lemma {:induction false} ChildrenErrorExactly(nodes: seq<Node>, e: MappingError)
    ensures ChildrenOf(nodes) == Failure(e) <==> ChildFirst(nodes, e)
    decreases nodes, 0
  {
    if nodes != [] {
      NodeErrorExactly(nodes[0], e);
      NodeMapsExactly(nodes[0]);
      ChildrenErrorExactly(nodes[1..], e);
    }
  }

  /** So is a document: its first node with a fault decides, and nothing can clash at the top. */
  lemma DocumentErrorExactly(nodes: seq<Node>, e: MappingError)
    ensures FromDocument(nodes) == Failure(e) <==> ChildFirst(nodes, e)
  {
    ChildrenErrorExactly(nodes, e);
    if ChildrenOf(nodes).Success? {
      ClashesExactly(map[], nodes, e);
    }
  }
}
