/**
  The schema-blind mapping from a KDL document to a table of values.

  `NodeToValue` and `Extend` follow the code branch by branch, first error
  included. `Legal` and `Describes` say, without following it, which documents
  map and what the table then holds.
*/
module KdlMapping {
  import opened Wrappers
  import opened Sequences

  // ---------- the document ----------

  datatype FloatValue = Finite(v: real) | NonFinite

  datatype Scalar = Text(s: string) | Flag(b: bool) | Integer(i: int) | Float(f: FloatValue) | Null

  /** An argument has no name, a property has one. */
  datatype Entry = Entry(name: Option<string>, ty: Option<string>, value: Scalar, at: nat)

  /** A node's children block, which may be absent or empty. */
  datatype Block = NoBlock | Block(nodes: seq<Node>)

  datatype Node = Node(name: string, ty: Option<string>, entries: seq<Entry>, children: Block, at: nat)

  // ---------- the value tree ----------

  datatype Value =
    | String(s: string)
    | Bool(b: bool)
    | Int(i: int)
    | Real(r: real)
    | Array(items: seq<Value>)
    | Object(fields: Table)

  type Table = map<string, Value>

  /** Every error carries the offset its position in the text is computed from. */
  datatype MappingError =
    | Annotated(ty: string, at: nat)
    | TooManyArguments(found: nat, at: nat)
    | DuplicateKey(key: string, at: nat)
    | NullValue(at: nat)
    | NotFinite(at: nat)
    | TooWide(i: int, at: nat)

  // ---------- scalars ----------

  const I64_MIN: int := -0x8000_0000_0000_0000
  const U64_MAX: int := 0xFFFF_FFFF_FFFF_FFFF

  function ScalarToValue(value: Scalar, at: nat): Result<Value, MappingError> {
    match value
    case Text(s) => Success(String(s))
    case Flag(b) => Success(Bool(b))
    case Integer(i) => if I64_MIN <= i <= U64_MAX then Success(Int(i)) else Failure(TooWide(i, at))
    case Float(Finite(r)) => Success(Real(r))
    case Float(NonFinite) => Failure(NotFinite(at))
    case Null => Failure(NullValue(at))
  }

  function ScalarsToValues(entries: seq<Entry>): Result<seq<Value>, MappingError> {
    if entries == [] then Success([])
    else
      match ScalarToValue(entries[0].value, entries[0].at)
      case Failure(e) => Failure(e)
      case Success(v) =>
        match ScalarsToValues(entries[1..])
        case Failure(e) => Failure(e)
        case Success(vs) => Success([v] + vs)
  }

  // ---------- one node ----------

  function Arguments(entries: seq<Entry>): seq<Entry> {
    if entries == [] then []
    else (if entries[0].name.None? then [entries[0]] else []) + Arguments(entries[1..])
  }

  function Properties(entries: seq<Entry>): (ps: seq<Entry>)
    ensures forall p :: p in ps ==> p.name.Some?
  {
    if entries == [] then []
    else (if entries[0].name.Some? then [entries[0]] else []) + Properties(entries[1..])
  }

  function FirstAnnotation(entries: seq<Entry>): Option<MappingError> {
    if entries == [] then None
    else if entries[0].ty.Some? then Some(Annotated(entries[0].ty.value, entries[0].at))
    else FirstAnnotation(entries[1..])
  }

  function AddProperties(table: Table, properties: seq<Entry>): Result<Table, MappingError>
    requires forall p :: p in properties ==> p.name.Some?
    decreases |properties|
  {
    if properties == [] then Success(table)
    else
      var p := properties[0];
      if p.name.value in table then Failure(DuplicateKey(p.name.value, p.at))
      else
        match ScalarToValue(p.value, p.at)
        case Failure(e) => Failure(e)
        case Success(v) => AddProperties(table[p.name.value := v], properties[1..])
  }

  function NodeToValue(node: Node): Result<Value, MappingError>
    decreases node, 0
  {
    if node.ty.Some? then Failure(Annotated(node.ty.value, node.at))
    else if FirstAnnotation(node.entries).Some? then Failure(FirstAnnotation(node.entries).value)
    else
      var arguments, properties := Arguments(node.entries), Properties(node.entries);
      if properties == [] && node.children.NoBlock? then
        if arguments == [] then Success(Object(map[]))
        else if |arguments| == 1 then ScalarToValue(arguments[0].value, arguments[0].at)
        else
          match ScalarsToValues(arguments)
          case Failure(e) => Failure(e)
          case Success(vs) => Success(Array(vs))
      else if |arguments| > 1 then Failure(TooManyArguments(|arguments|, node.at))
      else
        match OwnTable(arguments, properties)
        case Failure(e) => Failure(e)
        case Success(table) =>
          if node.children.NoBlock? then Success(Object(table))
          else
            match Extend(table, node.children.nodes)
            case Failure(e) => Failure(e)
            case Success(full) => Success(Object(full))
  }

  /** The leading argument under `id`, then the properties. */
  function OwnTable(arguments: seq<Entry>, properties: seq<Entry>): Result<Table, MappingError>
    requires |arguments| <= 1
    requires forall p :: p in properties ==> p.name.Some?
  {
    if arguments == [] then AddProperties(map[], properties)
    else
      match ScalarToValue(arguments[0].value, arguments[0].at)
      case Failure(e) => Failure(e)
      case Success(v) => AddProperties(map["id" := v], properties)
  }

  // ---------- siblings ----------

  datatype Child = Child(name: string, value: Value, at: nat)

  datatype Group = Group(name: string, values: seq<Value>, at: nat)

  function ChildrenOf(nodes: seq<Node>): (r: Result<seq<Child>, MappingError>)
    ensures r.Success? ==> |r.value| == |nodes|
    decreases nodes, 0
  {
    if nodes == [] then Success([])
    else
      match NodeToValue(nodes[0])
      case Failure(e) => Failure(e)
      case Success(v) =>
        match ChildrenOf(nodes[1..])
        case Failure(e) => Failure(e)
        case Success(cs) => Success([Child(nodes[0].name, v, nodes[0].at)] + cs)
  }

  function GroupIndex(groups: seq<Group>, name: string): (i: nat)
    ensures i <= |groups|
    ensures i < |groups| ==> groups[i].name == name
    ensures forall j :: 0 <= j < i ==> groups[j].name != name
  {
    if groups == [] || groups[0].name == name then 0 else 1 + GroupIndex(groups[1..], name)
  }

  function AddToGroups(groups: seq<Group>, c: Child): seq<Group> {
    var i := GroupIndex(groups, c.name);
    if i < |groups| then groups[i := groups[i].(values := groups[i].values + [c.value])]
    else groups + [Group(c.name, [c.value], c.at)]
  }

  function Gather(children: seq<Child>): seq<Group> {
    if children == [] then []
    else AddToGroups(Gather(children[..|children| - 1]), children[|children| - 1])
  }

  /** One sibling stays a single value, two or more become an array. */
  function Collapse(values: seq<Value>): Value {
    if |values| == 1 then values[0] else Array(values)
  }

  function InsertGroups(table: Table, groups: seq<Group>): Result<Table, MappingError>
    decreases |groups|
  {
    if groups == [] then Success(table)
    else if groups[0].name in table then Failure(DuplicateKey(groups[0].name, groups[0].at))
    else InsertGroups(table[groups[0].name := Collapse(groups[0].values)], groups[1..])
  }

  function Extend(table: Table, nodes: seq<Node>): Result<Table, MappingError>
    decreases nodes, 1
  {
    match ChildrenOf(nodes)
    case Failure(e) => Failure(e)
    case Success(children) => InsertGroups(table, Gather(children))
  }

  function FromDocument(nodes: seq<Node>): Result<Table, MappingError> {
    Extend(map[], nodes)
  }

  // ---------- reading a list back ----------

  /** `one_or_many`: an array is its items, anything else is a list of one. */
  function OneOrMany(v: Value): seq<Value> {
    if v.Array? then v.items else [v]
  }

  lemma ArrayIsNotItsOwnItem(v: Value)
    ensures v.Array? ==> v.items != [v]
    decreases v
  {
    if v.Array? && v.items != [] {
      ArrayIsNotItsOwnItem(v.items[0]);
    }
  }

  /** The siblings come back exactly, unless there is one and it is itself an array. */
  lemma OneOrManyInvertsCollapse(values: seq<Value>)
    requires values != []
    ensures OneOrMany(Collapse(values)) == values <==> !(|values| == 1 && values[0].Array?)
  {
    if |values| == 1 {
      ArrayIsNotItsOwnItem(values[0]);
      assert values == [values[0]];
    }
  }

  /** A node with nothing but two arguments or more. */
  predicate PlainList(node: Node) {
    Properties(node.entries) == [] && node.children.NoBlock? && |Arguments(node.entries)| > 1
  }

  lemma ArrayFromPlainList(node: Node)
    requires NodeToValue(node).Success?
    ensures NodeToValue(node).value.Array? <==> PlainList(node)
  {
  }

  /** In terms of the document: siblings come back exactly unless there is one and it is a plain list. */
  lemma SiblingsReadBackExactly(nodes: seq<Node>, values: seq<Value>)
    requires nodes != [] && |values| == |nodes|
    requires forall i :: 0 <= i < |nodes| ==> NodeToValue(nodes[i]) == Success(values[i])
    ensures OneOrMany(Collapse(values)) == values <==> !(|nodes| == 1 && PlainList(nodes[0]))
  {
    OneOrManyInvertsCollapse(values);
    ArrayFromPlainList(nodes[0]);
  }

  function Pair(first: int, second: int): Node {
    Node("pair", None, [Entry(None, None, Integer(first), 0), Entry(None, None, Integer(second), 0)], NoBlock, 0)
  }

  /** A list written as one node of two arguments is read as two siblings. */
  lemma OneListReadAsTwo(first: int, second: int)
    requires I64_MIN <= first <= U64_MAX && I64_MIN <= second <= U64_MAX
    ensures NodeToValue(Pair(first, second)) == Success(Array([Int(first), Int(second)]))
    ensures OneOrMany(Collapse([Array([Int(first), Int(second)])])) == [Int(first), Int(second)]
  {
    var entries := Pair(first, second).entries;
    var last: seq<Entry>, none: seq<Value> := [entries[1]], [];
    assert entries[1..] == last && last[1..] == [] && [entries[0]] + last == entries;
    assert Arguments(last) == last && Properties(last) == [] && FirstAnnotation(last) == None;
    assert Arguments(entries) == entries && Properties(entries) == [] && FirstAnnotation(entries) == None;
    assert [Int(second)] + none == [Int(second)] && ScalarsToValues(last[1..]) == Success(none);
    assert ScalarsToValues(last) == Success([Int(second)]);
    assert ScalarsToValues(entries) == Success([Int(first)] + [Int(second)]);
    assert [Int(first)] + [Int(second)] == [Int(first), Int(second)];
  }

  // ---------- which documents map ----------

  predicate LegalScalar(value: Scalar) {
    match value
    case Integer(i) => -0x8000_0000_0000_0000 <= i < 0x1_0000_0000_0000_0000
    case Float(f) => f.Finite?
    case Null => false
    case _ => true
  }

  predicate IsTable(node: Node) {
    Properties(node.entries) != [] || node.children.Block?
  }

  /** The keys a node's own entries take: `id` for a leading argument, and the property names. */
  function OwnKeys(entries: seq<Entry>): set<string> {
    (if Arguments(entries) == [] then {} else {"id"}) + (set p | p in Properties(entries) :: p.name.value)
  }

  ghost predicate DistinctProperties(properties: seq<Entry>)
    requires forall p :: p in properties ==> p.name.Some?
  {
    forall i, j :: 0 <= i < j < |properties| ==> properties[i].name.value != properties[j].name.value
  }

  /** No rule of the mapping is broken at this node or below it. */
  ghost predicate Legal(node: Node)
    decreases node, 0
  {
    && node.ty.None?
    && (forall e :: e in node.entries ==> e.ty.None? && LegalScalar(e.value))
    && (IsTable(node) ==>
      && |Arguments(node.entries)| <= 1
      && DistinctProperties(Properties(node.entries))
      && (Arguments(node.entries) != [] ==> forall p :: p in Properties(node.entries) ==> p.name != Some("id"))
      && (node.children.Block? ==>
        && LegalAll(node.children.nodes)
        && forall c :: c in node.children.nodes ==> c.name !in OwnKeys(node.entries)))
  }

  ghost predicate LegalAll(nodes: seq<Node>)
    decreases nodes, 1
  {
    nodes != [] ==> Legal(nodes[0]) && LegalAll(nodes[1..])
  }

  /** What each kind of scalar means in a configuration. */
  ghost predicate ScalarIs(value: Scalar, v: Value) {
    match value
    case Text(s) => v == String(s)
    case Flag(b) => v == Bool(b)
    case Integer(i) => v == Int(i) && -0x8000_0000_0000_0000 <= i < 0x1_0000_0000_0000_0000
    case Float(Finite(r)) => v == Real(r)
    case _ => false
  }

  lemma ScalarMaps(value: Scalar, at: nat)
    ensures ScalarToValue(value, at).Success? <==> LegalScalar(value)
    ensures ScalarToValue(value, at).Success? ==> ScalarIs(value, ScalarToValue(value, at).value)
  {
  }

  // ---------- what a mapped table holds ----------

  /** The values of the nodes called `name`, in document order. */
  function Named(children: seq<Child>, name: string): seq<Value> {
    if children == [] then []
    else (if children[0].name == name then [children[0].value] else []) + Named(children[1..], name)
  }

  function ChildNames(children: seq<Child>): set<string> {
    set c | c in children :: c.name
  }

  /** `full` is `table` plus one key per child name: a sibling alone is held itself, several as an array in order. */
  ghost predicate Extends(full: Table, table: Table, children: seq<Child>) {
    && full.Keys == table.Keys + ChildNames(children)
    && table.Keys !! ChildNames(children)
    && (forall k :: k in table ==> full[k] == table[k])
    && (forall k :: k in ChildNames(children) ==>
      && (|Named(children, k)| == 1 ==> full[k] == Named(children, k)[0])
      && (|Named(children, k)| != 1 ==> full[k] == Array(Named(children, k))))
  }

  /** The nodes' names, each with a value its node describes. */
  ghost predicate DescribesAll(nodes: seq<Node>, children: seq<Child>)
    decreases nodes
  {
    && |children| == |nodes|
    && forall i :: 0 <= i < |nodes| ==> children[i].name == nodes[i].name && Describes(nodes[i], children[i].value)
  }

  ghost predicate HoldsOwnEntries(table: Table, entries: seq<Entry>) {
    && table.Keys == OwnKeys(entries)
    && (Arguments(entries) != [] ==> ScalarIs(Arguments(entries)[0].value, table["id"]))
    && (forall p :: p in Properties(entries) ==> ScalarIs(p.value, table[p.name.value]))
  }

  /** What the mapping rules say about a node's value. */
  ghost predicate Describes(node: Node, v: Value)
    decreases node
  {
    if !IsTable(node) then
      var arguments := Arguments(node.entries);
      if arguments == [] then v == Object(map[])
      else if |arguments| == 1 then ScalarIs(arguments[0].value, v)
      else
        && v.Array? && |v.items| == |arguments|
        && forall i :: 0 <= i < |arguments| ==> ScalarIs(arguments[i].value, v.items[i])
    else
      v.Object? &&
      exists own: Table ::
        && HoldsOwnEntries(own, node.entries)
        && (node.children.NoBlock? ==> v.fields == own)
        && (node.children.Block? ==>
          exists children: seq<Child> :: DescribesAll(node.children.nodes, children) && Extends(v.fields, own, children))
  }

  // ---------- scalars and properties ----------

  lemma {:induction false} EntriesSplit(entries: seq<Entry>)
    ensures forall e :: e in Arguments(entries) <==> e in entries && e.name.None?
    ensures forall e :: e in Properties(entries) <==> e in entries && e.name.Some?
    ensures FirstAnnotation(entries).None? <==> forall e :: e in entries ==> e.ty.None?
  {
    if entries != [] {
      EntriesSplit(entries[1..]);
      assert forall e :: e in entries <==> e == entries[0] || e in entries[1..];
    }
  }

  /** Arguments and properties keep the order they are written in: one entry more goes last. */
  lemma {:induction false} EntriesInOrder(entries: seq<Entry>, last: Entry)
    ensures Arguments([]) == [] && Properties([]) == []
    ensures Arguments(entries + [last]) == if last.name.None? then Arguments(entries) + [last] else Arguments(entries)
    ensures Properties(entries + [last]) == if last.name.Some? then Properties(entries) + [last] else Properties(entries)
    decreases |entries|
  {
    if entries == [] {
      assert entries + [last] == [last] && [last][1..] == [];
    } else {
      assert (entries + [last])[1..] == entries[1..] + [last];
      EntriesInOrder(entries[1..], last);
    }
  }

  lemma {:induction false} ScalarsInOrder(entries: seq<Entry>)
    ensures ScalarsToValues(entries).Success? <==> forall e :: e in entries ==> LegalScalar(e.value)
    ensures ScalarsToValues(entries).Success? ==>
      && |ScalarsToValues(entries).value| == |entries|
      && forall i :: 0 <= i < |entries| ==>
        ScalarIs(entries[i].value, ScalarsToValues(entries).value[i])
  {
    if entries != [] {
      ScalarMaps(entries[0].value, entries[0].at);
      ScalarsInOrder(entries[1..]);
      assert forall e :: e in entries <==> e == entries[0] || e in entries[1..];
    }
  }

  function PropertyKeys(properties: seq<Entry>): set<string>
    requires forall p :: p in properties ==> p.name.Some?
  {
    set p | p in properties :: p.name.value
  }

  lemma {:induction false} PropertiesAdded(table: Table, ps: seq<Entry>)
    requires forall p :: p in ps ==> p.name.Some?
    ensures AddProperties(table, ps).Success? <==>
      && (forall p :: p in ps ==> LegalScalar(p.value) && p.name.value !in table)
      && DistinctProperties(ps)
    ensures AddProperties(table, ps).Success? ==>
      var full := AddProperties(table, ps).value;
      && full.Keys == table.Keys + PropertyKeys(ps)
      && (forall k :: k in table ==> full[k] == table[k])
      && (forall p :: p in ps ==> ScalarIs(p.value, full[p.name.value]))
    decreases |ps|
  {
    if ps != [] {
      var p, rest := ps[0], ps[1..];
      FirstProperty(ps);
      ScalarMaps(p.value, p.at);
      if p.name.value !in table && LegalScalar(p.value) {
        PropertiesAdded(table[p.name.value := ScalarToValue(p.value, p.at).value], rest);
      }
    }
  }

  lemma FirstProperty(ps: seq<Entry>)
    requires ps != [] && forall p :: p in ps ==> p.name.Some?
    ensures forall q :: q in ps <==> q == ps[0] || q in ps[1..]
    ensures PropertyKeys(ps) == {ps[0].name.value} + PropertyKeys(ps[1..])
    ensures DistinctProperties(ps) <==>
      DistinctProperties(ps[1..]) && forall q :: q in ps[1..] ==> q.name.value != ps[0].name.value
  {
    var rest := ps[1..];
    assert forall q :: q in ps <==> q == ps[0] || q in rest;
    if DistinctProperties(ps) {
      forall q | q in rest ensures q.name.value != ps[0].name.value {
        var i :| 0 <= i < |rest| && rest[i] == q;
        assert ps[i + 1] == q;
      }
    }
    forall j | 0 < j < |ps| ensures ps[j] == rest[j - 1] && ps[j] in rest {
    }
  }

  /** What the mapping asks of a table's own entries. */
  ghost predicate OwnRules(entries: seq<Entry>) {
    && (forall e :: e in entries ==> LegalScalar(e.value))
    && DistinctProperties(Properties(entries))
    && (Arguments(entries) != [] ==> forall p :: p in Properties(entries) ==> p.name != Some("id"))
  }

  lemma OwnTableHolds(entries: seq<Entry>)
    requires |Arguments(entries)| <= 1
    ensures OwnTable(Arguments(entries), Properties(entries)).Success? <==> OwnRules(entries)
    ensures OwnTable(Arguments(entries), Properties(entries)).Success? ==>
      HoldsOwnEntries(OwnTable(Arguments(entries), Properties(entries)).value, entries)
  {
    var arguments, properties := Arguments(entries), Properties(entries);
    EntriesSplit(entries);
    if arguments == [] {
      assert forall e :: e in entries <==> e in properties;
      PropertiesAdded(map[], properties);
    } else {
      var a := arguments[0];
      assert arguments == [a] && a in arguments && a in entries;
      assert forall e :: e in entries <==> e == a || e in properties;
      ScalarMaps(a.value, a.at);
      if LegalScalar(a.value) {
        PropertiesAdded(map["id" := ScalarToValue(a.value, a.at).value], properties);
      }
    }
  }

  // ---------- gathering siblings ----------

  /** One group per name, in order of first appearance, holding that name's values in order. */
  ghost predicate Gathered(groups: seq<Group>, children: seq<Child>) {
    && (forall i, j :: 0 <= i < j < |groups| ==> groups[i].name != groups[j].name)
    && (forall i :: 0 <= i < |groups| ==>
      groups[i].name in ChildNames(children) && groups[i].values == Named(children, groups[i].name))
    && (forall k :: k in ChildNames(children) ==> GroupIndex(groups, k) < |groups|)
  }

  lemma {:induction false} NamedSnoc(children: seq<Child>, c: Child, name: string)
    ensures Named(children + [c], name) == Named(children, name) + if c.name == name then [c.value] else []
  {
    if children != [] {
      NamedSnoc(children[1..], c, name);
      assert (children + [c])[1..] == children[1..] + [c];
    }
  }

  lemma {:induction false} GatherGathers(children: seq<Child>)
    ensures Gathered(Gather(children), children)
  {
    if children != [] {
      var init, c := children[..|children| - 1], children[|children| - 1];
      GatherGathers(init);
      assert children == init + [c];
      GroupStep(Gather(init), init, c);
    }
  }

  lemma GroupStep(groups: seq<Group>, init: seq<Child>, c: Child)
    requires Gathered(groups, init)
    ensures Gathered(AddToGroups(groups, c), init + [c])
  {
    var children := init + [c];
    var i := GroupIndex(groups, c.name);
    assert ChildNames(children) == ChildNames(init) + {c.name} by {
      assert forall d :: d in children <==> d in init || d == c;
    }
    if i == |groups| {
      NamedNone(init, c.name);
      NewGroup(groups, init, c);
    } else {
      GrownGroup(groups, init, c, i);
    }
  }

  lemma NewGroup(groups: seq<Group>, init: seq<Child>, c: Child)
    requires Gathered(groups, init) && c.name !in ChildNames(init) && Named(init, c.name) == []
    requires ChildNames(init + [c]) == ChildNames(init) + {c.name}
    ensures Gathered(groups + [Group(c.name, [c.value], c.at)], init + [c])
  {
    var g := Group(c.name, [c.value], c.at);
    var grown := groups + [g];
    forall i | 0 <= i < |grown|
      ensures grown[i].name in ChildNames(init + [c]) && grown[i].values == Named(init + [c], grown[i].name)
    {
      if i < |groups| {
        NamedOther(init, c, groups[i].name);
      } else {
        NamedSnoc(init, c, c.name);
        assert [] + [c.value] == [c.value];
      }
    }
    forall k | k in ChildNames(init + [c]) ensures GroupIndex(grown, k) < |grown| {
      NameIsIndexed(groups, g, k);
    }
  }

  lemma NamedOther(init: seq<Child>, c: Child, name: string)
    requires name != c.name
    ensures Named(init + [c], name) == Named(init, name)
  {
    NamedSnoc(init, c, name);
    assert Named(init, name) + [] == Named(init, name);
  }

  lemma NameIsIndexed(groups: seq<Group>, g: Group, k: string)
    requires k == g.name || GroupIndex(groups, k) < |groups|
    ensures GroupIndex(groups + [g], k) < |groups + [g]|
  {
    var j := if k == g.name then |groups| else GroupIndex(groups, k);
    assert (groups + [g])[j].name == k;
  }

  lemma GrownGroup(groups: seq<Group>, init: seq<Child>, c: Child, i: nat)
    requires Gathered(groups, init) && i < |groups| && groups[i].name == c.name
    requires ChildNames(init + [c]) == ChildNames(init) + {c.name}
    ensures Gathered(groups[i := groups[i].(values := groups[i].values + [c.value])], init + [c])
  {
    var grown := groups[i := groups[i].(values := groups[i].values + [c.value])];
    forall j | 0 <= j < |groups|
      ensures grown[j].name == groups[j].name && grown[j].values == Named(init + [c], groups[j].name)
    {
      if j != i {
        NamedOther(init, c, groups[j].name);
      } else {
        NamedSnoc(init, c, c.name);
      }
    }
    forall k | k in ChildNames(init + [c]) ensures GroupIndex(grown, k) < |grown| {
      var j := if k == c.name then i else GroupIndex(groups, k);
      assert grown[j].name == k;
    }
  }

  lemma {:induction false} NamedNone(children: seq<Child>, name: string)
    requires name !in ChildNames(children)
    ensures Named(children, name) == []
  {
    if children != [] {
      assert children[0] in children;
      assert forall c :: c in children[1..] ==> c in children;
      NamedNone(children[1..], name);
    }
  }

  function GroupNames(groups: seq<Group>): set<string> {
    set g | g in groups :: g.name
  }

  lemma {:induction false} GroupsInserted(table: Table, groups: seq<Group>)
    requires forall i, j :: 0 <= i < j < |groups| ==> groups[i].name != groups[j].name
    ensures InsertGroups(table, groups).Success? <==> table.Keys !! GroupNames(groups)
    ensures InsertGroups(table, groups).Success? ==>
      var full := InsertGroups(table, groups).value;
      && full.Keys == table.Keys + GroupNames(groups)
      && (forall k :: k in table ==> full[k] == table[k])
      && (forall g :: g in groups ==> full[g.name] == Collapse(g.values))
    decreases |groups|
  {
    if groups != [] {
      var g, rest := groups[0], groups[1..];
      FirstGroup(groups);
      if g.name !in table {
        GroupsInserted(table[g.name := Collapse(g.values)], rest);
      }
    }
  }

  lemma FirstGroup(groups: seq<Group>)
    requires groups != [] && forall i, j :: 0 <= i < j < |groups| ==> groups[i].name != groups[j].name
    ensures forall h :: h in groups <==> h == groups[0] || h in groups[1..]
    ensures GroupNames(groups) == {groups[0].name} + GroupNames(groups[1..])
    ensures groups[0].name !in GroupNames(groups[1..])
  {
    forall h | h in groups[1..] ensures h.name != groups[0].name {
      var i :| 0 <= i < |groups[1..]| && groups[1..][i] == h;
      assert groups[i + 1] == h;
    }
    assert forall h :: h in groups <==> h == groups[0] || h in groups[1..];
  }

  /** A block of children fails on its own only by naming a key the table already has. */
  lemma ChildrenInserted(table: Table, children: seq<Child>)
    ensures InsertGroups(table, Gather(children)).Success? <==> table.Keys !! ChildNames(children)
    ensures InsertGroups(table, Gather(children)).Success? ==>
      Extends(InsertGroups(table, Gather(children)).value, table, children)
  {
    var groups := Gather(children);
    GatherGathers(children);
    GroupsInserted(table, groups);
    assert GroupNames(groups) == ChildNames(children) by {
      forall k | k in ChildNames(children) ensures k in GroupNames(groups) {
        assert groups[GroupIndex(groups, k)] in groups;
      }
    }
    if InsertGroups(table, groups).Success? {
      var full := InsertGroups(table, groups).value;
      forall k | k in ChildNames(children) ensures full[k] == Collapse(Named(children, k)) {
        assert groups[GroupIndex(groups, k)] in groups;
      }
    }
  }

  lemma {:induction false} ChildrenKeepNames(nodes: seq<Node>)
    requires ChildrenOf(nodes).Success?
    ensures forall i :: 0 <= i < |nodes| ==>
      var c := ChildrenOf(nodes).value[i];
      c.name == nodes[i].name && c.at == nodes[i].at && NodeToValue(nodes[i]) == Success(c.value)
  {
    if nodes != [] {
      ChildrenKeepNames(nodes[1..]);
    }
  }

  // ---------- the main results ----------

  /** A node maps exactly when no rule is broken in it, and its value is what the rules say. */
  lemma {:induction false} NodeMapsExactly(node: Node)
    ensures NodeToValue(node).Success? <==> Legal(node)
    ensures NodeToValue(node).Success? ==> Describes(node, NodeToValue(node).value)
    decreases node, 0
  {
    EntriesSplit(node.entries);
    if node.ty.None? && FirstAnnotation(node.entries).None? {
      if !IsTable(node) {
        ListNodeMaps(node);
      } else if node.children.NoBlock? {
        LeafTableMaps(node);
      } else {
        ChildrenMapExactly(node.children.nodes);
        BlockTableMaps(node);
      }
    }
  }

  lemma ListNodeMaps(node: Node)
    requires node.ty.None? && FirstAnnotation(node.entries).None? && !IsTable(node)
    ensures NodeToValue(node).Success? <==> Legal(node)
    ensures NodeToValue(node).Success? ==> Describes(node, NodeToValue(node).value)
  {
    EntriesSplit(node.entries);
    ScalarsInOrder(Arguments(node.entries));
    if |Arguments(node.entries)| == 1 {
      ScalarMaps(Arguments(node.entries)[0].value, Arguments(node.entries)[0].at);
    }
    assert forall e :: e in node.entries <==> e in Arguments(node.entries);
  }

  lemma LeafTableMaps(node: Node)
    requires node.ty.None? && FirstAnnotation(node.entries).None? && IsTable(node) && node.children.NoBlock?
    ensures NodeToValue(node).Success? <==> Legal(node)
    ensures NodeToValue(node).Success? ==> Describes(node, NodeToValue(node).value)
  {
    EntriesSplit(node.entries);
    if |Arguments(node.entries)| <= 1 {
      OwnTableHolds(node.entries);
    }
  }

  ghost predicate Unannotated(node: Node) {
    node.ty.None? && FirstAnnotation(node.entries).None?
  }

  lemma BlockUnfolds(node: Node)
    requires Unannotated(node) && node.children.Block?
    ensures var own := if |Arguments(node.entries)| <= 1
                       then OwnTable(Arguments(node.entries), Properties(node.entries)) else Failure(Annotated("", 0));
      && (NodeToValue(node).Success? <==> own.Success? && Extend(own.value, node.children.nodes).Success?)
      && (NodeToValue(node).Success? ==>
        NodeToValue(node).value == Object(Extend(own.value, node.children.nodes).value))
  {
  }

  lemma BlockLegal(node: Node)
    requires Unannotated(node) && node.children.Block?
    ensures Legal(node) <==>
      && |Arguments(node.entries)| <= 1 && OwnRules(node.entries)
      && LegalAll(node.children.nodes)
      && forall c :: c in node.children.nodes ==> c.name !in OwnKeys(node.entries)
  {
    EntriesSplit(node.entries);
  }

  lemma BlockTableMaps(node: Node)
    requires Unannotated(node) && node.children.Block?
    requires ChildrenOf(node.children.nodes).Success? <==> LegalAll(node.children.nodes)
    requires ChildrenOf(node.children.nodes).Success? ==>
      DescribesAll(node.children.nodes, ChildrenOf(node.children.nodes).value)
    ensures NodeToValue(node).Success? <==> Legal(node)
    ensures NodeToValue(node).Success? ==> Describes(node, NodeToValue(node).value)
  {
    BlockUnfolds(node);
    BlockLegal(node);
    if |Arguments(node.entries)| <= 1 {
      OwnTableHolds(node.entries);
      var own := OwnTable(Arguments(node.entries), Properties(node.entries));
      if own.Success? {
        BlockJoins(own.value, node.children.nodes);
        if NodeToValue(node).Success? {
          BlockDescribes(node, own.value, Extend(own.value, node.children.nodes).value,
                         ChildrenOf(node.children.nodes).value);
        }
      }
    }
  }

  lemma BlockDescribes(node: Node, own: Table, full: Table, children: seq<Child>)
    requires node.children.Block? && HoldsOwnEntries(own, node.entries)
    requires DescribesAll(node.children.nodes, children) && Extends(full, own, children)
    ensures Describes(node, Object(full))
  {
  }

  lemma BlockJoins(own: Table, nodes: seq<Node>)
    requires ChildrenOf(nodes).Success? <==> LegalAll(nodes)
    ensures Extend(own, nodes).Success? <==> LegalAll(nodes) && forall c :: c in nodes ==> c.name !in own.Keys
    ensures Extend(own, nodes).Success? ==> Extends(Extend(own, nodes).value, own, ChildrenOf(nodes).value)
  {
    if LegalAll(nodes) {
      var children := ChildrenOf(nodes).value;
      ChildrenInserted(own, children);
      NamesAgree(nodes);
    }
  }

  lemma NamesAgree(nodes: seq<Node>)
    requires ChildrenOf(nodes).Success?
    ensures ChildNames(ChildrenOf(nodes).value) == set n | n in nodes :: n.name
  {
    var children := ChildrenOf(nodes).value;
    ChildrenKeepNames(nodes);
    forall n | n in nodes ensures n.name in ChildNames(children) {
      var i :| 0 <= i < |nodes| && nodes[i] == n;
      assert children[i] in children;
    }
    forall c | c in children ensures exists n :: n in nodes && n.name == c.name {
      var i :| 0 <= i < |children| && children[i] == c;
      assert nodes[i] in nodes;
    }
  }

  lemma {:induction false} ChildrenMapExactly(nodes: seq<Node>)
    ensures ChildrenOf(nodes).Success? <==> LegalAll(nodes)
    ensures ChildrenOf(nodes).Success? ==> DescribesAll(nodes, ChildrenOf(nodes).value)
    decreases nodes, 1
  {
    if nodes != [] {
      NodeMapsExactly(nodes[0]);
      ChildrenMapExactly(nodes[1..]);
      assert forall i :: 0 < i < |nodes| ==> nodes[i] == nodes[1..][i - 1];
    }
  }

  /** A document maps exactly when every node in it is legal; its table then has one key per node name. */
  lemma DocumentMapsExactly(nodes: seq<Node>)
    ensures FromDocument(nodes).Success? <==> LegalAll(nodes)
    ensures FromDocument(nodes).Success? ==>
      exists children: seq<Child> :: DescribesAll(nodes, children) && Extends(FromDocument(nodes).value, map[], children)
  {
    ChildrenMapExactly(nodes);
    if LegalAll(nodes) {
      ChildrenInserted(map[], ChildrenOf(nodes).value);
      assert Extends(FromDocument(nodes).value, map[], ChildrenOf(nodes).value);
    }
  }

  // ---------- the code's own form ----------

  function After(done: seq<Child>, rest: Result<seq<Child>, MappingError>): Result<seq<Child>, MappingError> {
    if rest.Failure? then rest else Success(done + rest.value)
  }

  method ExtendWithDocument(table: Table, nodes: seq<Node>) returns (r: Result<Table, MappingError>)
    ensures r == Extend(table, nodes)
    decreases nodes, 1
  {
    var groups: seq<Group> := [];
    ghost var children: seq<Child> := [];
    var i := 0;
    assert nodes[0..] == nodes;
    assert ChildrenOf(nodes) == After([], ChildrenOf(nodes)) by {
      if ChildrenOf(nodes).Success? {
        assert [] + ChildrenOf(nodes).value == ChildrenOf(nodes).value;
      }
    }
    while i < |nodes|
      invariant i <= |nodes| && groups == Gather(children)
      invariant ChildrenOf(nodes) == After(children, ChildrenOf(nodes[i..]))
    {
      assert nodes[i..][1..] == nodes[i + 1..];
      var value := MapNode(nodes[i]);
      if value.Failure? {
        return Failure(value.error);
      }
      var child := Child(nodes[i].name, value.value, nodes[i].at);
      var at := GroupIndex(groups, child.name);
      if at < |groups| {
        groups := groups[at := groups[at].(values := groups[at].values + [child.value])];
      } else {
        groups := groups + [Group(child.name, [child.value], child.at)];
      }
      ChildDone(children, child, ChildrenOf(nodes[i + 1..]));
      children := children + [child];
      i := i + 1;
    }
    assert nodes[i..] == [] && children + [] == children;
    r := InsertAll(table, groups);
  }

  method InsertAll(table: Table, groups: seq<Group>) returns (r: Result<Table, MappingError>)
    ensures r == InsertGroups(table, groups)
  {
    var full := table;
    var k := 0;
    assert groups[0..] == groups;
    while k < |groups|
      invariant k <= |groups|
      invariant InsertGroups(table, groups) == InsertGroups(full, groups[k..])
    {
      assert groups[k..][1..] == groups[k + 1..];
      if groups[k].name in full {
        return Failure(DuplicateKey(groups[k].name, groups[k].at));
      }
      full := full[groups[k].name := Collapse(groups[k].values)];
      k := k + 1;
    }
    r := Success(full);
  }

  lemma ChildDone(done: seq<Child>, c: Child, rest: Result<seq<Child>, MappingError>)
    ensures Gather(done + [c]) == AddToGroups(Gather(done), c)
    ensures rest.Success? ==> After(done, Success([c] + rest.value)) == After(done + [c], rest)
  {
    assert (done + [c])[..|done + [c]| - 1] == done;
    if rest.Success? {
      assert done + ([c] + rest.value) == done + [c] + rest.value;
    }
  }

  method MapNode(node: Node) returns (r: Result<Value, MappingError>)
    ensures r == NodeToValue(node)
    decreases node, 0
  {
    if node.ty.Some? {
      return Failure(Annotated(node.ty.value, node.at));
    }
    var split := SplitEntries(node.entries);
    if split.Failure? {
      return Failure(split.error);
    }
    var (arguments, properties) := split.value;
    if properties == [] && node.children.NoBlock? {
      if arguments == [] {
        return Success(Object(map[]));
      } else if |arguments| == 1 {
        return ScalarToValue(arguments[0].value, arguments[0].at);
      }
      var values := ScalarsToValues(arguments);
      return if values.Failure? then Failure(values.error) else Success(Array(values.value));
    }
    if |arguments| > 1 {
      return Failure(TooManyArguments(|arguments|, node.at));
    }
    var own := FillTable(arguments, properties);
    if own.Failure? {
      return Failure(own.error);
    }
    if node.children.NoBlock? {
      return Success(Object(own.value));
    }
    var full := ExtendWithDocument(own.value, node.children.nodes);
    r := if full.Failure? then Failure(full.error) else Success(Object(full.value));
  }

  lemma NextEntry(entries: seq<Entry>, i: nat)
    requires i < |entries|
    ensures var e, rest := entries[i], entries[i + 1..];
      && FirstAnnotation(entries[i..]) ==
        (if e.ty.Some? then Some(Annotated(e.ty.value, e.at)) else FirstAnnotation(rest))
      && Arguments(entries[i..]) == (if e.name.None? then [e] else []) + Arguments(rest)
      && Properties(entries[i..]) == (if e.name.None? then [] else [e]) + Properties(rest)
  {
    assert entries[i..][1..] == entries[i + 1..];
  }

  method SplitEntries(entries: seq<Entry>) returns (r: Result<(seq<Entry>, seq<Entry>), MappingError>)
    ensures r == if FirstAnnotation(entries).Some? then Failure(FirstAnnotation(entries).value)
                 else Success((Arguments(entries), Properties(entries)))
  {
    var arguments, properties := [], [];
    var i := 0;
    assert entries[0..] == entries;
    while i < |entries|
      invariant i <= |entries|
      invariant FirstAnnotation(entries) == FirstAnnotation(entries[i..])
      invariant Arguments(entries) == arguments + Arguments(entries[i..])
      invariant Properties(entries) == properties + Properties(entries[i..])
    {
      var e := entries[i];
      NextEntry(entries, i);
      if e.ty.Some? {
        return Failure(Annotated(e.ty.value, e.at));
      }
      Regroup(arguments, if e.name.None? then [e] else [], Arguments(entries[i + 1..]));
      Regroup(properties, if e.name.None? then [] else [e], Properties(entries[i + 1..]));
      if e.name.None? {
        arguments := arguments + [e];
      } else {
        properties := properties + [e];
      }
      i := i + 1;
    }
    Regroup(arguments, [], []);
    Regroup(properties, [], []);
    assert entries[i..] == [];
    r := Success((arguments, properties));
  }

  method FillTable(arguments: seq<Entry>, properties: seq<Entry>) returns (r: Result<Table, MappingError>)
    requires |arguments| <= 1
    requires forall p :: p in properties ==> p.name.Some?
    ensures r == OwnTable(arguments, properties)
  {
    var table: Table := map[];
    if arguments != [] {
      var id := ScalarToValue(arguments[0].value, arguments[0].at);
      if id.Failure? {
        return Failure(id.error);
      }
      table := table["id" := id.value];
      assert table == map["id" := id.value];
    }
    var i := 0;
    assert properties[0..] == properties;
    while i < |properties|
      invariant i <= |properties|
      invariant OwnTable(arguments, properties) == AddProperties(table, properties[i..])
    {
      var p := properties[i];
      assert properties[i..][1..] == properties[i + 1..];
      if p.name.value in table {
        return Failure(DuplicateKey(p.name.value, p.at));
      }
      var value := ScalarToValue(p.value, p.at);
      if value.Failure? {
        return Failure(value.error);
      }
      table := table[p.name.value := value.value];
      i := i + 1;
    }
    r := Success(table);
  }
}
