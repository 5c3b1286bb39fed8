/**
  The batch executor: every component a system touches is decoded on first
  touch, all systems run over that one decoded copy, and each touched component
  is encoded once at the end.

  A stream is the list of its segments, each one Arrow stream.
*/
module Processor {
  import opened Wrappers
  import opened ByteStrings
  import opened Components
  import opened Columns
  import opened Sequences

  /** `rowType` is the Go row type behind the component; `fn` is the author's transform of one row. */
  datatype System = System(name: string, rowType: nat, spec: Component, fn: Row -> Option<Row>)

  /** What deriving the row type and Go's typing guarantee about a system. */
  ghost predicate WellFormed(s: System) {
    && s.spec.fields != []
    && forall row :: RowFits(row, s.spec.fields) && s.fn(row).Some? ==> RowFits(s.fn(row).value, s.spec.fields)
  }

  ghost predicate AllWellFormed(systems: seq<System>) {
    forall i :: 0 <= i < |systems| ==> WellFormed(systems[i])
  }

  /** What building the processor guarantees: one schema per component name. */
  ghost predicate OneSchemaPerName(systems: seq<System>) {
    forall i, j :: 0 <= i < |systems| && 0 <= j < |systems| && systems[i].spec.name == systems[j].spec.name ==>
      systems[i].spec == systems[j].spec
  }

  function Specs(systems: seq<System>): seq<Component> {
    seq(|systems|, i requires 0 <= i < |systems| => systems[i].spec)
  }

  /** Building a processor refuses two schemas under one name, and nothing else. */
  lemma BuiltExactlyOnOneSchemaPerName(systems: seq<System>)
    requires Derived(Specs(systems))
    ensures OneSchemaPerName(systems) <==> !Clash(Specs(systems))
  {
    var declared := Specs(systems);
    if !OneSchemaPerName(systems) {
      var i, j :| 0 <= i < |systems| && 0 <= j < |systems|
        && systems[i].spec.name == systems[j].spec.name && systems[i].spec != systems[j].spec;
      assert declared[i] == systems[i].spec && declared[j] == systems[j].spec;
      assert declared[i] in declared && declared[j] in declared;
    }
    if Clash(declared) {
      var c, d :| c in declared && d in declared && c.name == d.name && c.fields != d.fields;
      var i :| 0 <= i < |declared| && declared[i] == c;
      var j :| 0 <= j < |declared| && declared[j] == d;
      assert systems[i].spec == c && systems[j].spec == d;
    }
  }

  datatype RunError =
    | NoSegments
    | RowTypeClash(component: Bytes)
    | NoComponent(component: Bytes)
    | Unreadable(component: Bytes)
    | TransformFailed(system: string)
    | WriteRefused(component: Bytes)

  // ---------- the systems ----------

  datatype Decoded = Decoded(rowType: nat, spec: Component, rows: seq<Row>)

  type Cache = map<Bytes, Decoded>

  /** The first segment declaring `name`, or `|stream|`. */
  function Find(codec: Codec, stream: seq<Bytes>, name: Bytes): (i: nat)
    ensures i <= |stream|
    ensures i < |stream| ==> codec.labelOf(stream[i]) == name
    ensures forall j :: 0 <= j < i ==> codec.labelOf(stream[j]) != name
  {
    if stream == [] || codec.labelOf(stream[0]) == name then 0 else 1 + Find(codec, stream[1..], name)
  }

  /** The rows a system works on: the cached ones, or a fresh decode. */
  function RowsFor(codec: Codec, stream: seq<Bytes>, s: System, cache: Cache): Result<seq<Row>, RunError> {
    if s.spec.name in cache then
      if cache[s.spec.name].rowType == s.rowType then Success(cache[s.spec.name].rows)
      else Failure(RowTypeClash(s.spec.name))
    else
      var i := Find(codec, stream, s.spec.name);
      if i == |stream| then Failure(NoComponent(s.spec.name))
      else
        var rows := DecodeRows(codec, stream[i], s.spec.fields);
        if rows.None? then Failure(Unreadable(s.spec.name)) else Success(rows.value)
  }

  function TransformRows(fn: Row -> Option<Row>, rows: seq<Row>): Option<seq<Row>> {
    if rows == [] then Some([])
    else if fn(rows[0]).None? then None
    else
      var rest := TransformRows(fn, rows[1..]);
      if rest.None? then None else Some([fn(rows[0]).value] + rest.value)
  }

  function RunSystem(codec: Codec, stream: seq<Bytes>, s: System, cache: Cache): Result<Cache, RunError> {
    match RowsFor(codec, stream, s, cache)
    case Failure(e) => Failure(e)
    case Success(rows) =>
      var after := TransformRows(s.fn, rows);
      if after.None? then Failure(TransformFailed(s.name))
      else Success(cache[s.spec.name := Decoded(s.rowType, s.spec, after.value)])
  }

  /** The systems in order, sharing one cache. */
  function RunSystems(codec: Codec, stream: seq<Bytes>, systems: seq<System>): Result<Cache, RunError> {
    if systems == [] then Success(map[])
    else
      match RunSystems(codec, stream, systems[..|systems| - 1])
      case Failure(e) => Failure(e)
      case Success(cache) => RunSystem(codec, stream, systems[|systems| - 1], cache)
  }

  // ---------- the writer ----------

  datatype Segment = Segment(name: Bytes, rows: nat, ipc: Bytes)

  /** Component segments in order of first writing, and the liveness segment apart from them. */
  datatype Writer = Writer(segments: seq<Segment>, alive: Option<Segment>)

  const NEW_WRITER := Writer([], None)

  /** Writing a name twice replaces that segment where it stands. */
  function Put(segments: seq<Segment>, s: Segment): seq<Segment> {
    if segments == [] then [s]
    else if segments[0].name == s.name then [s] + segments[1..]
    else [segments[0]] + Put(segments[1..], s)
  }

  predicate CoveredByAlive(w: Writer, rows: nat) {
    w.alive.Some? ==> rows <= w.alive.value.rows
  }

  predicate CacheFits(cache: Cache) {
    forall n :: n in cache ==> forall i :: 0 <= i < |cache[n].rows| ==> |cache[n].rows[i]| == |cache[n].spec.fields|
  }

  /** One input segment: re-encoded if a system touched it, copied otherwise. */
  function WriteOne(codec: Codec, w: Writer, ipc: Bytes, cache: Cache): Result<Writer, RunError>
    requires CacheFits(cache)
  {
    var name := codec.labelOf(ipc);
    if name in cache then
      var d := cache[name];
      var encoded := codec.encode(d.spec, ColumnsOf(d.rows, d.spec.fields));
      if encoded.None? || !CoveredByAlive(w, |d.rows|) then Failure(WriteRefused(name))
      else Success(w.(segments := Put(w.segments, Segment(name, |d.rows|, encoded.value))))
    else
      var s := Segment(name, codec.rows(ipc), ipc);
      if name == [] || ipc == [] then Failure(WriteRefused(name))
      else if name == ALIVE then
        if exists i :: 0 <= i < |w.segments| && w.segments[i].rows > s.rows then Failure(WriteRefused(name))
        else Success(w.(alive := Some(s)))
      else if !CoveredByAlive(w, s.rows) then Failure(WriteRefused(name))
      else Success(w.(segments := Put(w.segments, s)))
  }

  function WriteAll(codec: Codec, w: Writer, stream: seq<Bytes>, cache: Cache): Result<Writer, RunError>
    requires CacheFits(cache)
    decreases |stream|
  {
    if stream == [] then Success(w)
    else
      match WriteOne(codec, w, stream[0], cache)
      case Failure(e) => Failure(e)
      case Success(next) => WriteAll(codec, next, stream[1..], cache)
  }

  function MaxRows(segments: seq<Segment>): nat {
    if segments == [] then 0
    else
      var rest := MaxRows(segments[1..]);
      if segments[0].rows > rest then segments[0].rows else rest
  }

  function Streams(segments: seq<Segment>): (out: seq<Bytes>)
    ensures |out| == |segments|
    ensures forall i :: 0 <= i < |segments| ==> out[i] == segments[i].ipc
  {
    if segments == [] then [] else [segments[0].ipc] + Streams(segments[1..])
  }

  /** The liveness segment comes last; a stream without one gets an all-alive bitmap of its longest component. */
  function Output(codec: Codec, w: Writer): seq<Bytes> {
    Streams(w.segments) + [if w.alive.Some? then w.alive.value.ipc else codec.alive(MaxRows(w.segments))]
  }

  // ---------- one batch ----------

  lemma {:induction false} TransformKeepsFit(fn: Row -> Option<Row>, rows: seq<Row>, fields: seq<Field>)
    requires RowsFit(rows, fields)
    requires forall row :: RowFits(row, fields) && fn(row).Some? ==> RowFits(fn(row).value, fields)
    ensures TransformRows(fn, rows).Some? ==>
      RowsFit(TransformRows(fn, rows).value, fields) && |TransformRows(fn, rows).value| == |rows|
  {
    if rows != [] {
      TransformKeepsFit(fn, rows[1..], fields);
    }
  }

  /** Every cached component is a system's, well typed, and as long as the segment it came from. */
  ghost predicate CacheInv(codec: Codec, stream: seq<Bytes>, systems: seq<System>, cache: Cache) {
    forall n :: n in cache ==>
      && cache[n].spec.name == n && RowsFit(cache[n].rows, cache[n].spec.fields)
      && Find(codec, stream, n) < |stream| && |cache[n].rows| == codec.rows(stream[Find(codec, stream, n)])
      && exists i :: 0 <= i < |systems| && systems[i].spec == cache[n].spec && systems[i].rowType == cache[n].rowType
  }

  lemma RunSystemKeepsCache(codec: Codec, stream: seq<Bytes>, systems: seq<System>, s: System, cache: Cache)
    requires Lawful(codec) && WellFormed(s) && CacheInv(codec, stream, systems, cache)
    requires OneSchemaPerName(systems + [s])
    requires RunSystem(codec, stream, s, cache).Success?
    ensures CacheInv(codec, stream, systems + [s], RunSystem(codec, stream, s, cache).value)
  {
    var after := RunSystem(codec, stream, s, cache).value;
    var rows := RowsFor(codec, stream, s, cache).value;
    var name := s.spec.name;
    var all := systems + [s];
    if name in cache {
      var i :| 0 <= i < |systems| && systems[i].spec == cache[name].spec && systems[i].rowType == cache[name].rowType;
      assert all[i] == systems[i] && all[|systems|] == s;
    } else {
      DecodedRowsFit(codec, stream[Find(codec, stream, name)], s.spec.fields);
    }
    TransformKeepsFit(s.fn, rows, s.spec.fields);
    forall n | n in after
      ensures exists i :: 0 <= i < |all| && all[i].spec == after[n].spec && all[i].rowType == after[n].rowType
    {
      if n == name {
        assert all[|systems|] == s;
      } else {
        var i :| 0 <= i < |systems| && systems[i].spec == cache[n].spec && systems[i].rowType == cache[n].rowType;
        assert all[i] == systems[i];
      }
    }
  }

  lemma {:induction false} RunSystemsKeepsCache(codec: Codec, stream: seq<Bytes>, systems: seq<System>)
    requires Lawful(codec) && AllWellFormed(systems) && OneSchemaPerName(systems)
    ensures RunSystems(codec, stream, systems).Success? ==>
      CacheInv(codec, stream, systems, RunSystems(codec, stream, systems).value)
  {
    if systems != [] {
      var init, last := systems[..|systems| - 1], systems[|systems| - 1];
      assert systems == init + [last];
      RunSystemsKeepsCache(codec, stream, init);
      if RunSystems(codec, stream, systems).Success? {
        RunSystemKeepsCache(codec, stream, init, last, RunSystems(codec, stream, init).value);
      }
    }
  }

  function RunBatch(codec: Codec, systems: seq<System>, stream: seq<Bytes>): Result<seq<Bytes>, RunError>
    requires Lawful(codec) && AllWellFormed(systems) && OneSchemaPerName(systems)
  {
    if stream == [] then Failure(NoSegments)
    else
      match RunSystems(codec, stream, systems)
      case Failure(e) => Failure(e)
      case Success(cache) =>
        RunSystemsKeepsCache(codec, stream, systems);
        match WriteAll(codec, NEW_WRITER, stream, cache)
        case Failure(e) => Failure(e)
        case Success(w) => Success(Output(codec, w))
  }

  // ---------- the loops ----------

  /** The rows of a component: the cached ones under the same row type, or a decode on first touch. */
  method RowsOf(codec: Codec, stream: seq<Bytes>, s: System, cache: Cache) returns (r: Result<seq<Row>, RunError>)
    requires ReadsWholeColumns(codec)
    ensures r == RowsFor(codec, stream, s, cache)
  {
    if s.spec.name in cache {
      var d := cache[s.spec.name];
      return if d.rowType == s.rowType then Success(d.rows) else Failure(RowTypeClash(s.spec.name));
    }
    var i := Find(codec, stream, s.spec.name);
    if i == |stream| {
      return Failure(NoComponent(s.spec.name));
    }
    var rows := Decode(codec, stream[i], s.spec.fields);
    r := if rows.None? then Failure(Unreadable(s.spec.name)) else Success(rows.value);
  }

  /** One system over its rows, in order, up to the first row it refuses. */
  method RunOne(codec: Codec, stream: seq<Bytes>, s: System, cache: Cache) returns (r: Result<Cache, RunError>)
    requires ReadsWholeColumns(codec)
    ensures r == RunSystem(codec, stream, s, cache)
  {
    var found := RowsOf(codec, stream, s, cache);
    if found.Failure? {
      return Failure(found.error);
    }
    var rows, done: seq<Row>, i := found.value, [], 0;
    assert rows[0..] == rows;
    Prepended([], TransformRows(s.fn, rows));
    while i < |rows|
      invariant 0 <= i <= |rows|
      invariant TransformRows(s.fn, rows) == After(done, TransformRows(s.fn, rows[i..]))
    {
      assert rows[i..][1..] == rows[i + 1..];
      var row := s.fn(rows[i]);
      if row.None? {
        return Failure(TransformFailed(s.name));
      }
      AfterOne(done, row.value, TransformRows(s.fn, rows[i + 1..]));
      done := done + [row.value];
      i := i + 1;
    }
    assert done + [] == done;
    r := Success(cache[s.spec.name := Decoded(s.rowType, s.spec, done)]);
  }

  /** One input segment into the writer: gathered into columns and encoded if it is cached, copied otherwise. */
  method WriteSegment(codec: Codec, w: Writer, ipc: Bytes, cache: Cache) returns (r: Result<Writer, RunError>)
    requires CacheFits(cache)
    ensures r == WriteOne(codec, w, ipc, cache)
  {
    var name := codec.labelOf(ipc);
    if name in cache {
      var d := cache[name];
      var columns := GatherColumns(d.rows, d.spec.fields);
      var encoded := codec.encode(d.spec, columns);
      if encoded.None? || !CoveredByAlive(w, |d.rows|) {
        return Failure(WriteRefused(name));
      }
      return Success(w.(segments := Put(w.segments, Segment(name, |d.rows|, encoded.value))));
    }
    var s := Segment(name, codec.rows(ipc), ipc);
    if name == [] || ipc == [] {
      return Failure(WriteRefused(name));
    }
    if name == ALIVE {
      if exists i :: 0 <= i < |w.segments| && w.segments[i].rows > s.rows {
        return Failure(WriteRefused(name));
      }
      return Success(w.(alive := Some(s)));
    }
    if !CoveredByAlive(w, s.rows) {
      return Failure(WriteRefused(name));
    }
    r := Success(w.(segments := Put(w.segments, s)));
  }

  /** The systems in order, over one cache, up to the first that fails. */
  method RunAll(codec: Codec, stream: seq<Bytes>, systems: seq<System>) returns (r: Result<Cache, RunError>)
    requires ReadsWholeColumns(codec)
    ensures r == RunSystems(codec, stream, systems)
  {
    var cache: Cache := map[];
    var k := 0;
    while k < |systems|
      invariant 0 <= k <= |systems|
      invariant RunSystems(codec, stream, systems[..k]) == Success(cache)
    {
      assert systems[..k + 1][..k] == systems[..k];
      var next := RunOne(codec, stream, systems[k], cache);
      if next.Failure? {
        FailureStays(codec, stream, systems, k + 1);
        return Failure(next.error);
      }
      cache := next.value;
      k := k + 1;
    }
    assert systems[..k] == systems;
    r := Success(cache);
  }

  /** The segments in order into one writer, up to the first it refuses. */
  method WriteStream(codec: Codec, stream: seq<Bytes>, cache: Cache) returns (r: Result<Writer, RunError>)
    requires CacheFits(cache)
    ensures r == WriteAll(codec, NEW_WRITER, stream, cache)
  {
    var w := NEW_WRITER;
    var i := 0;
    assert stream[0..] == stream;
    while i < |stream|
      invariant 0 <= i <= |stream|
      invariant WriteAll(codec, NEW_WRITER, stream, cache) == WriteAll(codec, w, stream[i..], cache)
    {
      assert stream[i..][1..] == stream[i + 1..];
      var next := WriteSegment(codec, w, stream[i], cache);
      if next.Failure? {
        return Failure(next.error);
      }
      w := next.value;
      i := i + 1;
    }
    r := Success(w);
  }

  method Execute(codec: Codec, systems: seq<System>, stream: seq<Bytes>) returns (r: Result<seq<Bytes>, RunError>)
    requires Lawful(codec) && AllWellFormed(systems) && OneSchemaPerName(systems)
    ensures r == RunBatch(codec, systems, stream)
  {
    if stream == [] {
      return Failure(NoSegments);
    }
    RunSystemsKeepsCache(codec, stream, systems);
    var cache := RunAll(codec, stream, systems);
    if cache.Failure? {
      return Failure(cache.error);
    }
    var w := WriteStream(codec, stream, cache.value);
    if w.Failure? {
      return Failure(w.error);
    }
    r := Success(Output(codec, w.value));
  }

  lemma {:induction false} FailureStays(codec: Codec, stream: seq<Bytes>, systems: seq<System>, k: nat)
    requires k <= |systems| && RunSystems(codec, stream, systems[..k]).Failure?
    ensures RunSystems(codec, stream, systems) == RunSystems(codec, stream, systems[..k])
    decreases |systems|
  {
    if k < |systems| {
      var init := systems[..|systems| - 1];
      assert init[..k] == systems[..k];
      FailureStays(codec, stream, init, k);
    } else {
      assert systems[..k] == systems;
    }
  }
}
