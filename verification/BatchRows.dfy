/**
  What a batch does to the rows of a component, cell by cell and system by system,
  and which fault it reports when it does not get to the writer.

  Stated on what the codec reads from the segments before and after, not on how
  the executor goes about it.
*/
module BatchRows {
  import opened Wrappers
  import opened ByteStrings
  import opened Components
  import opened Columns
  import opened Processor
  import opened StreamWriter
  import opened FusedExecution
  import opened Sequences

  /** Row `r` of a segment holds cell `r` of every column. */
  ghost predicate IsRow(codec: Codec, ipc: Bytes, fields: seq<Field>, r: nat, row: Row) {
    && |row| == |fields|
    && forall k :: 0 <= k < |fields| ==>
      var column := codec.read(ipc, fields[k]);
      column.Some? && r < |column.value| && row[k] == column.value[r]
  }

  /** The transforms of the systems on component `name`, in the order the systems were registered. */
  function Composed(systems: seq<System>, name: Bytes, row: Row): Option<Row> {
    if systems == [] then Some(row)
    else
      var last := systems[|systems| - 1];
      match Composed(systems[..|systems| - 1], name, row)
      case None => None
      case Some(x) => if last.spec.name == name then last.fn(x) else Some(x)
  }

  lemma ComposedSnoc(init: seq<System>, s: System, name: Bytes, row: Row)
    ensures Composed(init + [s], name, row) ==
      var x := Composed(init, name, row);
      if x.None? then None else if s.spec.name == name then s.fn(x.value) else x
  {
    assert (init + [s])[..|init|] == init;
  }

  lemma {:induction false} TransformsEach(fn: Row -> Option<Row>, rows: seq<Row>)
    ensures TransformRows(fn, rows).None? <==> exists r :: 0 <= r < |rows| && fn(rows[r]).None?
    ensures TransformRows(fn, rows).Some? ==>
      && |TransformRows(fn, rows).value| == |rows|
      && forall r :: 0 <= r < |rows| ==> fn(rows[r]) == Some(TransformRows(fn, rows).value[r])
    decreases |rows|
  {
    if rows != [] {
      TransformsEach(fn, rows[1..]);
      assert forall r :: 0 < r < |rows| ==> rows[r] == rows[1..][r - 1];
      if TransformRows(fn, rows[1..]).None? && fn(rows[0]).Some? {
        var r :| 0 <= r < |rows[1..]| && fn(rows[1..][r]).None?;
        assert fn(rows[r + 1]).None?;
      }
    }
  }

  lemma RowInRange(codec: Codec, ipc: Bytes, fields: seq<Field>, r: nat, row: Row)
    requires ReadsWholeColumns(codec) && fields != [] && IsRow(codec, ipc, fields, r, row)
    ensures r < codec.rows(ipc)
  {
    assert codec.read(ipc, fields[0]).Some?;
  }

  lemma DecodedIsRow(codec: Codec, ipc: Bytes, fields: seq<Field>, r: nat, row: Row)
    requires Lawful(codec) && fields != [] && DecodeRows(codec, ipc, fields).Some?
    ensures |DecodeRows(codec, ipc, fields).value| == codec.rows(ipc)
    ensures IsRow(codec, ipc, fields, r, row) <==>
      r < codec.rows(ipc) && row == DecodeRows(codec, ipc, fields).value[r]
  {
    if IsRow(codec, ipc, fields, r, row) {
      RowInRange(codec, ipc, fields, r, row);
    }
    if r < codec.rows(ipc) {
      var decoded := DecodeRows(codec, ipc, fields).value[r];
      assert decoded == RowAt(codec, ipc, fields, r);
      if IsRow(codec, ipc, fields, r, row) {
        assert forall k :: 0 <= k < |fields| ==> row[k] == decoded[k];
        assert row == decoded;
      }
    }
  }

  lemma UnreadableExactly(codec: Codec, ipc: Bytes, fields: seq<Field>)
    requires ReadsWholeColumns(codec)
    ensures DecodeRows(codec, ipc, fields).None? <==> exists k :: 0 <= k < |fields| && codec.read(ipc, fields[k]).None?
  {
  }

  // ---------- the cache, row by row ----------

  /** Cached are exactly the components worked on, each row composed from the first copy's. */
  ghost predicate Computed(codec: Codec, stream: seq<Bytes>, systems: seq<System>, cache: Cache) {
    && (forall n :: n in cache <==> Touched(systems, n))
    && (forall n :: n in cache ==> ComputedOne(codec, stream, systems, cache[n], n))
  }

  ghost predicate ComputedOne(codec: Codec, stream: seq<Bytes>, systems: seq<System>, d: Decoded, n: Bytes) {
    var first := Find(codec, stream, n);
    && first < |stream| && d.spec.name == n && d.spec.fields != []
    && var rows := DecodeRows(codec, stream[first], d.spec.fields);
    && rows.Some? && |d.rows| == |rows.value|
    && forall r :: 0 <= r < |d.rows| ==> Composed(systems, n, rows.value[r]) == Some(d.rows[r])
  }

  lemma TouchedSnoc(init: seq<System>, s: System, n: Bytes)
    ensures Touched(init + [s], n) <==> Touched(init, n) || s.spec.name == n
  {
    var all := init + [s];
    if Touched(init, n) {
      var i :| 0 <= i < |init| && init[i].spec.name == n;
      assert all[i].spec.name == n;
    }
    assert all[|init|] == s;
  }

  lemma {:induction false} UntouchedUnchanged(systems: seq<System>, n: Bytes, row: Row)
    requires !Touched(systems, n)
    ensures Composed(systems, n, row) == Some(row)
    decreases |systems|
  {
    if systems != [] {
      var init, s := systems[..|systems| - 1], systems[|systems| - 1];
      SplitLast(systems);
      TouchedSnoc(init, s, n);
      UntouchedUnchanged(init, n, row);
    }
  }

  lemma {:induction false} CacheIsComputed(codec: Codec, stream: seq<Bytes>, systems: seq<System>)
    requires Lawful(codec) && AllWellFormed(systems) && OneSchemaPerName(systems)
    requires RunSystems(codec, stream, systems).Success?
    ensures Computed(codec, stream, systems, RunSystems(codec, stream, systems).value)
    decreases |systems|
  {
    if systems != [] {
      var init, s := systems[..|systems| - 1], systems[|systems| - 1];
      SplitLast(systems);
      PrefixFacts(init, s);
      CacheIsComputed(codec, stream, init);
      RunSystemsKeepsCache(codec, stream, init);
      ComputedStep(codec, stream, init, s, RunSystems(codec, stream, init).value);
    }
  }

  lemma ComputedStep(codec: Codec, stream: seq<Bytes>, init: seq<System>, s: System, cache: Cache)
    requires Lawful(codec) && WellFormed(s) && OneSchemaPerName(init + [s])
    requires Computed(codec, stream, init, cache) && CacheInv(codec, stream, init, cache)
    requires RunSystem(codec, stream, s, cache).Success?
    ensures Computed(codec, stream, init + [s], RunSystem(codec, stream, s, cache).value)
  {
    var after, name := RunSystem(codec, stream, s, cache).value, s.spec.name;
    forall n ensures n in after <==> Touched(init + [s], n) {
      TouchedSnoc(init, s, n);
    }
    forall n | n in after ensures ComputedOne(codec, stream, init + [s], after[n], n) {
      if n == name {
        TransformedStep(codec, stream, init, s, cache);
      } else {
        OtherStep(codec, stream, init, s, cache[n], n);
      }
    }
  }

  lemma OtherStep(codec: Codec, stream: seq<Bytes>, init: seq<System>, s: System, d: Decoded, n: Bytes)
    requires ComputedOne(codec, stream, init, d, n) && n != s.spec.name
    ensures ComputedOne(codec, stream, init + [s], d, n)
  {
    var rows := DecodeRows(codec, stream[Find(codec, stream, n)], d.spec.fields).value;
    forall r | 0 <= r < |d.rows| ensures Composed(init + [s], n, rows[r]) == Some(d.rows[r]) {
      ComposedSnoc(init, s, n, rows[r]);
    }
  }

  /** What the system works on: the first copy's rows with the earlier transforms applied. */
  ghost predicate Fed(codec: Codec, stream: seq<Bytes>, init: seq<System>, s: System, rows: seq<Row>) {
    var first := Find(codec, stream, s.spec.name);
    && first < |stream|
    && var decoded := DecodeRows(codec, stream[first], s.spec.fields);
    && decoded.Some? && |rows| == |decoded.value|
    && forall r :: 0 <= r < |rows| ==> Composed(init, s.spec.name, decoded.value[r]) == Some(rows[r])
  }

  lemma RowsAreFed(codec: Codec, stream: seq<Bytes>, init: seq<System>, s: System, cache: Cache)
    requires OneSchemaPerName(init + [s])
    requires Computed(codec, stream, init, cache) && CacheInv(codec, stream, init, cache)
    requires RowsFor(codec, stream, s, cache).Success?
    ensures Fed(codec, stream, init, s, RowsFor(codec, stream, s, cache).value)
  {
    var name := s.spec.name;
    if name in cache {
      SharedSpec(init, s, cache[name]);
      assert ComputedOne(codec, stream, init, cache[name], name);
    } else {
      var rows := RowsFor(codec, stream, s, cache).value;
      forall r | 0 <= r < |rows| ensures Composed(init, name, rows[r]) == Some(rows[r]) {
        UntouchedUnchanged(init, name, rows[r]);
      }
    }
  }

  lemma TransformedStep(codec: Codec, stream: seq<Bytes>, init: seq<System>, s: System, cache: Cache)
    requires WellFormed(s) && OneSchemaPerName(init + [s])
    requires Computed(codec, stream, init, cache) && CacheInv(codec, stream, init, cache)
    requires RunSystem(codec, stream, s, cache).Success?
    ensures ComputedOne(codec, stream, init + [s], RunSystem(codec, stream, s, cache).value[s.spec.name], s.spec.name)
  {
    var rows, name := RowsFor(codec, stream, s, cache).value, s.spec.name;
    RowsAreFed(codec, stream, init, s, cache);
    TransformsEach(s.fn, rows);
    var decoded := DecodeRows(codec, stream[Find(codec, stream, name)], s.spec.fields).value;
    var after := TransformRows(s.fn, rows).value;
    forall r | 0 <= r < |after| ensures Composed(init + [s], name, decoded[r]) == Some(after[r]) {
      ComposedSnoc(init, s, name, decoded[r]);
    }
  }

  // ---------- what comes out ----------

  /**
    In a batch that succeeds, row `r` of a component worked on is, in the output,
    the transforms of its systems applied in order to row `r` of the first copy in
    the input; it has as many rows, and each of its columns could be read.
  */
  lemma RowByRow(codec: Codec, systems: seq<System>, stream: seq<Bytes>, s: System)
    requires Lawful(codec) && AllWellFormed(systems) && OneSchemaPerName(systems) && s in systems
    requires RunBatch(codec, systems, stream).Success?
    ensures var name, fields, out := s.spec.name, s.spec.fields, RunBatch(codec, systems, stream).value;
      && Find(codec, stream, name) < |stream| && Find(codec, out, name) < |out|
      && var before, after := stream[Find(codec, stream, name)], out[Find(codec, out, name)];
      && codec.rows(after) == codec.rows(before)
      && (forall k :: 0 <= k < |fields| ==> codec.read(before, fields[k]).Some?)
      && forall r: nat, row: Row :: IsRow(codec, before, fields, r, row) ==>
        && Composed(systems, name, row).Some?
        && IsRow(codec, after, fields, r, Composed(systems, name, row).value)
  {
    var name, fields := s.spec.name, s.spec.fields;
    var cache, w := BatchUnfolds(codec, systems, stream);
    CacheIsComputed(codec, stream, systems);
    var i :| 0 <= i < |systems| && systems[i] == s;
    assert systems[i].spec.name == name && WellFormed(systems[i]);
    assert Touched(systems, name) && ComputedOne(codec, stream, systems, cache[name], name);
    SpecIsCached(codec, stream, systems, cache, s);
    if name == ALIVE {
      NotWritable(codec, stream, systems, cache, name);
    }
    WrittenFrom(codec, stream, systems, cache, w, name);
    var out := Output(codec, w);
    RowsCarryOver(codec, systems, name, fields, stream[Find(codec, stream, name)], out[Find(codec, out, name)], cache[name].rows);
  }

  lemma SpecIsCached(codec: Codec, stream: seq<Bytes>, systems: seq<System>, cache: Cache, s: System)
    requires OneSchemaPerName(systems) && CacheInv(codec, stream, systems, cache) && s in systems && s.spec.name in cache
    ensures cache[s.spec.name].spec == s.spec
  {
    var i :| 0 <= i < |systems| && systems[i] == s;
    var j :| 0 <= j < |systems| && systems[j].spec == cache[s.spec.name].spec;
    assert systems[i].spec.name == systems[j].spec.name;
  }

  lemma RowsCarryOver(codec: Codec, systems: seq<System>, name: Bytes, fields: seq<Field>, before: Bytes, after: Bytes,
                      rows: seq<Row>)
    requires Lawful(codec) && fields != [] && DecodeRows(codec, before, fields).Some?
    requires DecodeRows(codec, after, fields) == Some(rows)
    requires |rows| == |DecodeRows(codec, before, fields).value|
    requires forall r :: 0 <= r < |rows| ==> Composed(systems, name, DecodeRows(codec, before, fields).value[r]) == Some(rows[r])
    ensures codec.rows(after) == codec.rows(before)
    ensures forall k :: 0 <= k < |fields| ==> codec.read(before, fields[k]).Some?
    ensures forall r: nat, row: Row :: IsRow(codec, before, fields, r, row) ==>
      Composed(systems, name, row).Some? && IsRow(codec, after, fields, r, Composed(systems, name, row).value)
  {
    DecodedRowsFit(codec, before, fields);
    DecodedRowsFit(codec, after, fields);
    forall r: nat, row: Row | IsRow(codec, before, fields, r, row)
      ensures Composed(systems, name, row).Some? && IsRow(codec, after, fields, r, Composed(systems, name, row).value)
    {
      DecodedIsRow(codec, before, fields, r, row);
      DecodedIsRow(codec, after, fields, r, rows[r]);
    }
  }

  /** With a single system, its transform is applied to every row in place. */
  lemma OneSystemRowByRow(codec: Codec, s: System, stream: seq<Bytes>)
    requires Lawful(codec) && AllWellFormed([s]) && OneSchemaPerName([s])
    requires RunBatch(codec, [s], stream).Success?
    ensures var name, fields, out := s.spec.name, s.spec.fields, RunBatch(codec, [s], stream).value;
      && Find(codec, stream, name) < |stream| && Find(codec, out, name) < |out|
      && var before, after := stream[Find(codec, stream, name)], out[Find(codec, out, name)];
      && codec.rows(after) == codec.rows(before)
      && forall r: nat, row: Row :: IsRow(codec, before, fields, r, row) ==>
        s.fn(row).Some? && IsRow(codec, after, fields, r, s.fn(row).value)
  {
    RowByRow(codec, [s], stream, s);
    forall row: Row ensures Composed([s], s.spec.name, row) == s.fn(row) {
      assert [] + [s] == [s];
      ComposedSnoc([], s, s.spec.name, row);
    }
  }

  // ---------- what goes wrong ----------

  /** What stops system `s` after the systems `init` have run; at most one thing does. */
  ghost predicate Fault(codec: Codec, stream: seq<Bytes>, init: seq<System>, s: System, e: RunError) {
    var name, fields := s.spec.name, s.spec.fields;
    var first := Find(codec, stream, name);
    match e
    case NoComponent(c) => c == name && first == |stream|
    case RowTypeClash(c) =>
      c == name && exists i :: 0 <= i < |init| && init[i].spec.name == name && init[i].rowType != s.rowType
    case Unreadable(c) =>
      && c == name && !Touched(init, name) && first < |stream|
      && exists k :: 0 <= k < |fields| && codec.read(stream[first], fields[k]).None?
    case TransformFailed(system) =>
      && system == s.name && first < |stream|
      && (forall i :: 0 <= i < |init| && init[i].spec.name == name ==> init[i].rowType == s.rowType)
      && SomeBreaks(codec, stream[first], init, s)
    case _ => false
  }

  /** The earlier transforms accept the row and this one refuses what they make of it. */
  predicate Breaks(init: seq<System>, s: System, row: Row) {
    Composed(init, s.spec.name, row).Some? && s.fn(Composed(init, s.spec.name, row).value).None?
  }

  lemma RowTypesCached(codec: Codec, stream: seq<Bytes>, init: seq<System>, s: System, cache: Cache)
    requires RunSystems(codec, stream, init) == Success(cache) && Computed(codec, stream, init, cache)
    requires s.spec.name in cache
    ensures cache[s.spec.name].rowType == s.rowType <==>
      forall i :: 0 <= i < |init| && init[i].spec.name == s.spec.name ==> init[i].rowType == s.rowType
  {
    RunningMeansAgreeing(codec, stream, init);
    assert Touched(init, s.spec.name);
  }

  /** Some row of the first copy is refused. */
  ghost predicate SomeBreaks(codec: Codec, ipc: Bytes, init: seq<System>, s: System) {
    exists r: nat, row: Row :: IsRow(codec, ipc, s.spec.fields, r, row) && Breaks(init, s, row)
  }

  lemma TransformFaultExactly(codec: Codec, stream: seq<Bytes>, init: seq<System>, s: System, rows: seq<Row>)
    requires Lawful(codec) && s.spec.fields != [] && Fed(codec, stream, init, s, rows)
    ensures TransformRows(s.fn, rows).None? <==> SomeBreaks(codec, stream[Find(codec, stream, s.spec.name)], init, s)
  {
    var ipc, fields := stream[Find(codec, stream, s.spec.name)], s.spec.fields;
    var decoded := DecodeRows(codec, ipc, fields).value;
    TransformsEach(s.fn, rows);
    forall r: nat | r < |rows|
      ensures IsRow(codec, ipc, fields, r, decoded[r]) && (s.fn(rows[r]).None? <==> Breaks(init, s, decoded[r]))
    {
      DecodedIsRow(codec, ipc, fields, r, decoded[r]);
    }
    forall r: nat, row: Row | IsRow(codec, ipc, fields, r, row) && Breaks(init, s, row)
      ensures TransformRows(s.fn, rows).None?
    {
      DecodedIsRow(codec, ipc, fields, r, row);
    }
    if TransformRows(s.fn, rows).None? {
      var r: nat :| r < |rows| && s.fn(rows[r]).None?;
      assert IsRow(codec, ipc, fields, r, decoded[r]) && Breaks(init, s, decoded[r]);
    }
  }

  /** A system fails with an error exactly when that is what is wrong. */
  lemma SystemFailsExactly(codec: Codec, stream: seq<Bytes>, init: seq<System>, s: System, cache: Cache, e: RunError)
    requires Lawful(codec) && AllWellFormed(init) && OneSchemaPerName(init + [s]) && WellFormed(s)
    requires RunSystems(codec, stream, init) == Success(cache) && OneSchemaPerName(init)
    ensures RunSystem(codec, stream, s, cache) == Failure(e) <==> Fault(codec, stream, init, s, e)
  {
    var name := s.spec.name;
    var first := Find(codec, stream, name);
    CacheIsComputed(codec, stream, init);
    RunSystemsKeepsCache(codec, stream, init);
    if name in cache {
      assert Touched(init, name) && ComputedOne(codec, stream, init, cache[name], name);
      RowTypesCached(codec, stream, init, s, cache);
    } else if first < |stream| {
      UnreadableExactly(codec, stream[first], s.spec.fields);
    }
    if RowsFor(codec, stream, s, cache).Success? {
      RowsAreFed(codec, stream, init, s, cache);
      TransformFaultExactly(codec, stream, init, s, RowsFor(codec, stream, s, cache).value);
      ReadableWhenFed(codec, stream, init, s, RowsFor(codec, stream, s, cache).value);
    } else {
      NoRowToBreak(codec, stream, init, s, cache);
    }
  }

  lemma ReadableWhenFed(codec: Codec, stream: seq<Bytes>, init: seq<System>, s: System, rows: seq<Row>)
    requires ReadsWholeColumns(codec) && Fed(codec, stream, init, s, rows)
    ensures forall k :: 0 <= k < |s.spec.fields| ==>
      codec.read(stream[Find(codec, stream, s.spec.name)], s.spec.fields[k]).Some?
  {
    UnreadableExactly(codec, stream[Find(codec, stream, s.spec.name)], s.spec.fields);
  }

  lemma NoRowToBreak(codec: Codec, stream: seq<Bytes>, init: seq<System>, s: System, cache: Cache)
    requires Lawful(codec) && RunSystems(codec, stream, init) == Success(cache) && Computed(codec, stream, init, cache)
    requires RowsFor(codec, stream, s, cache).Failure?
    ensures forall t :: !Fault(codec, stream, init, s, TransformFailed(t))
  {
    var first := Find(codec, stream, s.spec.name);
    if s.spec.name in cache {
      RowTypesCached(codec, stream, init, s, cache);
    } else if first < |stream| {
      UnreadableExactly(codec, stream[first], s.spec.fields);
      var k :| 0 <= k < |s.spec.fields| && codec.read(stream[first], s.spec.fields[k]).None?;
      forall r: nat, row: Row ensures !IsRow(codec, stream[first], s.spec.fields, r, row) {
      }
    }
  }

  /** Nothing was wrong with the systems before `n`. */
  ghost predicate Faultless(codec: Codec, stream: seq<Bytes>, systems: seq<System>, n: nat)
    requires n <= |systems|
  {
    forall m: nat, d: RunError :: m < n ==> !Fault(codec, stream, systems[..m], systems[m], d)
  }

  lemma {:induction false} SystemsFailExactly(codec: Codec, stream: seq<Bytes>, systems: seq<System>, e: RunError)
    requires Lawful(codec) && AllWellFormed(systems) && OneSchemaPerName(systems)
    ensures RunSystems(codec, stream, systems).Success? <==> Faultless(codec, stream, systems, |systems|)
    ensures RunSystems(codec, stream, systems) == Failure(e) <==>
      exists n: nat :: n < |systems| && Fault(codec, stream, systems[..n], systems[n], e) && Faultless(codec, stream, systems, n)
    decreases |systems|
  {
    if systems != [] {
      var init, s := systems[..|systems| - 1], systems[|systems| - 1];
      SplitLast(systems);
      PrefixFacts(init, s);
      SystemsFailExactly(codec, stream, init, e);
      FaultlessPrefix(codec, stream, init, s);
      if RunSystems(codec, stream, init).Success? {
        LastSystemFailsExactly(codec, stream, init, s, e);
      }
    }
  }

  lemma FaultlessPrefix(codec: Codec, stream: seq<Bytes>, init: seq<System>, s: System)
    ensures var all := init + [s];
      && (forall n: nat :: n <= |init| ==> (Faultless(codec, stream, all, n) <==> Faultless(codec, stream, init, n)))
      && (forall n: nat :: n < |init| ==> all[..n] == init[..n] && all[n] == init[n])
      && all[..|init|] == init && all[|init|] == s
      && (Faultless(codec, stream, all, |all|) <==>
        Faultless(codec, stream, init, |init|) && forall d: RunError :: !Fault(codec, stream, init, s, d))
  {
    var all := init + [s];
    assert forall n: nat :: n < |init| ==> all[..n] == init[..n] && all[n] == init[n];
    assert all[..|init|] == init;
  }

  lemma LastSystemFailsExactly(codec: Codec, stream: seq<Bytes>, init: seq<System>, s: System, e: RunError)
    requires Lawful(codec) && AllWellFormed(init) && OneSchemaPerName(init) && WellFormed(s) && OneSchemaPerName(init + [s])
    requires RunSystems(codec, stream, init).Success?
    ensures RunSystems(codec, stream, init + [s]) == Failure(e) <==> Fault(codec, stream, init, s, e)
    ensures RunSystems(codec, stream, init + [s]).Success? <==> forall d: RunError :: !Fault(codec, stream, init, s, d)
  {
    var cache := RunSystems(codec, stream, init).value;
    RunSystemsSplit(codec, stream, init, s);
    SystemFailsExactly(codec, stream, init, s, cache, e);
    forall d: RunError ensures RunSystem(codec, stream, s, cache) == Failure(d) <==> Fault(codec, stream, init, s, d) {
      SystemFailsExactly(codec, stream, init, s, cache, d);
    }
  }

  /** The batch reports the first system's fault there is, and gets to the writer exactly when there is none. */
  lemma BatchFailsExactly(codec: Codec, systems: seq<System>, stream: seq<Bytes>, e: RunError)
    requires Lawful(codec) && AllWellFormed(systems) && OneSchemaPerName(systems) && !e.WriteRefused?
    ensures RunBatch(codec, systems, stream) == Failure(e) <==>
      if stream == [] then e == NoSegments
      else exists n: nat ::
        n < |systems| && Fault(codec, stream, systems[..n], systems[n], e) && Faultless(codec, stream, systems, n)
  {
    SystemsFailExactly(codec, stream, systems, e);
    if stream != [] && RunSystems(codec, stream, systems).Success? {
      RunSystemsKeepsCache(codec, stream, systems);
      WriterRefuses(codec, NEW_WRITER, stream, RunSystems(codec, stream, systems).value);
    }
  }

  lemma {:induction false} WriterRefuses(codec: Codec, w: Writer, stream: seq<Bytes>, cache: Cache)
    requires CacheFits(cache)
    ensures WriteAll(codec, w, stream, cache).Failure? ==>
      && WriteAll(codec, w, stream, cache).error.WriteRefused?
      && exists j :: 0 <= j < |stream| && codec.labelOf(stream[j]) == WriteAll(codec, w, stream, cache).error.component
    decreases |stream|
  {
    if stream != [] {
      match WriteOne(codec, w, stream[0], cache)
      case Failure(e) => assert codec.labelOf(stream[0]) == e.component;
      case Success(next) =>
        WriterRefuses(codec, next, stream[1..], cache);
        assert forall j :: 0 <= j < |stream[1..]| ==> stream[1..][j] == stream[j + 1];
    }
  }

  // ---------- the liveness segment ----------

  lemma {:induction false} LongestIsOneOfThem(segments: seq<Segment>)
    ensures segments == [] ==> MaxRows(segments) == 0
    ensures segments != [] ==> exists i :: 0 <= i < |segments| && segments[i].rows == MaxRows(segments)
    decreases |segments|
  {
    if segments != [] {
      LongestIsOneOfThem(segments[1..]);
      if MaxRows(segments) != segments[0].rows {
        var i :| 0 <= i < |segments[1..]| && segments[1..][i].rows == MaxRows(segments[1..]);
        assert segments[i + 1].rows == MaxRows(segments);
      }
    }
  }

  /**
    The output ends with the one segment labelled `__alive`, which covers every
    other: the last one of the input, or, when it has none, an all-alive one as
    long as the longest component.
  */
  lemma EndsWithLiveness(codec: Codec, systems: seq<System>, stream: seq<Bytes>)
    requires Lawful(codec) && AllWellFormed(systems) && OneSchemaPerName(systems)
    requires RunBatch(codec, systems, stream).Success?
    ensures var out := RunBatch(codec, systems, stream).value;
      && out != []
      && var bodies, end := out[..|out| - 1], out[|out| - 1];
      && codec.labelOf(end) == [95, 95, 97, 108, 105, 118, 101]
      && (forall i :: 0 <= i < |bodies| ==>
        codec.labelOf(bodies[i]) != codec.labelOf(end) && codec.rows(bodies[i]) <= codec.rows(end))
      && var last := FindLast(codec, stream, codec.labelOf(end));
      && (last >= 0 ==> end == stream[last])
      && (last < 0 ==>
        && end == codec.alive(codec.rows(end))
        && if bodies == [] then codec.rows(end) == 0
           else exists i :: 0 <= i < |bodies| && codec.rows(bodies[i]) == codec.rows(end))
  {
    var cache, w := BatchUnfolds(codec, systems, stream);
    OutputLabels(codec, w);
    LastAliveIsKept(codec, NEW_WRITER, stream, cache);
    LivenessOfOutput(codec, w);
    var last := FindLast(codec, stream, ALIVE);
    if last >= 0 {
      WriteOneIs(codec, NEW_WRITER, stream[last], cache);
      assert Emitted(codec, cache, stream[last]).Some?;
      AliveEmitsItself(codec, cache, stream[last]);
    }
  }

  lemma AliveEmitsItself(codec: Codec, cache: Cache, ipc: Bytes)
    requires Lawful(codec) && GoodCache(cache) && codec.labelOf(ipc) == ALIVE && Emitted(codec, cache, ipc).Some?
    ensures Emitted(codec, cache, ipc).value.ipc == ipc
  {
    AliveNotCached(codec, cache, ipc);
  }

  lemma LivenessOfOutput(codec: Codec, w: Writer)
    requires Lawful(codec) && WellWritten(codec, w)
    ensures var out := Output(codec, w); var bodies, end := out[..|out| - 1], out[|out| - 1];
      && |out| == |w.segments| + 1
      && (forall i :: 0 <= i < |bodies| ==>
        bodies[i] == w.segments[i].ipc && codec.labelOf(bodies[i]) != ALIVE && codec.rows(bodies[i]) <= codec.rows(end))
      && (w.alive.Some? ==> end == w.alive.value.ipc)
      && (w.alive.None? ==>
        && end == codec.alive(codec.rows(end))
        && if bodies == [] then codec.rows(end) == 0
           else exists i :: 0 <= i < |bodies| && codec.rows(bodies[i]) == codec.rows(end))
  {
    var out := Output(codec, w);
    assert forall i :: 0 <= i < |w.segments| ==> Shaped(codec, w.segments[i]) && out[i] == w.segments[i].ipc;
    MaxRowsBounds(w.segments);
    LongestIsOneOfThem(w.segments);
    if w.alive.None? && w.segments != [] {
      var i :| 0 <= i < |w.segments| && w.segments[i].rows == MaxRows(w.segments);
      assert codec.rows(out[..|out| - 1][i]) == MaxRows(w.segments);
    }
  }
}
