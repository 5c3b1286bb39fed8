/**
  One decode and one encode per component is enough: a batch through a processor
  with many systems equals the same batch through one processor per system, with
  a full decode and encode between each.
*/
module FusedExecution {
  import opened Wrappers
  import opened ByteStrings
  import opened Components
  import opened Columns
  import opened Processor
  import opened StreamWriter
  import opened Sequences

  // ---------- a batch and its writer ----------

  lemma CacheIsGood(codec: Codec, stream: seq<Bytes>, systems: seq<System>, cache: Cache)
    requires AllWellFormed(systems) && CacheInv(codec, stream, systems, cache)
    ensures GoodCache(cache)
  {
    forall n | n in cache ensures GoodDecoded(cache[n]) {
      var i :| 0 <= i < |systems| && systems[i].spec == cache[n].spec && systems[i].rowType == cache[n].rowType;
      assert WellFormed(systems[i]);
    }
  }

  lemma RunSystemsSplit(codec: Codec, stream: seq<Bytes>, init: seq<System>, s: System)
    ensures RunSystems(codec, stream, [s]) == RunSystem(codec, stream, s, map[])
    ensures RunSystems(codec, stream, init).Success? ==>
      RunSystems(codec, stream, init + [s]) == RunSystem(codec, stream, s, RunSystems(codec, stream, init).value)
    ensures RunSystems(codec, stream, init).Failure? ==> RunSystems(codec, stream, init + [s]).Failure?
  {
    assert [s][..0] == [];
    assert (init + [s])[..|init|] == init;
  }

  ghost predicate Touched(systems: seq<System>, name: Bytes) {
    exists i :: 0 <= i < |systems| && systems[i].spec.name == name
  }

  /** No component is transformed through two different Go row types. */
  ghost predicate RowTypesAgree(systems: seq<System>) {
    forall i, j :: 0 <= i < j < |systems| && systems[i].spec.name == systems[j].spec.name ==>
      systems[i].rowType == systems[j].rowType
  }

  /** Every system finds its component cached under its own row type. */
  ghost predicate CachedTypes(systems: seq<System>, cache: Cache) {
    forall i :: 0 <= i < |systems| ==>
      systems[i].spec.name in cache && cache[systems[i].spec.name].rowType == systems[i].rowType
  }

  lemma OneMoreTyped(codec: Codec, stream: seq<Bytes>, init: seq<System>, s: System, cache: Cache)
    requires CachedTypes(init, cache) && RunSystem(codec, stream, s, cache).Success?
    ensures CachedTypes(init + [s], RunSystem(codec, stream, s, cache).value)
  {
    var after := RunSystem(codec, stream, s, cache).value;
    assert s.spec.name in after && after[s.spec.name].rowType == s.rowType;
    assert forall n :: n in cache ==> n in after && after[n].rowType == cache[n].rowType;
  }

  lemma {:induction false} RunningMeansAgreeing(codec: Codec, stream: seq<Bytes>, systems: seq<System>)
    requires RunSystems(codec, stream, systems).Success?
    ensures CachedTypes(systems, RunSystems(codec, stream, systems).value)
    ensures RowTypesAgree(systems)
    decreases |systems|
  {
    if systems != [] {
      var init, s := systems[..|systems| - 1], systems[|systems| - 1];
      RunningMeansAgreeing(codec, stream, init);
      OneMoreTyped(codec, stream, init, s, RunSystems(codec, stream, init).value);
      assert init + [s] == systems;
    }
  }

  // ---------- one more system ----------

  /** Every copy of the system's component reads alike; a single one always does. */
  ghost predicate CopiesAlike(codec: Codec, stream: seq<Bytes>, s: System) {
    forall j, k :: 0 <= j < |stream| && 0 <= k < |stream| ==>
      codec.labelOf(stream[j]) == codec.labelOf(stream[k]) == s.spec.name ==>
        DecodeRows(codec, stream[j], s.spec.fields) == DecodeRows(codec, stream[k], s.spec.fields)
  }

  /** Its first copy, which the shared cache decodes, reads like its last, which a written stream keeps. */
  ghost predicate EndsAlike(codec: Codec, stream: seq<Bytes>, s: System) {
    var first, last := Find(codec, stream, s.spec.name), FindLast(codec, stream, s.spec.name);
    first < |stream| && last >= 0 ==>
      DecodeRows(codec, stream[first], s.spec.fields) == DecodeRows(codec, stream[last], s.spec.fields)
  }

  /** The state between two systems: the shared cache, and what one processor per system would have written. */
  ghost predicate Between(codec: Codec, stream: seq<Bytes>, init: seq<System>, cache: Cache, w: Writer) {
    && stream != [] && RunSystems(codec, stream, init) == Success(cache)
    && GoodCache(cache) && CacheInv(codec, stream, init, cache)
    && WriteAll(codec, NEW_WRITER, stream, cache) == Success(w) && WellWritten(codec, w)
    && Writable(codec, cache, stream)
  }

  /** What a successful batch did. */
  lemma BatchUnfolds(codec: Codec, systems: seq<System>, stream: seq<Bytes>) returns (cache: Cache, w: Writer)
    requires Lawful(codec) && AllWellFormed(systems) && OneSchemaPerName(systems)
    requires RunBatch(codec, systems, stream).Success?
    ensures Between(codec, stream, systems, cache, w)
    ensures RunBatch(codec, systems, stream).value == Output(codec, w)
  {
    cache := RunSystems(codec, stream, systems).value;
    RunIsGood(codec, systems, stream, cache);
    w := WriteAll(codec, NEW_WRITER, stream, cache).value;
    WriteAllKeeps(codec, NEW_WRITER, stream, cache);
  }

  lemma RunIsGood(codec: Codec, systems: seq<System>, stream: seq<Bytes>, cache: Cache)
    requires Lawful(codec) && AllWellFormed(systems) && OneSchemaPerName(systems)
    requires RunSystems(codec, stream, systems) == Success(cache)
    ensures GoodCache(cache) && CacheInv(codec, stream, systems, cache)
  {
    RunSystemsKeepsCache(codec, stream, systems);
    CacheIsGood(codec, stream, systems, cache);
  }

  /** The other way round: once the systems have run, the batch is what the writer makes of it. */
  lemma BatchIs(codec: Codec, systems: seq<System>, stream: seq<Bytes>, cache: Cache)
    requires Lawful(codec) && AllWellFormed(systems) && OneSchemaPerName(systems)
    requires stream != [] && RunSystems(codec, stream, systems) == Success(cache)
    ensures GoodCache(cache) && CacheInv(codec, stream, systems, cache)
    ensures var written := WriteAll(codec, NEW_WRITER, stream, cache);
      && (RunBatch(codec, systems, stream).Success? <==> written.Success?)
      && (written.Success? ==> RunBatch(codec, systems, stream) == Success(Output(codec, written.value)))
  {
    RunIsGood(codec, systems, stream, cache);
  }

  /**
    The next system's rows are the same read from the shared cache or from the
    stream written so far, exactly when its component is cached or the first and
    last copies of it read alike.
  */
  lemma SameRowsExactly(codec: Codec, stream: seq<Bytes>, init: seq<System>, s: System, cache: Cache, w: Writer)
    requires Lawful(codec) && AllWellFormed([s]) && s.spec.name != ALIVE && OneSchemaPerName(init + [s])
    requires Between(codec, stream, init, cache, w)
    requires s.spec.name in cache ==> cache[s.spec.name].rowType == s.rowType
    ensures RowsFor(codec, Output(codec, w), s, map[]) == RowsFor(codec, stream, s, cache) <==>
      s.spec.name in cache || EndsAlike(codec, stream, s)
  {
    var name, out := s.spec.name, Output(codec, w);
    LastIsKept(codec, NEW_WRITER, stream, cache, name);
    FindInOutput(codec, w, name);
    var last := FindLast(codec, stream, name);
    if name in cache {
      SharedSpec(init, s, cache[name]);
      assert last >= 0;
      assert [s][0] == s && WellFormed([s][0]);
      DecodeInvertsEncode(codec, s.spec, cache[name].rows);
    }
  }

  lemma SharedSpec(systems: seq<System>, s: System, d: Decoded)
    requires OneSchemaPerName(systems + [s]) && d.spec.name == s.spec.name
    requires exists i :: 0 <= i < |systems| && systems[i].spec == d.spec && systems[i].rowType == d.rowType
    ensures d.spec == s.spec
  {
    var i :| 0 <= i < |systems| && systems[i].spec == d.spec && systems[i].rowType == d.rowType;
    var all := systems + [s];
    assert all[i] == systems[i] && all[|systems|] == s;
  }

  /** Caching a component again changes what is emitted for its copies and for nothing else. */
  lemma RecachedSwaps(codec: Codec, stream: seq<Bytes>, init: seq<System>, s: System, cache: Cache, d: Decoded)
    requires Lawful(codec) && GoodCache(cache) && CacheInv(codec, stream, init, cache) && Writable(codec, cache, stream)
    requires RunSystem(codec, stream, s, cache).Success? && d == RunSystem(codec, stream, s, cache).value[s.spec.name]
    requires GoodDecoded(d) && d.spec == s.spec && Encoded(codec, d).Some?
    requires s.spec.name in cache || CopiesAlike(codec, stream, s)
    ensures GoodCache(cache[s.spec.name := d])
    ensures SwapsAll(codec, cache, cache[s.spec.name := d], stream, Encoded(codec, d).value)
  {
    var after, e := cache[s.spec.name := d], Encoded(codec, d).value;
    forall j | 0 <= j < |stream| ensures GoodCache(after) && SwapsOne(codec, cache, after, stream[j], e) {
      assert Emitted(codec, cache, stream[j]).Some?;
      CopySwaps(codec, stream, s, cache, d, j);
    }
    RecachedIsGood(cache, d);
  }

  lemma RecachedIsGood(cache: Cache, d: Decoded)
    requires GoodCache(cache) && GoodDecoded(d)
    ensures GoodCache(cache[d.spec.name := d])
  {
  }

  lemma CopySwaps(codec: Codec, stream: seq<Bytes>, s: System, cache: Cache, d: Decoded, j: nat)
    requires Lawful(codec) && GoodCache(cache) && j < |stream| && Emitted(codec, cache, stream[j]).Some?
    requires RunSystem(codec, stream, s, cache).Success? && d == RunSystem(codec, stream, s, cache).value[s.spec.name]
    requires GoodDecoded(d) && d.spec == s.spec && Encoded(codec, d).Some?
    requires s.spec.name in cache || CopiesAlike(codec, stream, s)
    ensures GoodCache(cache[s.spec.name := d])
    ensures SwapsOne(codec, cache, cache[s.spec.name := d], stream[j], Encoded(codec, d).value)
  {
    if codec.labelOf(stream[j]) == s.spec.name {
      CopyRows(codec, stream, s, cache, d, j);
    }
    RecachedOne(codec, cache, stream[j], d);
  }

  lemma RecachedOne(codec: Codec, cache: Cache, ipc: Bytes, d: Decoded)
    requires Lawful(codec) && GoodCache(cache) && GoodDecoded(d) && Encoded(codec, d).Some?
    requires Emitted(codec, cache, ipc).Some?
    requires codec.labelOf(ipc) == d.spec.name ==>
      |d.rows| == if d.spec.name in cache then |cache[d.spec.name].rows| else codec.rows(ipc)
    ensures GoodCache(cache[d.spec.name := d])
    ensures SwapsOne(codec, cache, cache[d.spec.name := d], ipc, Encoded(codec, d).value)
  {
    WriteOneIs(codec, NEW_WRITER, ipc, cache);
  }

  /** Every copy of the component stands for as many rows as the system's work on it. */
  lemma CopyRows(codec: Codec, stream: seq<Bytes>, s: System, cache: Cache, d: Decoded, j: nat)
    requires Lawful(codec) && GoodCache(cache) && j < |stream| && codec.labelOf(stream[j]) == s.spec.name
    requires RunSystem(codec, stream, s, cache).Success? && d == RunSystem(codec, stream, s, cache).value[s.spec.name]
    requires s.spec.name in cache || CopiesAlike(codec, stream, s)
    ensures |d.rows| == if s.spec.name in cache then |cache[s.spec.name].rows| else codec.rows(stream[j])
  {
    var rows := RowsFor(codec, stream, s, cache).value;
    TransformLength(s.fn, rows);
    if s.spec.name !in cache {
      var first := Find(codec, stream, s.spec.name);
      assert DecodeRows(codec, stream[j], s.spec.fields) == DecodeRows(codec, stream[first], s.spec.fields);
      DecodedRowsFit(codec, stream[j], s.spec.fields);
    }
  }

  lemma {:induction false} TransformLength(fn: Row -> Option<Row>, rows: seq<Row>)
    ensures TransformRows(fn, rows).Some? ==> |TransformRows(fn, rows).value| == |rows|
    decreases |rows|
  {
    if rows != [] {
      TransformLength(fn, rows[1..]);
    }
  }

  /** Both ways of writing one more component are accepted, and write the same stream. */
  lemma OneMoreWritten(codec: Codec, stream: seq<Bytes>, init: seq<System>, s: System, cache: Cache, w: Writer, d: Decoded)
    requires Lawful(codec) && Between(codec, stream, init, cache, w)
    requires RunSystem(codec, stream, s, cache).Success? && d == RunSystem(codec, stream, s, cache).value[s.spec.name]
    requires GoodDecoded(d) && d.spec == s.spec && s.spec.name != ALIVE && Encoded(codec, d).Some?
    requires s.spec.name in cache || CopiesAlike(codec, stream, s)
    ensures var after, solo: Cache, out := cache[s.spec.name := d], map[s.spec.name := d], Output(codec, w);
      && GoodCache(after) && GoodCache(solo)
      && WriteAll(codec, NEW_WRITER, stream, after).Success? && WriteAll(codec, NEW_WRITER, out, solo).Success?
      && Output(codec, WriteAll(codec, NEW_WRITER, stream, after).value)
        == Output(codec, WriteAll(codec, NEW_WRITER, out, solo).value)
  {
    var after, e := cache[s.spec.name := d], Encoded(codec, d).value;
    RecachedSwaps(codec, stream, init, s, cache, d);
    assert Writer(Replaced(NEW_WRITER.segments, e), NEW_WRITER.alive) == NEW_WRITER;
    WriteAllSwaps(codec, NEW_WRITER, stream, cache, after, e);
    OutputRewritten(codec, w, d);
  }

  lemma NotWritable(codec: Codec, stream: seq<Bytes>, systems: seq<System>, cache: Cache, name: Bytes)
    requires Lawful(codec) && GoodCache(cache) && CacheInv(codec, stream, systems, cache)
    requires name in cache && (Encoded(codec, cache[name]).None? || name == ALIVE)
    ensures WriteAll(codec, NEW_WRITER, stream, cache).Failure?
  {
    var j := Find(codec, stream, name);
    if name == ALIVE {
      AliveNotCached(codec, cache, stream[j]);
    }
    assert Emitted(codec, cache, stream[j]).None?;
    if WriteAll(codec, NEW_WRITER, stream, cache).Success? {
      WriteAllKeeps(codec, NEW_WRITER, stream, cache);
    }
  }

  lemma DecodedIsGood(codec: Codec, stream: seq<Bytes>, s: System, cache: Cache)
    requires RunSystem(codec, stream, s, cache).Success? && GoodCache(RunSystem(codec, stream, s, cache).value)
    ensures var d := RunSystem(codec, stream, s, cache).value[s.spec.name];
      GoodDecoded(d) && d.spec == s.spec && RunSystem(codec, stream, s, cache).value == cache[s.spec.name := d]
  {
    assert s.spec.name in RunSystem(codec, stream, s, cache).value;
  }

  /** With the same rows, the system leaves the same component in the shared cache and in a cache of its own. */
  lemma BothRun(codec: Codec, stream: seq<Bytes>, out: seq<Bytes>, init: seq<System>, s: System, cache: Cache)
    requires RunSystems(codec, stream, init) == Success(cache) && RunSystem(codec, stream, s, cache).Success?
    requires RowsFor(codec, out, s, map[]) == RowsFor(codec, stream, s, cache)
    ensures var after := RunSystem(codec, stream, s, cache).value;
      && RunSystems(codec, stream, init + [s]) == Success(after)
      && RunSystems(codec, out, [s]) == Success(map[s.spec.name := after[s.spec.name]])
  {
    RunSystemsSplit(codec, stream, init, s);
    RunSystemsSplit(codec, out, init, s);
  }

  /** Either both streams are written, to the same output, or neither is. */
  ghost predicate WriteAlike(codec: Codec, a: seq<Bytes>, cacheA: Cache, b: seq<Bytes>, cacheB: Cache)
    requires CacheFits(cacheA) && CacheFits(cacheB)
  {
    var one, other := WriteAll(codec, NEW_WRITER, a, cacheA), WriteAll(codec, NEW_WRITER, b, cacheB);
    && (one.Success? <==> other.Success?)
    && (one.Success? ==> Output(codec, one.value) == Output(codec, other.value))
  }

  lemma WritesAlike(codec: Codec, stream: seq<Bytes>, init: seq<System>, s: System, cache: Cache, w: Writer,
                    after: Cache, solo: Cache)
    requires Lawful(codec) && Between(codec, stream, init, cache, w) && RunSystem(codec, stream, s, cache) == Success(after)
    requires solo == map[s.spec.name := after[s.spec.name]]
    requires GoodCache(after) && CacheInv(codec, stream, init + [s], after)
    requires GoodCache(solo) && CacheInv(codec, Output(codec, w), [s], solo)
    requires s.spec.name in cache || CopiesAlike(codec, stream, s)
    ensures WriteAlike(codec, stream, after, Output(codec, w), solo)
  {
    DecodedIsGood(codec, stream, s, cache);
    if Encoded(codec, after[s.spec.name]).None? || s.spec.name == ALIVE {
      NotWritable(codec, stream, init + [s], after, s.spec.name);
      NotWritable(codec, Output(codec, w), [s], solo, s.spec.name);
    } else {
      OneMoreWritten(codec, stream, init, s, cache, w, after[s.spec.name]);
    }
  }

  lemma OneMoreDecoded(codec: Codec, stream: seq<Bytes>, init: seq<System>, s: System, cache: Cache, w: Writer)
    requires Lawful(codec) && AllWellFormed(init + [s]) && OneSchemaPerName(init + [s])
    requires AllWellFormed([s]) && OneSchemaPerName([s]) && Between(codec, stream, init, cache, w)
    requires RunSystem(codec, stream, s, cache).Success?
    requires RowsFor(codec, Output(codec, w), s, map[]) == RowsFor(codec, stream, s, cache)
    requires s.spec.name in cache || CopiesAlike(codec, stream, s)
    ensures RunBatch(codec, [s], Output(codec, w)).Success? <==> RunBatch(codec, init + [s], stream).Success?
    ensures RunBatch(codec, init + [s], stream).Success? ==>
      RunBatch(codec, init + [s], stream) == RunBatch(codec, [s], Output(codec, w))
  {
    var after := RunSystem(codec, stream, s, cache).value;
    var solo: Cache := map[s.spec.name := after[s.spec.name]];
    BothRun(codec, stream, Output(codec, w), init, s, cache);
    BatchIs(codec, init + [s], stream, after);
    BatchIs(codec, [s], Output(codec, w), solo);
    WritesAlike(codec, stream, init, s, cache, w, after, solo);
  }

  lemma SystemFails(codec: Codec, stream: seq<Bytes>, init: seq<System>, s: System, cache: Cache)
    requires Lawful(codec) && AllWellFormed(init + [s]) && OneSchemaPerName(init + [s])
    requires RunSystems(codec, stream, init) == Success(cache) && RunSystem(codec, stream, s, cache).Failure?
    ensures RunBatch(codec, init + [s], stream).Failure?
  {
    RunSystemsSplit(codec, stream, init, s);
  }

  lemma FailsBoth(codec: Codec, stream: seq<Bytes>, init: seq<System>, s: System, cache: Cache, w: Writer)
    requires Lawful(codec) && AllWellFormed(init + [s]) && OneSchemaPerName(init + [s])
    requires AllWellFormed([s]) && OneSchemaPerName([s])
    requires RunSystems(codec, stream, init) == Success(cache) && RunSystem(codec, stream, s, cache).Failure?
    requires RowsFor(codec, Output(codec, w), s, map[]) == RowsFor(codec, stream, s, cache)
    ensures RunBatch(codec, [s], Output(codec, w)).Failure? && RunBatch(codec, init + [s], stream).Failure?
  {
    SystemFails(codec, stream, init, s, cache);
    assert [] + [s] == [s];
    SystemFails(codec, Output(codec, w), [], s, map[]);
  }

  /** A component named like the liveness segment can be encoded by neither. */
  lemma AliveFails(codec: Codec, stream: seq<Bytes>, init: seq<System>, s: System)
    requires Lawful(codec) && AllWellFormed(init + [s]) && OneSchemaPerName(init + [s]) && s.spec.name == ALIVE
    ensures RunBatch(codec, init + [s], stream).Failure?
  {
    if RunBatch(codec, init + [s], stream).Success? {
      var cache, w := BatchUnfolds(codec, init + [s], stream);
      RunSystemsSplit(codec, stream, init, s);
      NotWritable(codec, stream, init + [s], cache, ALIVE);
    }
  }

  /** A component an earlier system worked on, or one whose copies all read alike. */
  ghost predicate Ready(codec: Codec, stream: seq<Bytes>, init: seq<System>, s: System) {
    Touched(init, s.spec.name) || CopiesAlike(codec, stream, s)
  }

  /**
    One more system: run over the shared cache with a single encode at the end,
    or over the stream already written; the batch succeeds for one exactly when
    it does for the other, with the same output.
  */
  lemma OneMoreSystem(codec: Codec, stream: seq<Bytes>, init: seq<System>, s: System)
    requires Lawful(codec) && AllWellFormed(init + [s]) && OneSchemaPerName(init + [s])
    requires AllWellFormed(init) && OneSchemaPerName(init) && AllWellFormed([s]) && OneSchemaPerName([s])
    requires RunBatch(codec, init, stream).Success? && Ready(codec, stream, init, s)
    requires forall i :: 0 <= i < |init| && init[i].spec.name == s.spec.name ==> init[i].rowType == s.rowType
    ensures RunBatch(codec, [s], RunBatch(codec, init, stream).value).Success?
      <==> RunBatch(codec, init + [s], stream).Success?
    ensures RunBatch(codec, init + [s], stream).Success? ==>
      RunBatch(codec, init + [s], stream) == RunBatch(codec, [s], RunBatch(codec, init, stream).value)
  {
    var cache, w := BatchUnfolds(codec, init, stream);
    if s.spec.name == ALIVE {
      AliveFails(codec, stream, init, s);
      assert [] + [s] == [s];
      AliveFails(codec, Output(codec, w), [], s);
    } else {
      TouchedIsCached(codec, stream, init, s, cache);
      SameRowsExactly(codec, stream, init, s, cache, w);
      if RunSystem(codec, stream, s, cache).Success? {
        OneMoreDecoded(codec, stream, init, s, cache, w);
      } else {
        FailsBoth(codec, stream, init, s, cache, w);
      }
    }
  }

  /** The rows of the first copy and those of the last become the same. */
  ghost predicate EndsBecomeAlike(codec: Codec, stream: seq<Bytes>, s: System) {
    var first, last := Find(codec, stream, s.spec.name), FindLast(codec, stream, s.spec.name);
    first < |stream| && last >= 0 ==>
      var a, b := DecodeRows(codec, stream[first], s.spec.fields), DecodeRows(codec, stream[last], s.spec.fields);
      a.Some? && b.Some? ==> TransformRows(s.fn, a.value) == TransformRows(s.fn, b.value)
  }

  /**
    On any stream: when one more system succeeds both over the shared cache and
    over the stream already written, the two outputs are the same exactly when an
    earlier system worked on its component or the first and last copies of it
    become alike.
  */
  lemma OneMoreAgreesExactly(codec: Codec, stream: seq<Bytes>, init: seq<System>, s: System)
    requires Lawful(codec) && AllWellFormed(init + [s]) && OneSchemaPerName(init + [s])
    requires AllWellFormed(init) && OneSchemaPerName(init) && AllWellFormed([s]) && OneSchemaPerName([s])
    requires RunBatch(codec, init, stream).Success? && RunBatch(codec, init + [s], stream).Success?
    requires RunBatch(codec, [s], RunBatch(codec, init, stream).value).Success?
    ensures RunBatch(codec, init + [s], stream) == RunBatch(codec, [s], RunBatch(codec, init, stream).value) <==>
      Touched(init, s.spec.name) || EndsBecomeAlike(codec, stream, s)
  {
    if Touched(init, s.spec.name) {
      RunningMeansAgreeing(codec, stream, init + [s]);
      PrefixFacts(init, s);
      OneMoreSystem(codec, stream, init, s);
    } else {
      if s.spec.name == ALIVE {
        AliveFails(codec, stream, init, s);
      }
      UncachedAgreesExactly(codec, stream, init, s);
    }
  }

  lemma UncachedAgreesExactly(codec: Codec, stream: seq<Bytes>, init: seq<System>, s: System)
    requires Lawful(codec) && AllWellFormed(init + [s]) && OneSchemaPerName(init + [s])
    requires AllWellFormed(init) && OneSchemaPerName(init) && AllWellFormed([s]) && OneSchemaPerName([s])
    requires RunBatch(codec, init, stream).Success? && RunBatch(codec, init + [s], stream).Success?
    requires RunBatch(codec, [s], RunBatch(codec, init, stream).value).Success?
    requires !Touched(init, s.spec.name) && s.spec.name != ALIVE
    ensures RunBatch(codec, init + [s], stream) == RunBatch(codec, [s], RunBatch(codec, init, stream).value) <==>
      EndsBecomeAlike(codec, stream, s)
  {
    var cache, w := BatchUnfolds(codec, init, stream);
    var after, one := BatchUnfolds(codec, init + [s], stream);
    var solo, other := BatchUnfolds(codec, [s], Output(codec, w));
    UntouchedIsUncached(codec, stream, init, cache, s.spec.name);
    FirstIsCached(codec, stream, init, s, cache, after);
    LastIsCached(codec, stream, init, s, cache, w, solo);
    WritersAgreeExactly(codec, stream, init, s, cache, w, after, one, solo, other);
  }

  lemma UntouchedIsUncached(codec: Codec, stream: seq<Bytes>, init: seq<System>, cache: Cache, name: Bytes)
    requires CacheInv(codec, stream, init, cache) && !Touched(init, name)
    ensures name !in cache
  {
  }

  /** The writers' outputs agree exactly when what the system left does. */
  lemma WritersAgreeExactly(codec: Codec, stream: seq<Bytes>, init: seq<System>, s: System, cache: Cache, w: Writer,
                            after: Cache, one: Writer, solo: Cache, other: Writer)
    requires Lawful(codec) && s.spec.name !in cache && s.spec.name != ALIVE
    requires Between(codec, stream, init, cache, w) && Between(codec, stream, init + [s], after, one)
    requires Between(codec, Output(codec, w), [s], solo, other)
    requires Leaves(codec, stream, s, Find(codec, stream, s.spec.name), cache, after)
    requires Leaves(codec, stream, s, FindLast(codec, stream, s.spec.name), map[], solo)
    ensures Output(codec, one) == Output(codec, other) <==> EndsBecomeAlike(codec, stream, s)
  {
    SameOutputMeansSameRows(codec, stream, init, s, after, one, Output(codec, w), solo, other);
    if after[s.spec.name] == solo[s.spec.name] {
      SameRowsMeanSameOutput(codec, stream, init, s, cache, w, after, one, solo, other);
    }
  }

  /** The system decoded the copy at `at` and left its rows transformed. */
  ghost predicate Leaves(codec: Codec, stream: seq<Bytes>, s: System, at: int, cache: Cache, after: Cache) {
    && 0 <= at < |stream| && s.spec.name in after && after == cache[s.spec.name := after[s.spec.name]]
    && after[s.spec.name].spec == s.spec && after[s.spec.name].rowType == s.rowType
    && |after[s.spec.name].rows| == codec.rows(stream[at])
    && var rows := DecodeRows(codec, stream[at], s.spec.fields);
       rows.Some? && TransformRows(s.fn, rows.value) == Some(after[s.spec.name].rows)
  }

  lemma DecodesAndLeaves(codec: Codec, stream: seq<Bytes>, s: System, cache: Cache)
    requires Lawful(codec) && s.spec.name !in cache && RunSystem(codec, stream, s, cache).Success?
    ensures Leaves(codec, stream, s, Find(codec, stream, s.spec.name), cache, RunSystem(codec, stream, s, cache).value)
  {
    var first := Find(codec, stream, s.spec.name);
    DecodedRowsFit(codec, stream[first], s.spec.fields);
    TransformLength(s.fn, DecodeRows(codec, stream[first], s.spec.fields).value);
  }

  /** Over the shared cache the first copy is transformed. */
  lemma FirstIsCached(codec: Codec, stream: seq<Bytes>, init: seq<System>, s: System, cache: Cache, after: Cache)
    requires Lawful(codec) && RunSystems(codec, stream, init) == Success(cache) && s.spec.name !in cache
    requires RunSystems(codec, stream, init + [s]) == Success(after)
    ensures Leaves(codec, stream, s, Find(codec, stream, s.spec.name), cache, after)
  {
    RunSystemsSplit(codec, stream, init, s);
    DecodesAndLeaves(codec, stream, s, cache);
  }

  /** Over the written stream it is the last. */
  lemma LastIsCached(codec: Codec, stream: seq<Bytes>, init: seq<System>, s: System, cache: Cache, w: Writer, solo: Cache)
    requires Lawful(codec) && Between(codec, stream, init, cache, w) && s.spec.name !in cache && s.spec.name != ALIVE
    requires RunSystems(codec, Output(codec, w), [s]) == Success(solo)
    ensures Leaves(codec, stream, s, FindLast(codec, stream, s.spec.name), map[], solo)
  {
    RunSystemsSplit(codec, Output(codec, w), init, s);
    DecodesAndLeaves(codec, Output(codec, w), s, map[]);
    LastIsKept(codec, NEW_WRITER, stream, cache, s.spec.name);
    FindInOutput(codec, w, s.spec.name);
  }

  /** What a component was encoded from can be read off the stream written. */
  lemma SameOutputMeansSameRows(codec: Codec, stream: seq<Bytes>, init: seq<System>, s: System, after: Cache, one: Writer,
                                out: seq<Bytes>, solo: Cache, other: Writer)
    requires Lawful(codec) && s.spec.name != ALIVE && s.spec.name in after && s.spec.name in solo
    requires Between(codec, stream, init + [s], after, one) && Between(codec, out, [s], solo, other)
    requires after[s.spec.name].spec == solo[s.spec.name].spec == s.spec
    requires after[s.spec.name].rowType == solo[s.spec.name].rowType
    ensures Output(codec, one) == Output(codec, other) ==> after[s.spec.name] == solo[s.spec.name]
  {
    WrittenFrom(codec, stream, init + [s], after, one, s.spec.name);
    WrittenFrom(codec, out, [s], solo, other, s.spec.name);
  }

  lemma WrittenFrom(codec: Codec, stream: seq<Bytes>, systems: seq<System>, cache: Cache, w: Writer, name: Bytes)
    requires Lawful(codec) && Between(codec, stream, systems, cache, w) && name in cache && name != ALIVE
    ensures var out := Output(codec, w);
      && Find(codec, out, name) < |out|
      && DecodeRows(codec, out[Find(codec, out, name)], cache[name].spec.fields) == Some(cache[name].rows)
  {
    LastIsKept(codec, NEW_WRITER, stream, cache, name);
    FindInOutput(codec, w, name);
    DecodeInvertsEncode(codec, cache[name].spec, cache[name].rows);
  }

  lemma SameRowsMeanSameOutput(codec: Codec, stream: seq<Bytes>, init: seq<System>, s: System, cache: Cache, w: Writer,
                               after: Cache, one: Writer, solo: Cache, other: Writer)
    requires Lawful(codec) && s.spec.name !in cache && s.spec.name != ALIVE
    requires Between(codec, stream, init, cache, w) && Between(codec, stream, init + [s], after, one)
    requires Between(codec, Output(codec, w), [s], solo, other)
    requires Leaves(codec, stream, s, FindLast(codec, stream, s.spec.name), map[], solo)
    requires after == cache[s.spec.name := solo[s.spec.name]]
    ensures Output(codec, one) == Output(codec, other)
  {
    var d, last := solo[s.spec.name], FindLast(codec, stream, s.spec.name);
    assert Emitted(codec, after, stream[last]).Some?;
    var e := Encoded(codec, d).value;
    LastIsKept(codec, NEW_WRITER, stream, cache, s.spec.name);
    UniqueRows(codec, w, e);
    OutputRewritten(codec, w, d);
    SharedWritten(codec, stream, cache, w, d);
  }

  lemma TouchedIsCached(codec: Codec, stream: seq<Bytes>, init: seq<System>, s: System, cache: Cache)
    requires RunSystems(codec, stream, init) == Success(cache) && CacheInv(codec, stream, init, cache)
    requires forall i :: 0 <= i < |init| && init[i].spec.name == s.spec.name ==> init[i].rowType == s.rowType
    ensures Touched(init, s.spec.name) ==> s.spec.name in cache
    ensures s.spec.name in cache ==> cache[s.spec.name].rowType == s.rowType
  {
    RunningMeansAgreeing(codec, stream, init);
  }

  // ---------- the main results ----------

  /** One processor per system, each decoding and encoding the whole stream it is handed. */
  function Chain(codec: Codec, systems: seq<System>, stream: seq<Bytes>): Result<seq<Bytes>, RunError>
    requires Lawful(codec) && AllWellFormed(systems) && OneSchemaPerName(systems)
  {
    if systems == [] then Success(stream)
    else
      match Chain(codec, systems[..|systems| - 1], stream)
      case Failure(e) => Failure(e)
      case Success(out) => RunBatch(codec, [systems[|systems| - 1]], out)
  }

  lemma PrefixFacts(init: seq<System>, s: System)
    requires AllWellFormed(init + [s]) && OneSchemaPerName(init + [s])
    ensures AllWellFormed(init) && OneSchemaPerName(init) && WellFormed(s) && AllWellFormed([s]) && OneSchemaPerName([s])
    ensures RowTypesAgree(init + [s]) <==>
      && RowTypesAgree(init)
      && forall i :: 0 <= i < |init| && init[i].spec.name == s.spec.name ==> init[i].rowType == s.rowType
  {
    var all := init + [s];
    assert all[|init|] == s && forall i :: 0 <= i < |init| ==> all[i] == init[i];
  }

  /** The chain's last link. */
  lemma ChainLast(codec: Codec, init: seq<System>, s: System, stream: seq<Bytes>)
    requires Lawful(codec) && AllWellFormed(init + [s]) && OneSchemaPerName(init + [s])
    requires AllWellFormed(init) && OneSchemaPerName(init) && AllWellFormed([s]) && OneSchemaPerName([s])
    ensures Chain(codec, init, stream).Failure? ==> Chain(codec, init + [s], stream).Failure?
    ensures Chain(codec, init, stream).Success? ==>
      Chain(codec, init + [s], stream) == RunBatch(codec, [s], Chain(codec, init, stream).value)
    ensures init == [] ==> Chain(codec, init + [s], stream) == RunBatch(codec, init + [s], stream)
  {
    var all := init + [s];
    assert all[..|all| - 1] == init && all[|all| - 1] == s;
    if init == [] {
      assert all == [s];
    }
  }

  /** Every system after the first works on a component an earlier one did, or on one whose copies read alike. */
  ghost predicate Settled(codec: Codec, systems: seq<System>, stream: seq<Bytes>) {
    forall i :: 0 < i < |systems| ==> Ready(codec, stream, systems[..i], systems[i])
  }

  lemma DistinctIsSettled(codec: Codec, systems: seq<System>, stream: seq<Bytes>)
    requires DistinctLabels(codec, stream)
    ensures Settled(codec, systems, stream)
  {
    forall i | 0 < i < |systems| ensures CopiesAlike(codec, stream, systems[i]) {
    }
  }

  lemma SettledSnoc(codec: Codec, init: seq<System>, s: System, stream: seq<Bytes>)
    requires Settled(codec, init + [s], stream)
    ensures Settled(codec, init, stream)
    ensures init != [] ==> Ready(codec, stream, init, s)
  {
    var all := init + [s];
    forall i | 0 < i < |init| ensures Ready(codec, stream, init[..i], init[i]) {
      assert all[..i] == init[..i] && all[i] == init[i];
      assert Ready(codec, stream, all[..i], all[i]);
    }
    if init != [] {
      assert all[..|init|] == init && all[|init|] == s;
      assert Ready(codec, stream, all[..|init|], all[|init|]);
    }
  }

  lemma FusedStep(codec: Codec, init: seq<System>, s: System, stream: seq<Bytes>)
    requires Lawful(codec) && AllWellFormed(init + [s]) && OneSchemaPerName(init + [s])
    requires AllWellFormed(init) && OneSchemaPerName(init) && AllWellFormed([s]) && OneSchemaPerName([s])
    requires RowTypesAgree(init + [s]) && Ready(codec, stream, init, s)
    requires RunBatch(codec, init, stream).Success? && RunBatch(codec, init, stream) == Chain(codec, init, stream)
    ensures Chain(codec, init + [s], stream).Success? <==> RunBatch(codec, init + [s], stream).Success?
    ensures RunBatch(codec, init + [s], stream).Success? ==>
      RunBatch(codec, init + [s], stream) == Chain(codec, init + [s], stream)
  {
    PrefixFacts(init, s);
    ChainLast(codec, init, s, stream);
    OneMoreSystem(codec, stream, init, s);
  }

  /**
    On a settled stream, whenever the chain of single-system processors succeeds, the fused processor
    succeeds exactly when no component has two row types, and then writes the
    same stream.
  */
  lemma {:induction false} FusedEqualsChained(codec: Codec, systems: seq<System>, stream: seq<Bytes>)
    requires Lawful(codec) && AllWellFormed(systems) && OneSchemaPerName(systems)
    requires systems != [] && Settled(codec, systems, stream)
    requires Chain(codec, systems, stream).Success?
    ensures RunBatch(codec, systems, stream).Success? <==> RowTypesAgree(systems)
    ensures RowTypesAgree(systems) ==> RunBatch(codec, systems, stream) == Chain(codec, systems, stream)
    decreases |systems|
  {
    var init, s := systems[..|systems| - 1], systems[|systems| - 1];
    SplitLast(systems);
    PrefixFacts(init, s);
    SettledSnoc(codec, init, s, stream);
    ChainLast(codec, init, s, stream);
    FusedMeansAgreeing(codec, systems, stream);
    if init != [] && RowTypesAgree(systems) {
      FusedEqualsChained(codec, init, stream);
      FusedStep(codec, init, s, stream);
    }
  }

  lemma FusedMeansAgreeing(codec: Codec, systems: seq<System>, stream: seq<Bytes>)
    requires Lawful(codec) && AllWellFormed(systems) && OneSchemaPerName(systems)
    ensures RunBatch(codec, systems, stream).Success? ==> RowTypesAgree(systems)
  {
    if RunBatch(codec, systems, stream).Success? {
      RunningMeansAgreeing(codec, stream, systems);
    }
  }

  /** The systems run, and then everything they touched encodes and everything else can be copied. */
  ghost predicate WritableAfter(codec: Codec, systems: seq<System>, stream: seq<Bytes>) {
    && RunSystems(codec, stream, systems).Success?
    && CacheFits(RunSystems(codec, stream, systems).value)
    && Writable(codec, RunSystems(codec, stream, systems).value, stream)
  }

  ghost predicate WritableBetween(codec: Codec, systems: seq<System>, stream: seq<Bytes>) {
    forall n :: 0 < n < |systems| ==> WritableAfter(codec, systems[..n], stream)
  }

  lemma BetweenSnoc(codec: Codec, init: seq<System>, s: System, stream: seq<Bytes>)
    requires init != []
    ensures WritableBetween(codec, init + [s], stream) <==>
      WritableBetween(codec, init, stream) && WritableAfter(codec, init, stream)
  {
    var all := init + [s];
    assert all[..|init|] == init;
    assert forall n :: 0 < n < |init| ==> all[..n] == init[..n];
  }

  /** The batch without its last system is one of the same kind. */
  lemma BeforeLast(codec: Codec, init: seq<System>, s: System, stream: seq<Bytes>)
    requires Lawful(codec) && AllWellFormed(init + [s]) && OneSchemaPerName(init + [s]) && init != []
    requires Settled(codec, init + [s], stream) && WritableBetween(codec, init + [s], stream)
    requires RunBatch(codec, init + [s], stream).Success?
    ensures AllWellFormed(init) && OneSchemaPerName(init)
    ensures Settled(codec, init, stream) && Ready(codec, stream, init, s)
    ensures RunBatch(codec, init, stream).Success? && WritableBetween(codec, init, stream)
  {
    PrefixFacts(init, s);
    SettledSnoc(codec, init, s, stream);
    BetweenSnoc(codec, init, s, stream);
    EarlierSucceeds(codec, stream, init, s);
  }

  lemma LastIsChained(codec: Codec, init: seq<System>, s: System, stream: seq<Bytes>)
    requires Lawful(codec) && AllWellFormed(init + [s]) && OneSchemaPerName(init + [s])
    requires AllWellFormed(init) && OneSchemaPerName(init) && Ready(codec, stream, init, s)
    requires RunBatch(codec, init + [s], stream).Success?
    requires RunBatch(codec, init, stream).Success? && RunBatch(codec, init, stream) == Chain(codec, init, stream)
    ensures Chain(codec, init + [s], stream) == RunBatch(codec, init + [s], stream)
  {
    RunningMeansAgreeing(codec, stream, init + [s]);
    PrefixFacts(init, s);
    FusedStep(codec, init, s, stream);
  }

  lemma {:induction false} WritableRunsChained(codec: Codec, systems: seq<System>, stream: seq<Bytes>)
    requires Lawful(codec) && AllWellFormed(systems) && OneSchemaPerName(systems)
    requires systems != [] && Settled(codec, systems, stream)
    requires RunBatch(codec, systems, stream).Success? && WritableBetween(codec, systems, stream)
    ensures Chain(codec, systems, stream) == RunBatch(codec, systems, stream)
    decreases |systems|
  {
    var init, s := systems[..|systems| - 1], systems[|systems| - 1];
    SplitLast(systems);
    if init == [] {
      PrefixFacts(init, s);
      ChainLast(codec, init, s, stream);
    } else {
      BeforeLast(codec, init, s, stream);
      WritableRunsChained(codec, init, stream);
      LastIsChained(codec, init, s, stream);
    }
  }

  lemma {:induction false} ChainedIsWritable(codec: Codec, systems: seq<System>, stream: seq<Bytes>)
    requires Lawful(codec) && AllWellFormed(systems) && OneSchemaPerName(systems)
    requires systems != [] && Settled(codec, systems, stream)
    requires Chain(codec, systems, stream).Success? && RowTypesAgree(systems)
    ensures WritableBetween(codec, systems, stream)
    decreases |systems|
  {
    var init, s := systems[..|systems| - 1], systems[|systems| - 1];
    SplitLast(systems);
    PrefixFacts(init, s);
    SettledSnoc(codec, init, s, stream);
    ChainLast(codec, init, s, stream);
    if init != [] {
      ChainedIsWritable(codec, init, stream);
      FusedEqualsChained(codec, init, stream);
      SucceedingIsWritable(codec, init, stream);
      BetweenSnoc(codec, init, s, stream);
    }
  }

  /**
    A fused batch that succeeds is one the chain runs too, with the same output,
    exactly when the components could have been written between any two systems.
  */
  lemma FusedIsChainedExactly(codec: Codec, systems: seq<System>, stream: seq<Bytes>)
    requires Lawful(codec) && AllWellFormed(systems) && OneSchemaPerName(systems)
    requires systems != [] && Settled(codec, systems, stream)
    requires RunBatch(codec, systems, stream).Success?
    ensures Chain(codec, systems, stream) == RunBatch(codec, systems, stream) <==> WritableBetween(codec, systems, stream)
  {
    if WritableBetween(codec, systems, stream) {
      WritableRunsChained(codec, systems, stream);
    }
    if Chain(codec, systems, stream) == RunBatch(codec, systems, stream) {
      RunningMeansAgreeing(codec, stream, systems);
      ChainedIsWritable(codec, systems, stream);
    }
  }

  lemma SucceedingIsWritable(codec: Codec, systems: seq<System>, stream: seq<Bytes>)
    requires Lawful(codec) && AllWellFormed(systems) && OneSchemaPerName(systems)
    requires RunBatch(codec, systems, stream).Success?
    ensures WritableAfter(codec, systems, stream)
  {
    var cache, w := BatchUnfolds(codec, systems, stream);
  }

  /** A batch whose components can all be written before its last system succeeds without it: no row count changes. */
  lemma EarlierSucceeds(codec: Codec, stream: seq<Bytes>, init: seq<System>, s: System)
    requires Lawful(codec) && WritableAfter(codec, init, stream) && Ready(codec, stream, init, s)
    requires AllWellFormed(init + [s]) && OneSchemaPerName(init + [s]) && AllWellFormed(init) && OneSchemaPerName(init)
    requires RunBatch(codec, init + [s], stream).Success?
    ensures RunBatch(codec, init, stream).Success?
  {
    var after, w := BatchUnfolds(codec, init + [s], stream);
    RunSystemsSplit(codec, stream, init, s);
    var cache := RunSystems(codec, stream, init).value;
    BatchIs(codec, init, stream, cache);
    DecodedIsGood(codec, stream, s, cache);
    if Encoded(codec, after[s.spec.name]).None? || s.spec.name == ALIVE {
      NotWritable(codec, stream, init + [s], after, s.spec.name);
    } else {
      RunningMeansAgreeing(codec, stream, init);
      WritesBefore(codec, stream, init, s, cache, after[s.spec.name]);
    }
  }

  lemma WritesBefore(codec: Codec, stream: seq<Bytes>, init: seq<System>, s: System, cache: Cache, d: Decoded)
    requires Lawful(codec) && GoodCache(cache) && CacheInv(codec, stream, init, cache) && Writable(codec, cache, stream)
    requires RunSystem(codec, stream, s, cache).Success? && d == RunSystem(codec, stream, s, cache).value[s.spec.name]
    requires GoodDecoded(d) && d.spec == s.spec && s.spec.name != ALIVE && Encoded(codec, d).Some?
    requires s.spec.name in cache || CopiesAlike(codec, stream, s)
    requires GoodCache(cache[s.spec.name := d]) && WriteAll(codec, NEW_WRITER, stream, cache[s.spec.name := d]).Success?
    ensures WriteAll(codec, NEW_WRITER, stream, cache).Success?
  {
    var e := Encoded(codec, d).value;
    RecachedSwaps(codec, stream, init, s, cache, d);
    assert Writer(Replaced(NEW_WRITER.segments, e), NEW_WRITER.alive) == NEW_WRITER;
    WriteAllSwaps(codec, NEW_WRITER, stream, cache, cache[s.spec.name := d], e);
  }

  // ---------- order and pass-through ----------

  function Labels(codec: Codec, stream: seq<Bytes>): seq<Bytes> {
    seq(|stream|, i requires 0 <= i < |stream| => codec.labelOf(stream[i]))
  }

  /** On distinct labels, a successful batch in the closed form of its writer. */
  lemma BatchCloses(codec: Codec, systems: seq<System>, stream: seq<Bytes>) returns (cache: Cache, w: Writer)
    requires Lawful(codec) && AllWellFormed(systems) && OneSchemaPerName(systems) && DistinctLabels(codec, stream)
    requires RunBatch(codec, systems, stream).Success?
    ensures GoodCache(cache) && CacheInv(codec, stream, systems, cache) && Writable(codec, cache, stream)
    ensures w == Writer(Bodies(codec, cache, stream), AliveOf(codec, stream))
    ensures RunBatch(codec, systems, stream).value == Output(codec, w)
  {
    cache, w := BatchUnfolds(codec, systems, stream);
    WriteAllCloses(codec, NEW_WRITER, stream, cache);
    assert [] + Bodies(codec, cache, stream) == Bodies(codec, cache, stream);
  }

  /** Segment order is kept exactly when the input has no repeated label and its liveness segment is last. */
  lemma OrderKeptExactly(codec: Codec, systems: seq<System>, stream: seq<Bytes>)
    requires Lawful(codec) && AllWellFormed(systems) && OneSchemaPerName(systems)
    requires RunBatch(codec, systems, stream).Success?
    ensures Labels(codec, RunBatch(codec, systems, stream).value) == Labels(codec, stream) <==>
      DistinctLabels(codec, stream) && codec.labelOf(stream[|stream| - 1]) == ALIVE
  {
    var out := RunBatch(codec, systems, stream).value;
    var cache := RunSystems(codec, stream, systems).value;
    RunSystemsKeepsCache(codec, stream, systems);
    CacheIsGood(codec, stream, systems, cache);
    var w := WriteAll(codec, NEW_WRITER, stream, cache).value;
    WriteAllKeeps(codec, NEW_WRITER, stream, cache);
    OutputLabels(codec, w);
    if Labels(codec, out) == Labels(codec, stream) {
      SameLabels(codec, out, stream);
    }
    if DistinctLabels(codec, stream) && codec.labelOf(stream[|stream| - 1]) == ALIVE {
      SegmentsInPlace(codec, systems, stream);
      assert Labels(codec, out) == Labels(codec, stream);
    }
  }

  lemma SameLabels(codec: Codec, out: seq<Bytes>, stream: seq<Bytes>)
    requires Labels(codec, out) == Labels(codec, stream)
    ensures |out| == |stream| && forall i :: 0 <= i < |out| ==> codec.labelOf(out[i]) == codec.labelOf(stream[i])
  {
    forall i | 0 <= i < |out| ensures codec.labelOf(out[i]) == codec.labelOf(stream[i]) {
      assert Labels(codec, out)[i] == Labels(codec, stream)[i];
    }
  }

  /** In such a stream every segment keeps its place and label, and an untouched one its bytes. */
  lemma SegmentsInPlace(codec: Codec, systems: seq<System>, stream: seq<Bytes>)
    requires Lawful(codec) && AllWellFormed(systems) && OneSchemaPerName(systems)
    requires RunBatch(codec, systems, stream).Success?
    requires DistinctLabels(codec, stream) && codec.labelOf(stream[|stream| - 1]) == ALIVE
    ensures var out := RunBatch(codec, systems, stream).value;
      |out| == |stream| && forall j :: 0 <= j < |stream| ==>
        && codec.labelOf(out[j]) == codec.labelOf(stream[j])
        && (!Touched(systems, codec.labelOf(stream[j])) ==> out[j] == stream[j])
  {
    var cache, w := BatchCloses(codec, systems, stream);
    BodiesInPlace(codec, cache, stream);
    forall j | 0 <= j < |stream| - 1
      ensures codec.labelOf(w.segments[j].ipc) == codec.labelOf(stream[j])
      ensures !Touched(systems, codec.labelOf(stream[j])) ==> w.segments[j].ipc == stream[j]
    {
      EmittedInPlace(codec, systems, stream, cache, j);
    }
    OutputInPlace(codec, w, stream);
  }

  lemma EmittedInPlace(codec: Codec, systems: seq<System>, stream: seq<Bytes>, cache: Cache, j: nat)
    requires Lawful(codec) && GoodCache(cache) && CacheInv(codec, stream, systems, cache)
    requires Writable(codec, cache, stream) && j < |stream| && codec.labelOf(stream[j]) != ALIVE
    ensures var e := Emitted(codec, cache, stream[j]).value;
      && codec.labelOf(e.ipc) == codec.labelOf(stream[j])
      && (!Touched(systems, codec.labelOf(stream[j])) ==> e.ipc == stream[j])
  {
    EmittedShaped(codec, cache, stream[j]);
  }

  /** The output is the bodies and then the liveness segment. */
  lemma OutputInPlace(codec: Codec, w: Writer, stream: seq<Bytes>)
    requires stream != [] && |w.segments| == |stream| - 1
    requires w.alive.Some? && w.alive.value.ipc == stream[|stream| - 1]
    ensures |Output(codec, w)| == |stream|
    ensures forall j :: 0 <= j < |stream| ==>
      Output(codec, w)[j] == if j < |w.segments| then w.segments[j].ipc else stream[j]
  {
  }

  /**
    An untouched component comes out byte for byte, wherever the liveness segment
    stands: of several copies under its name, the last.
  */
  lemma UntouchedIsForwarded(codec: Codec, systems: seq<System>, stream: seq<Bytes>, j: nat)
    requires Lawful(codec) && AllWellFormed(systems) && OneSchemaPerName(systems)
    requires RunBatch(codec, systems, stream).Success?
    requires j < |stream| && !Touched(systems, codec.labelOf(stream[j]))
    ensures stream[j] in RunBatch(codec, systems, stream).value <==>
      stream[j] == stream[FindLast(codec, stream, codec.labelOf(stream[j]))]
  {
    var cache, w := BatchUnfolds(codec, systems, stream);
    var out, name := Output(codec, w), codec.labelOf(stream[j]);
    var last := FindLast(codec, stream, name);
    if name == ALIVE {
      LastAliveIsKept(codec, NEW_WRITER, stream, cache);
    } else {
      LastIsKept(codec, NEW_WRITER, stream, cache, name);
    }
    OutputLabels(codec, w);
    assert Emitted(codec, cache, stream[last]) == Some(Segment(name, codec.rows(stream[last]), stream[last]));
    OutputHas(codec, w, name);
    if stream[j] in out {
      var i :| 0 <= i < |out| && out[i] == stream[j];
    }
  }
}
