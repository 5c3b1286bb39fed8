/**
  The writer on whole streams: its closed form when no name repeats, which copy of
  a repeated name it keeps, and what changes when one component is written anew.
*/
module StreamWriter {
  import opened Wrappers
  import opened ByteStrings
  import opened Components
  import opened Columns
  import opened Processor
  import opened Sequences

  ghost predicate DistinctLabels(codec: Codec, stream: seq<Bytes>) {
    forall i, j :: 0 <= i < j < |stream| ==> codec.labelOf(stream[i]) != codec.labelOf(stream[j])
  }

  // ---------- the writer in closed form ----------

  /** What one input segment becomes, when the writer takes it. */
  function Emitted(codec: Codec, cache: Cache, ipc: Bytes): Option<Segment>
    requires CacheFits(cache)
  {
    var name := codec.labelOf(ipc);
    if name in cache then
      var d := cache[name];
      var encoded := codec.encode(d.spec, ColumnsOf(d.rows, d.spec.fields));
      if encoded.None? then None else Some(Segment(name, |d.rows|, encoded.value))
    else if name == [] || ipc == [] then None
    else Some(Segment(name, codec.rows(ipc), ipc))
  }

  predicate Writable(codec: Codec, cache: Cache, stream: seq<Bytes>)
    requires CacheFits(cache)
  {
    forall i :: 0 <= i < |stream| ==> Emitted(codec, cache, stream[i]).Some?
  }

  /** The component segments the writer ends up with. */
  function Bodies(codec: Codec, cache: Cache, stream: seq<Bytes>): seq<Segment>
    requires CacheFits(cache) && Writable(codec, cache, stream)
  {
    if stream == [] then []
    else
      (if codec.labelOf(stream[0]) == ALIVE then [] else [Emitted(codec, cache, stream[0]).value])
      + Bodies(codec, cache, stream[1..])
  }

  function AliveOf(codec: Codec, stream: seq<Bytes>): Option<Segment> {
    if stream == [] then None
    else if codec.labelOf(stream[0]) == ALIVE then Some(Segment(ALIVE, codec.rows(stream[0]), stream[0]))
    else AliveOf(codec, stream[1..])
  }

  predicate Bounded(segments: seq<Segment>, alive: Option<Segment>) {
    alive.Some? ==> forall i :: 0 <= i < |segments| ==> segments[i].rows <= alive.value.rows
  }

  function FinalAlive(codec: Codec, w: Writer, stream: seq<Bytes>): Option<Segment> {
    if w.alive.Some? then w.alive else AliveOf(codec, stream)
  }

  /** Exactly when a writer takes every segment of a stream. */
  ghost predicate Accepts(codec: Codec, w: Writer, stream: seq<Bytes>, cache: Cache)
    requires CacheFits(cache)
  {
    && Writable(codec, cache, stream)
    && Bounded(Bodies(codec, cache, stream), FinalAlive(codec, w, stream))
    && (w.alive.None? ==> Bounded(w.segments, AliveOf(codec, stream)))
  }

  /** Nothing in `stream` shares a name with what `w` already holds. */
  ghost predicate Fresh(codec: Codec, w: Writer, stream: seq<Bytes>) {
    && DistinctLabels(codec, stream)
    && (forall i, j :: 0 <= i < |w.segments| && 0 <= j < |stream| ==> w.segments[i].name != codec.labelOf(stream[j]))
    && (w.alive.Some? ==> forall j :: 0 <= j < |stream| ==> codec.labelOf(stream[j]) != ALIVE)
  }

  lemma {:induction false} PutAppends(segments: seq<Segment>, s: Segment)
    requires forall i :: 0 <= i < |segments| ==> segments[i].name != s.name
    ensures Put(segments, s) == segments + [s]
  {
    if segments != [] {
      PutAppends(segments[1..], s);
      assert [segments[0]] + (segments[1..] + [s]) == segments + [s];
    }
  }

  lemma {:induction false} NoAlive(codec: Codec, stream: seq<Bytes>)
    requires forall j :: 0 <= j < |stream| ==> codec.labelOf(stream[j]) != ALIVE
    ensures AliveOf(codec, stream) == None
  {
    if stream != [] {
      NoAlive(codec, stream[1..]);
    }
  }

  /** The liveness label is never encoded as a component. */
  lemma AliveNotCached(codec: Codec, cache: Cache, ipc: Bytes)
    requires Lawful(codec) && CacheFits(cache) && codec.labelOf(ipc) == ALIVE
    requires forall n :: n in cache ==> cache[n].spec.name == n
    ensures ALIVE in cache ==> Emitted(codec, cache, ipc).None?
  {
    if ALIVE in cache {
      assert ReadsBack(codec, cache[ALIVE].spec, ColumnsOf(cache[ALIVE].rows, cache[ALIVE].spec.fields));
    }
  }

  ghost predicate NamedCache(cache: Cache) {
    forall n :: n in cache ==> cache[n].spec.name == n
  }

  /** On distinct labels the writer appends, so its result is read off the stream. */
  lemma {:induction false} WriteAllCloses(codec: Codec, w: Writer, stream: seq<Bytes>, cache: Cache)
    requires Lawful(codec) && CacheFits(cache) && NamedCache(cache) && Fresh(codec, w, stream)
    ensures WriteAll(codec, w, stream, cache).Success? <==> Accepts(codec, w, stream, cache)
    ensures WriteAll(codec, w, stream, cache).Success? ==>
      WriteAll(codec, w, stream, cache).value
        == Writer(w.segments + Bodies(codec, cache, stream), FinalAlive(codec, w, stream))
    decreases |stream|
  {
    if stream == [] {
      assert w.segments + [] == w.segments;
    } else {
      var first, rest := stream[0], stream[1..];
      WritableCons(codec, cache, stream);
      assert forall j :: 0 <= j < |rest| ==> rest[j] == stream[j + 1];
      if Emitted(codec, cache, first).Some? {
        if codec.labelOf(first) == ALIVE {
          WriteAliveFirst(codec, w, stream, cache);
        } else {
          WriteBodyFirst(codec, w, stream, cache);
        }
      }
    }
  }

  lemma {:induction false} WriteAliveFirst(codec: Codec, w: Writer, stream: seq<Bytes>, cache: Cache)
    requires Lawful(codec) && CacheFits(cache) && NamedCache(cache) && Fresh(codec, w, stream)
    requires stream != [] && codec.labelOf(stream[0]) == ALIVE && Emitted(codec, cache, stream[0]).Some?
    requires Writable(codec, cache, stream) <==> Writable(codec, cache, stream[1..])
    ensures WriteAll(codec, w, stream, cache).Success? <==> Accepts(codec, w, stream, cache)
    ensures WriteAll(codec, w, stream, cache).Success? ==>
      WriteAll(codec, w, stream, cache).value
        == Writer(w.segments + Bodies(codec, cache, stream), FinalAlive(codec, w, stream))
    decreases |stream|, 0
  {
    var first, rest := stream[0], stream[1..];
    AliveNotCached(codec, cache, first);
    var s := Segment(ALIVE, codec.rows(first), first);
    assert w.alive.None?;
    var next := w.(alive := Some(s));
    assert Fresh(codec, next, rest);
    NoAlive(codec, rest);
    WriteAllCloses(codec, next, rest, cache);
    if Writable(codec, cache, rest) {
      assert Bodies(codec, cache, stream) == Bodies(codec, cache, rest);
    }
  }

  lemma {:induction false} WriteBodyFirst(codec: Codec, w: Writer, stream: seq<Bytes>, cache: Cache)
    requires Lawful(codec) && CacheFits(cache) && NamedCache(cache) && Fresh(codec, w, stream)
    requires stream != [] && codec.labelOf(stream[0]) != ALIVE && Emitted(codec, cache, stream[0]).Some?
    requires Writable(codec, cache, stream) <==> Writable(codec, cache, stream[1..])
    ensures WriteAll(codec, w, stream, cache).Success? <==> Accepts(codec, w, stream, cache)
    ensures WriteAll(codec, w, stream, cache).Success? ==>
      WriteAll(codec, w, stream, cache).value
        == Writer(w.segments + Bodies(codec, cache, stream), FinalAlive(codec, w, stream))
    decreases |stream|, 0
  {
    var first, rest := stream[0], stream[1..];
    var s := Emitted(codec, cache, first).value;
    var next := w.(segments := w.segments + [s]);
    WriteOneBody(codec, w, first, cache);
    FreshNext(codec, w, stream, s);
    WriteAllCloses(codec, next, rest, cache);
    if Writable(codec, cache, rest) {
      AcceptsBody(codec, w, stream, cache);
      assert Bodies(codec, cache, stream) == [s] + Bodies(codec, cache, rest);
      Regroup(w.segments, [s], Bodies(codec, cache, rest));
    }
  }

  lemma WriteOneBody(codec: Codec, w: Writer, ipc: Bytes, cache: Cache)
    requires CacheFits(cache) && NamedCache(cache)
    requires codec.labelOf(ipc) != ALIVE && Emitted(codec, cache, ipc).Some?
    requires forall i :: 0 <= i < |w.segments| ==> w.segments[i].name != codec.labelOf(ipc)
    ensures var s := Emitted(codec, cache, ipc).value;
      && s.name == codec.labelOf(ipc)
      && WriteOne(codec, w, ipc, cache) ==
        if CoveredByAlive(w, s.rows) then Success(w.(segments := w.segments + [s]))
        else Failure(WriteRefused(codec.labelOf(ipc)))
  {
    PutAppends(w.segments, Emitted(codec, cache, ipc).value);
  }

  lemma FreshNext(codec: Codec, w: Writer, stream: seq<Bytes>, s: Segment)
    requires stream != [] && Fresh(codec, w, stream) && s.name == codec.labelOf(stream[0])
    ensures Fresh(codec, w.(segments := w.segments + [s]), stream[1..])
  {
  }

  lemma AcceptsBody(codec: Codec, w: Writer, stream: seq<Bytes>, cache: Cache)
    requires CacheFits(cache) && stream != [] && Writable(codec, cache, stream) && Writable(codec, cache, stream[1..])
    requires codec.labelOf(stream[0]) != ALIVE
    ensures var s := Emitted(codec, cache, stream[0]).value;
      Accepts(codec, w, stream, cache) <==>
        CoveredByAlive(w, s.rows) && Accepts(codec, w.(segments := w.segments + [s]), stream[1..], cache)
  {
    var rest := stream[1..];
    var s, bodies := Emitted(codec, cache, stream[0]).value, Bodies(codec, cache, rest);
    assert Bodies(codec, cache, stream) == [s] + bodies;
    BoundedSplit([s], bodies, FinalAlive(codec, w, stream));
    BoundedSplit(w.segments, [s], AliveOf(codec, stream));
    BoundedOne(s, w.alive);
    BoundedOne(s, AliveOf(codec, stream));
  }

  lemma BoundedOne(s: Segment, alive: Option<Segment>)
    ensures Bounded([s], alive) <==> (alive.Some? ==> s.rows <= alive.value.rows)
  {
    assert [s][0] == s;
  }

  lemma BoundedSplit(a: seq<Segment>, b: seq<Segment>, alive: Option<Segment>)
    ensures Bounded(a + b, alive) <==> Bounded(a, alive) && Bounded(b, alive)
  {
    if alive.Some? && Bounded(a + b, alive) {
      forall i | 0 <= i < |a| ensures a[i].rows <= alive.value.rows {
        assert (a + b)[i] == a[i];
      }
      forall i | 0 <= i < |b| ensures b[i].rows <= alive.value.rows {
        assert (a + b)[|a| + i] == b[i];
      }
    }
  }

  // ---------- what the writer's segments look like ----------

  ghost predicate GoodDecoded(d: Decoded) {
    d.spec.fields != [] && RowsFit(d.rows, d.spec.fields)
  }

  ghost predicate GoodCache(cache: Cache) {
    forall n :: n in cache ==> cache[n].spec.name == n && GoodDecoded(cache[n])
  }

  /** A written component segment reads back under its own name with its own row count. */
  ghost predicate Shaped(codec: Codec, s: Segment) {
    && s.name != [] && s.name != ALIVE && s.ipc != []
    && codec.labelOf(s.ipc) == s.name && codec.rows(s.ipc) == s.rows
  }

  lemma EmittedShaped(codec: Codec, cache: Cache, ipc: Bytes)
    requires Lawful(codec) && GoodCache(cache) && codec.labelOf(ipc) != ALIVE
    requires Emitted(codec, cache, ipc).Some?
    ensures Shaped(codec, Emitted(codec, cache, ipc).value)
    ensures Emitted(codec, cache, ipc).value.name == codec.labelOf(ipc)
  {
    var name := codec.labelOf(ipc);
    if name in cache {
      EncodedShaped(codec, cache[name]);
    }
  }

  lemma EncodedShaped(codec: Codec, d: Decoded)
    requires Lawful(codec) && GoodDecoded(d)
    requires codec.encode(d.spec, ColumnsOf(d.rows, d.spec.fields)).Some?
    ensures Shaped(codec, Segment(d.spec.name, |d.rows|, codec.encode(d.spec, ColumnsOf(d.rows, d.spec.fields)).value))
  {
    assert ReadsBack(codec, d.spec, ColumnsOf(d.rows, d.spec.fields));
    DecodeInvertsEncode(codec, d.spec, d.rows);
  }

  ghost predicate AllShaped(codec: Codec, segments: seq<Segment>) {
    && (forall i :: 0 <= i < |segments| ==> Shaped(codec, segments[i]))
    && (forall i, j :: 0 <= i < j < |segments| ==> segments[i].name != segments[j].name)
  }

  // ---------- writing any stream ----------

  /** What a writer holds: components reading back under names of their own, and a liveness segment covering them. */
  ghost predicate WellWritten(codec: Codec, w: Writer) {
    && AllShaped(codec, w.segments) && Bounded(w.segments, w.alive)
    && (w.alive.Some? ==> AliveShaped(codec, w.alive.value))
  }

  ghost predicate AliveShaped(codec: Codec, a: Segment) {
    codec.labelOf(a.ipc) == ALIVE && a.name == ALIVE && a.rows == codec.rows(a.ipc) && a.ipc != []
  }

  /** One segment written: refused when nothing can be emitted for it, or for its length beside the liveness segment. */
  lemma WriteOneIs(codec: Codec, w: Writer, ipc: Bytes, cache: Cache)
    requires Lawful(codec) && GoodCache(cache)
    ensures Emitted(codec, cache, ipc).None? ==> WriteOne(codec, w, ipc, cache).Failure?
    ensures Emitted(codec, cache, ipc).Some? ==>
      var name, e := codec.labelOf(ipc), Emitted(codec, cache, ipc).value;
      && e.name == name
      && (name == ALIVE ==> AliveShaped(codec, e))
      && WriteOne(codec, w, ipc, cache) ==
        if name == ALIVE then
          if Bounded(w.segments, Some(e)) then Success(w.(alive := Some(e))) else Failure(WriteRefused(name))
        else
          if CoveredByAlive(w, e.rows) then Success(w.(segments := Put(w.segments, e))) else Failure(WriteRefused(name))
  {
    if codec.labelOf(ipc) == ALIVE {
      AliveNotCached(codec, cache, ipc);
    }
  }

  lemma {:induction false} PutKeepsShape(codec: Codec, segments: seq<Segment>, s: Segment)
    requires AllShaped(codec, segments) && Shaped(codec, s)
    ensures AllShaped(codec, Put(segments, s))
    ensures forall i :: 0 <= i < |Put(segments, s)| ==>
      Put(segments, s)[i] == s || Put(segments, s)[i] in segments
  {
    if segments != [] && segments[0].name != s.name {
      PutKeepsShape(codec, segments[1..], s);
      var rest := Put(segments[1..], s);
      forall j | 0 <= j < |rest| ensures rest[j].name != segments[0].name {
        if rest[j] != s {
          var k :| 0 <= k < |segments[1..]| && segments[1..][k] == rest[j];
          assert segments[k + 1] == rest[j];
        }
      }
    }
  }

  lemma WriteOneKeeps(codec: Codec, w: Writer, ipc: Bytes, cache: Cache)
    requires Lawful(codec) && GoodCache(cache) && WellWritten(codec, w)
    requires WriteOne(codec, w, ipc, cache).Success?
    ensures WellWritten(codec, WriteOne(codec, w, ipc, cache).value)
  {
    WriteOneIs(codec, w, ipc, cache);
    if codec.labelOf(ipc) != ALIVE {
      EmittedShaped(codec, cache, ipc);
      PutKeepsShape(codec, w.segments, Emitted(codec, cache, ipc).value);
    }
  }

  /** Whatever a writer takes, it stays well written, and something could be emitted for every segment. */
  lemma {:induction false} WriteAllKeeps(codec: Codec, w: Writer, stream: seq<Bytes>, cache: Cache)
    requires Lawful(codec) && GoodCache(cache) && WellWritten(codec, w)
    requires WriteAll(codec, w, stream, cache).Success?
    ensures WellWritten(codec, WriteAll(codec, w, stream, cache).value)
    ensures Writable(codec, cache, stream)
    decreases |stream|
  {
    if stream != [] {
      WriteOneIs(codec, w, stream[0], cache);
      WriteOneKeeps(codec, w, stream[0], cache);
      WriteAllKeeps(codec, WriteOne(codec, w, stream[0], cache).value, stream[1..], cache);
      WritableCons(codec, cache, stream);
    }
  }

  /** An output stream has distinct labels, the liveness label last. */
  lemma OutputLabels(codec: Codec, w: Writer)
    requires Lawful(codec) && WellWritten(codec, w)
    ensures DistinctLabels(codec, Output(codec, w))
    ensures codec.labelOf(Output(codec, w)[|w.segments|]) == ALIVE
    ensures forall i :: 0 <= i < |w.segments| ==>
      Output(codec, w)[i] == w.segments[i].ipc && codec.labelOf(Output(codec, w)[i]) == w.segments[i].name
  {
    assert forall i :: 0 <= i < |w.segments| ==> Shaped(codec, w.segments[i]);
  }

  // ---------- which copy of a repeated name stays ----------

  /** The last segment declaring `name`, or -1. */
  function FindLast(codec: Codec, stream: seq<Bytes>, name: Bytes): (i: int)
    ensures -1 <= i < |stream|
    ensures i >= 0 ==> codec.labelOf(stream[i]) == name
    ensures forall j :: i < j < |stream| ==> codec.labelOf(stream[j]) != name
  {
    if stream == [] then -1
    else
      var later := FindLast(codec, stream[1..], name);
      if later >= 0 then later + 1 else if codec.labelOf(stream[0]) == name then 0 else -1
  }

  function Lookup(segments: seq<Segment>, name: Bytes): (r: Option<Segment>)
    ensures r.Some? ==> r.value.name == name && r.value in segments
    ensures r.None? ==> forall i :: 0 <= i < |segments| ==> segments[i].name != name
  {
    if segments == [] then None
    else if segments[0].name == name then Some(segments[0])
    else Lookup(segments[1..], name)
  }

  lemma {:induction false} LookupPut(segments: seq<Segment>, s: Segment, name: Bytes)
    ensures Lookup(Put(segments, s), name) == if s.name == name then Some(s) else Lookup(segments, name)
    decreases |segments|
  {
    if segments != [] && segments[0].name != s.name {
      LookupPut(segments[1..], s, name);
    }
  }

  /** Whatever the stream, the writer ends up with what the last segment of each name became. */
  lemma {:induction false} LastIsKept(codec: Codec, w: Writer, stream: seq<Bytes>, cache: Cache, name: Bytes)
    requires Lawful(codec) && GoodCache(cache) && WriteAll(codec, w, stream, cache).Success? && name != ALIVE
    ensures var after, last := WriteAll(codec, w, stream, cache).value, FindLast(codec, stream, name);
      Lookup(after.segments, name) == if last >= 0 then Emitted(codec, cache, stream[last]) else Lookup(w.segments, name)
    decreases |stream|
  {
    if stream != [] {
      WriteOneIs(codec, w, stream[0], cache);
      LastIsKept(codec, WriteOne(codec, w, stream[0], cache).value, stream[1..], cache, name);
      if codec.labelOf(stream[0]) != ALIVE {
        LookupPut(w.segments, Emitted(codec, cache, stream[0]).value, name);
      }
    }
  }

  lemma {:induction false} LastAliveIsKept(codec: Codec, w: Writer, stream: seq<Bytes>, cache: Cache)
    requires Lawful(codec) && GoodCache(cache) && WriteAll(codec, w, stream, cache).Success?
    ensures var after, last := WriteAll(codec, w, stream, cache).value, FindLast(codec, stream, ALIVE);
      after.alive == if last >= 0 then Emitted(codec, cache, stream[last]) else w.alive
    decreases |stream|
  {
    if stream != [] {
      WriteOneIs(codec, w, stream[0], cache);
      LastAliveIsKept(codec, WriteOne(codec, w, stream[0], cache).value, stream[1..], cache);
    }
  }

  /** Where a written stream has a name. */
  lemma FindInOutput(codec: Codec, w: Writer, name: Bytes)
    requires Lawful(codec) && WellWritten(codec, w) && name != ALIVE
    ensures var out, kept := Output(codec, w), Lookup(w.segments, name);
      && (Find(codec, out, name) < |out| <==> kept.Some?)
      && (kept.Some? ==> out[Find(codec, out, name)] == kept.value.ipc)
  {
    OutputLabels(codec, w);
    var out, kept := Output(codec, w), Lookup(w.segments, name);
    var k := Find(codec, out, name);
    if kept.Some? {
      var i :| 0 <= i < |w.segments| && w.segments[i] == kept.value;
      assert codec.labelOf(out[i]) == name;
      assert k == i;
    }
  }

  /** The one segment of that name in a written stream. */
  lemma OutputHas(codec: Codec, w: Writer, name: Bytes)
    requires Lawful(codec) && WellWritten(codec, w)
    requires name == ALIVE ==> w.alive.Some?
    requires name != ALIVE ==> Lookup(w.segments, name).Some?
    ensures var kept := if name == ALIVE then w.alive.value.ipc else Lookup(w.segments, name).value.ipc;
      && kept in Output(codec, w)
      && forall i :: 0 <= i < |Output(codec, w)| && codec.labelOf(Output(codec, w)[i]) == name ==> Output(codec, w)[i] == kept
  {
    OutputLabels(codec, w);
    if name == ALIVE {
      assert Output(codec, w)[|w.segments|] == w.alive.value.ipc;
    } else {
      FindInOutput(codec, w, name);
    }
  }
  // ---------- rewriting one component ----------

  function Replaced(segments: seq<Segment>, e: Segment): (out: seq<Segment>)
    ensures |out| == |segments|
    ensures forall i :: 0 <= i < |segments| ==> out[i] == if segments[i].name == e.name then e else segments[i]
  {
    if segments == [] then []
    else [if segments[0].name == e.name then e else segments[0]] + Replaced(segments[1..], e)
  }

  /** The segment a decoded component encodes to. */
  function Encoded(codec: Codec, d: Decoded): Option<Segment>
    requires forall i :: 0 <= i < |d.rows| ==> |d.rows[i]| == |d.spec.fields|
  {
    var ipc := codec.encode(d.spec, ColumnsOf(d.rows, d.spec.fields));
    if ipc.None? then None else Some(Segment(d.spec.name, |d.rows|, ipc.value))
  }

  lemma WritableCons(codec: Codec, cache: Cache, stream: seq<Bytes>)
    requires CacheFits(cache) && stream != []
    ensures Writable(codec, cache, stream) <==>
      Emitted(codec, cache, stream[0]).Some? && Writable(codec, cache, stream[1..])
  {
    assert forall i :: 0 < i < |stream| ==> stream[i] == stream[1..][i - 1];
  }

  lemma RewrittenOne(codec: Codec, s: Segment, d: Decoded)
    requires Lawful(codec) && GoodDecoded(d) && Encoded(codec, d).Some? && Shaped(codec, s)
    ensures Emitted(codec, map[d.spec.name := d], s.ipc)
      == Some(if s.name == d.spec.name then Encoded(codec, d).value else s)
  {
  }

  lemma AliveAlone(codec: Codec, alive: Bytes, d: Decoded)
    requires GoodDecoded(d) && d.spec.name != ALIVE && codec.labelOf(alive) == ALIVE && alive != []
    ensures var solo: Cache := map[d.spec.name := d];
      && Writable(codec, solo, [alive]) && Bodies(codec, solo, [alive]) == []
      && AliveOf(codec, [alive]) == Some(Segment(ALIVE, codec.rows(alive), alive))
  {
    assert [alive][1..] == [];
  }

  /** Running one component through an output stream replaces its body and nothing else. */
  lemma {:induction false} RewrittenBodies(codec: Codec, segments: seq<Segment>, alive: Bytes, d: Decoded)
    requires Lawful(codec) && GoodDecoded(d) && Encoded(codec, d).Some? && d.spec.name != ALIVE
    requires forall i :: 0 <= i < |segments| ==> Shaped(codec, segments[i])
    requires codec.labelOf(alive) == ALIVE && alive != []
    ensures var solo: Cache := map[d.spec.name := d]; var stream := Streams(segments) + [alive];
      && Writable(codec, solo, stream)
      && Bodies(codec, solo, stream) == Replaced(segments, Encoded(codec, d).value)
      && AliveOf(codec, stream) == Some(Segment(ALIVE, codec.rows(alive), alive))
    decreases |segments|
  {
    var solo: Cache := map[d.spec.name := d];
    var stream := Streams(segments) + [alive];
    if segments == [] {
      assert stream == [alive];
      AliveAlone(codec, alive, d);
    } else {
      RewrittenBodies(codec, segments[1..], alive, d);
      assert stream[1..] == Streams(segments[1..]) + [alive] && stream[0] == segments[0].ipc;
      RewrittenOne(codec, segments[0], d);
      WritableCons(codec, solo, stream);
    }
  }

  ghost predicate SameRows(a: seq<Segment>, b: seq<Segment>) {
    |a| == |b| && forall i :: 0 <= i < |a| ==> a[i].rows == b[i].rows
  }

  lemma {:induction false} SameRowsSameMax(a: seq<Segment>, b: seq<Segment>)
    requires SameRows(a, b)
    ensures MaxRows(a) == MaxRows(b)
    decreases |a|
  {
    if a != [] {
      SameRowsSameMax(a[1..], b[1..]);
    }
  }

  lemma {:induction false} MaxRowsBounds(segments: seq<Segment>)
    ensures forall i :: 0 <= i < |segments| ==> segments[i].rows <= MaxRows(segments)
  {
    if segments != [] {
      MaxRowsBounds(segments[1..]);
      assert forall i :: 0 < i < |segments| ==> segments[i] == segments[1..][i - 1];
    }
  }

  // ---------- one component written anew ----------

  function Swap(s: Segment, e: Segment): Segment {
    if s.name == e.name then e else s
  }

  ghost predicate RowsLike(segments: seq<Segment>, e: Segment) {
    forall i :: 0 <= i < |segments| && segments[i].name == e.name ==> segments[i].rows == e.rows
  }

  /** The two caches emit the same for a segment, but for the content of the component `e`. */
  ghost predicate SwapsOne(codec: Codec, cache: Cache, after: Cache, ipc: Bytes, e: Segment)
    requires CacheFits(cache) && CacheFits(after)
  {
    var before := Emitted(codec, cache, ipc);
    && before.Some? && (before.value.name == e.name ==> before.value.rows == e.rows)
    && Emitted(codec, after, ipc) == Some(Swap(before.value, e))
  }

  ghost predicate SwapsAll(codec: Codec, cache: Cache, after: Cache, stream: seq<Bytes>, e: Segment)
    requires CacheFits(cache) && CacheFits(after)
  {
    forall j :: 0 <= j < |stream| ==> SwapsOne(codec, cache, after, stream[j], e)
  }

  lemma {:induction false} PutSwaps(segments: seq<Segment>, x: Segment, e: Segment)
    ensures Put(Replaced(segments, e), Swap(x, e)) == Replaced(Put(segments, x), e)
    ensures RowsLike(segments, e) && (x.name == e.name ==> x.rows == e.rows) ==> RowsLike(Put(segments, x), e)
  {
    if segments == [] {
      assert Replaced([x], e) == [Swap(x, e)];
    } else {
      ReplacedCons(segments[0], segments[1..], e);
      assert segments == [segments[0]] + segments[1..];
      if segments[0].name == x.name {
        ReplacedCons(x, segments[1..], e);
      } else {
        PutSwaps(segments[1..], x, e);
        ReplacedCons(segments[0], Put(segments[1..], x), e);
        RowsCons(segments[0], segments[1..], e);
        RowsCons(segments[0], Put(segments[1..], x), e);
      }
    }
  }

  lemma RowsCons(first: Segment, rest: seq<Segment>, e: Segment)
    ensures RowsLike([first] + rest, e) <==> (first.name == e.name ==> first.rows == e.rows) && RowsLike(rest, e)
  {
    var all := [first] + rest;
    if RowsLike(all, e) {
      assert all[0] == first && forall i :: 0 <= i < |rest| ==> rest[i] == all[i + 1];
    }
  }

  lemma ReplacedCons(first: Segment, rest: seq<Segment>, e: Segment)
    ensures Replaced([first] + rest, e) == [Swap(first, e)] + Replaced(rest, e)
  {
    assert ([first] + rest)[1..] == rest;
  }

  lemma ReplacedRows(segments: seq<Segment>, e: Segment)
    requires RowsLike(segments, e)
    ensures SameRows(Replaced(segments, e), segments)
  {
  }

  lemma SwappedBounded(segments: seq<Segment>, e: Segment, alive: Option<Segment>)
    requires RowsLike(segments, e)
    ensures Bounded(Replaced(segments, e), alive) <==> Bounded(segments, alive)
  {
    ReplacedRows(segments, e);
    var later := Replaced(segments, e);
    assert forall i :: 0 <= i < |segments| ==> later[i].rows == segments[i].rows;
  }

  lemma WriteOneSwaps(codec: Codec, w: Writer, ipc: Bytes, cache: Cache, after: Cache, e: Segment)
    requires Lawful(codec) && GoodCache(cache) && GoodCache(after) && e.name != ALIVE
    requires RowsLike(w.segments, e) && SwapsOne(codec, cache, after, ipc, e)
    ensures var one := WriteOne(codec, w, ipc, cache);
      var other := WriteOne(codec, Writer(Replaced(w.segments, e), w.alive), ipc, after);
      && (one.Success? <==> other.Success?)
      && (one.Success? ==>
        && RowsLike(one.value.segments, e)
        && other.value == Writer(Replaced(one.value.segments, e), one.value.alive))
  {
    WriteOneIs(codec, w, ipc, cache);
    WriteOneIs(codec, Writer(Replaced(w.segments, e), w.alive), ipc, after);
    var x := Emitted(codec, cache, ipc).value;
    SwappedBounded(w.segments, e, Some(x));
    PutSwaps(w.segments, x, e);
  }

  /** Then either both write the stream or neither, and what they write differs in that component alone. */
  lemma {:induction false} WriteAllSwaps(codec: Codec, w: Writer, stream: seq<Bytes>, cache: Cache, after: Cache, e: Segment)
    requires Lawful(codec) && GoodCache(cache) && GoodCache(after) && e.name != ALIVE
    requires RowsLike(w.segments, e) && SwapsAll(codec, cache, after, stream, e)
    ensures var one := WriteAll(codec, w, stream, cache);
      var other := WriteAll(codec, Writer(Replaced(w.segments, e), w.alive), stream, after);
      && (one.Success? <==> other.Success?)
      && (one.Success? ==>
        && RowsLike(one.value.segments, e)
        && other.value == Writer(Replaced(one.value.segments, e), one.value.alive))
    decreases |stream|
  {
    if stream != [] {
      WriteOneSwaps(codec, w, stream[0], cache, after, e);
      if WriteOne(codec, w, stream[0], cache).Success? {
        assert forall j :: 0 <= j < |stream[1..]| ==> stream[1..][j] == stream[j + 1];
        WriteAllSwaps(codec, WriteOne(codec, w, stream[0], cache).value, stream[1..], cache, after, e);
      }
    }
  }

  /** The liveness segment a stream's output carries covers every body. */
  lemma OutputAlive(codec: Codec, segments: seq<Segment>, alive: Option<Segment>, later: seq<Segment>)
    requires Lawful(codec) && SameRows(later, segments) && Bounded(segments, alive)
    requires alive.Some? ==> codec.labelOf(alive.value.ipc) == ALIVE && alive.value.rows == codec.rows(alive.value.ipc)
    ensures var a := Output(codec, Writer(segments, alive))[|segments|];
      && codec.labelOf(a) == ALIVE
      && Bounded(later, Some(Segment(ALIVE, codec.rows(a), a))) && Bounded(later, alive)
      && Output(codec, Writer(later, alive)) == Streams(later) + [a]
      && Output(codec, Writer(later, Some(Segment(ALIVE, codec.rows(a), a)))) == Streams(later) + [a]
  {
    SameRowsSameMax(later, segments);
    MaxRowsBounds(later);
  }

  /** A written stream through a processor for one component: that component is replaced in it. */
  lemma OutputRewritten(codec: Codec, w: Writer, d: Decoded)
    requires Lawful(codec) && WellWritten(codec, w)
    requires GoodDecoded(d) && d.spec.name != ALIVE && Encoded(codec, d).Some? && RowsLike(w.segments, Encoded(codec, d).value)
    ensures var solo: Cache := map[d.spec.name := d]; var later := Writer(Replaced(w.segments, Encoded(codec, d).value), w.alive);
      && CacheFits(solo) && WriteAll(codec, NEW_WRITER, Output(codec, w), solo).Success?
      && Output(codec, WriteAll(codec, NEW_WRITER, Output(codec, w), solo).value) == Output(codec, later)
  {
    var solo: Cache, out, e := map[d.spec.name := d], Output(codec, w), Encoded(codec, d).value;
    var a := out[|w.segments|];
    OutputLabels(codec, w);
    assert out == Streams(w.segments) + [a];
    ReplacedRows(w.segments, e);
    OutputAlive(codec, w.segments, w.alive, Replaced(w.segments, e));
    RewrittenBodies(codec, w.segments, a, d);
    WriteAllCloses(codec, NEW_WRITER, out, solo);
    assert [] + Bodies(codec, solo, out) == Bodies(codec, solo, out);
  }

  /** When both caches write the stream, what they write differs in that component alone. */
  lemma {:induction false} BothWritten(codec: Codec, w: Writer, stream: seq<Bytes>, cache: Cache, after: Cache, e: Segment)
    requires Lawful(codec) && GoodCache(cache) && GoodCache(after) && e.name != ALIVE
    requires Writable(codec, cache, stream)
    requires forall j :: 0 <= j < |stream| ==>
      Emitted(codec, after, stream[j]) == Some(Swap(Emitted(codec, cache, stream[j]).value, e))
    requires WriteAll(codec, w, stream, cache).Success?
    requires WriteAll(codec, Writer(Replaced(w.segments, e), w.alive), stream, after).Success?
    ensures var one := WriteAll(codec, w, stream, cache).value;
      WriteAll(codec, Writer(Replaced(w.segments, e), w.alive), stream, after).value
        == Writer(Replaced(one.segments, e), one.alive)
    decreases |stream|
  {
    if stream != [] {
      assert Emitted(codec, after, stream[0]) == Some(Swap(Emitted(codec, cache, stream[0]).value, e));
      WriteOneIs(codec, w, stream[0], cache);
      WriteOneIs(codec, Writer(Replaced(w.segments, e), w.alive), stream[0], after);
      PutSwaps(w.segments, Emitted(codec, cache, stream[0]).value, e);
      WritableCons(codec, cache, stream);
      assert forall j :: 0 <= j < |stream[1..]| ==> stream[1..][j] == stream[j + 1];
      BothWritten(codec, WriteOne(codec, w, stream[0], cache).value, stream[1..], cache, after, e);
    }
  }

  lemma EmitsSwapped(codec: Codec, stream: seq<Bytes>, cache: Cache, d: Decoded)
    requires Lawful(codec) && GoodCache(cache) && GoodDecoded(d) && Writable(codec, cache, stream) && Encoded(codec, d).Some?
    ensures GoodCache(cache[d.spec.name := d])
    ensures forall j :: 0 <= j < |stream| ==>
      Emitted(codec, cache[d.spec.name := d], stream[j])
        == Some(Swap(Emitted(codec, cache, stream[j]).value, Encoded(codec, d).value))
  {
    var after, e := cache[d.spec.name := d], Encoded(codec, d).value;
    forall j | 0 <= j < |stream|
      ensures Emitted(codec, after, stream[j]) == Some(Swap(Emitted(codec, cache, stream[j]).value, e))
    {
      assert Emitted(codec, cache, stream[j]).Some?;
      WriteOneIs(codec, NEW_WRITER, stream[j], cache);
    }
  }

  lemma SharedWritten(codec: Codec, stream: seq<Bytes>, cache: Cache, w: Writer, d: Decoded)
    requires Lawful(codec) && GoodCache(cache) && GoodDecoded(d) && Writable(codec, cache, stream)
    requires Encoded(codec, d).Some? && d.spec.name != ALIVE && WriteAll(codec, NEW_WRITER, stream, cache) == Success(w)
    requires CacheFits(cache[d.spec.name := d]) && WriteAll(codec, NEW_WRITER, stream, cache[d.spec.name := d]).Success?
    ensures WriteAll(codec, NEW_WRITER, stream, cache[d.spec.name := d]).value
      == Writer(Replaced(w.segments, Encoded(codec, d).value), w.alive)
  {
    var e := Encoded(codec, d).value;
    EmitsSwapped(codec, stream, cache, d);
    assert Writer(Replaced(NEW_WRITER.segments, e), NEW_WRITER.alive) == NEW_WRITER;
    BothWritten(codec, NEW_WRITER, stream, cache, cache[d.spec.name := d], e);
  }

  lemma UniqueRows(codec: Codec, w: Writer, e: Segment)
    requires WellWritten(codec, w) && Lookup(w.segments, e.name).Some? && Lookup(w.segments, e.name).value.rows == e.rows
    ensures RowsLike(w.segments, e)
  {
  }

  // ---------- the liveness segment last ----------

  /** With the liveness segment last, body `j` is segment `j`. */
  lemma {:induction false} BodiesInPlace(codec: Codec, cache: Cache, stream: seq<Bytes>)
    requires Lawful(codec) && GoodCache(cache) && Writable(codec, cache, stream)
    requires stream != [] && codec.labelOf(stream[|stream| - 1]) == ALIVE && DistinctLabels(codec, stream)
    ensures |Bodies(codec, cache, stream)| == |stream| - 1
    ensures forall j :: 0 <= j < |stream| - 1 ==>
      codec.labelOf(stream[j]) != ALIVE
        && Bodies(codec, cache, stream)[j] == Emitted(codec, cache, stream[j]).value
    ensures AliveOf(codec, stream).Some? && AliveOf(codec, stream).value.ipc == stream[|stream| - 1]
    decreases |stream|
  {
    if |stream| > 1 {
      assert forall j :: 0 <= j < |stream[1..]| ==> stream[1..][j] == stream[j + 1];
      BodiesInPlace(codec, cache, stream[1..]);
      EmittedShaped(codec, cache, stream[0]);
    } else {
      assert Bodies(codec, cache, stream[1..]) == [];
    }
  }
}
