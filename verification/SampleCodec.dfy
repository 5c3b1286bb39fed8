/**
  A small codec that keeps every law assumed of the real one, and batches on which
  the shared-cache executor and the chain of single-system processors part ways.

  A component segment is a tag, the length of its name, the name, and one byte per
  row of its one Boolean field; a liveness segment is a tag and one byte per row.
*/
module SampleCodec {
  import opened Wrappers
  import opened ByteStrings
  import opened Components
  import opened Columns
  import opened Processor
  import opened StreamWriter
  import opened FusedExecution

  const SAMPLE := Codec(LabelOf, RowsOf, Read, Encode, Alive)

  predicate Named(ipc: Bytes) {
    |ipc| >= 2 && ipc[0] == 2 && 2 + ipc[1] <= |ipc|
  }

  predicate Liveness(ipc: Bytes) {
    ipc != [] && ipc[0] == 1
  }

  function LabelOf(ipc: Bytes): Bytes {
    if Liveness(ipc) then ALIVE else if Named(ipc) then ipc[2..2 + ipc[1]] else []
  }

  function RowsOf(ipc: Bytes): nat {
    if Liveness(ipc) then |ipc| - 1 else if Named(ipc) then |ipc| - 2 - ipc[1] else 0
  }

  function Read(ipc: Bytes, f: Field): Option<seq<Cell>> {
    if Named(ipc) && f.ty.Boolean? then
      Some(seq(RowsOf(ipc), i requires 0 <= i < RowsOf(ipc) => BoolCell(ipc[2 + ipc[1] + i] == 1)))
    else None
  }

  predicate Flags(values: seq<Cell>) {
    forall i :: 0 <= i < |values| ==> values[i].BoolCell?
  }

  function FlagBytes(values: seq<Cell>): (s: Bytes)
    requires Flags(values)
    ensures |s| == |values| && forall i :: 0 <= i < |s| ==> s[i] == if values[i].flag then 1 else 0
  {
    seq(|values|, i requires 0 <= i < |values| => if values[i].flag then 1 else 0)
  }

  function Encode(spec: Component, columns: seq<Column>): Option<Bytes> {
    if 0 < |spec.name| < 256 && spec.name != ALIVE && |columns| == 1
       && columns[0].field.ty.Boolean? && Flags(columns[0].values)
    then Some([2, |spec.name|] + spec.name + FlagBytes(columns[0].values))
    else None
  }

  function Alive(n: nat): Bytes {
    [1] + seq(n, i => 0)
  }

  lemma SampleReadsBack(spec: Component, columns: seq<Column>)
    ensures ReadsBack(SAMPLE, spec, columns)
  {
    if Encode(spec, columns).Some? {
      var values := columns[0].values;
      var ipc := Encode(spec, columns).value;
      assert ipc[0] == 2 && ipc[1] == |spec.name|;
      assert ipc[2..2 + |spec.name|] == spec.name;
      assert forall i :: 0 <= i < |values| ==> ipc[2 + |spec.name| + i] == FlagBytes(values)[i];
      assert Read(ipc, columns[0].field).value == values;
    }
  }

  lemma SampleIsLawful()
    ensures Lawful(SAMPLE)
  {
    forall spec, columns ensures ReadsBack(SAMPLE, spec, columns) {
      SampleReadsBack(spec, columns);
    }
  }

  // ---------- systems that negate a flag ----------

  const LIVE: Bytes := [1, 0]

  function Spec(n: Byte): Component {
    Component([n], SCHEMA_VERSION, [Field([102], Boolean)])
  }

  function Negated(row: Row): Option<Row> {
    if |row| == 1 && row[0].BoolCell? then Some([BoolCell(!row[0].flag)]) else None
  }

  /** A system that negates the field of component `n`, through one Go row type or another. */
  function Negate(n: Byte, rowType: nat): System {
    System("negate", rowType, Spec(n), Negated)
  }

  function FlagSegment(n: Byte, flag: bool): Bytes {
    [2, 1, n, if flag then 1 else 0]
  }

  function FlagDecoded(n: Byte, rowType: nat, flag: bool): Decoded {
    Decoded(rowType, Spec(n), [[BoolCell(flag)]])
  }

  lemma FlagLabels(n: Byte, flag: bool)
    ensures LabelOf(FlagSegment(n, flag)) == [n] && RowsOf(FlagSegment(n, flag)) == 1
    ensures LabelOf(LIVE) == ALIVE && RowsOf(LIVE) == 1 && [n] != ALIVE
  {
    assert FlagSegment(n, flag)[2..3] == [n];
  }

  lemma Decodes(n: Byte, flag: bool)
    ensures DecodeRows(SAMPLE, FlagSegment(n, flag), Spec(n).fields) == Some([[BoolCell(flag)]])
  {
    FlagLabels(n, flag);
    var ipc, fields := FlagSegment(n, flag), Spec(n).fields;
    assert Read(ipc, fields[0]).value == [BoolCell(flag)];
    assert Readable(SAMPLE, ipc, fields);
    assert RowAt(SAMPLE, ipc, fields, 0) == [BoolCell(flag)];
    assert DecodeRows(SAMPLE, ipc, fields).value == [[BoolCell(flag)]];
  }

  lemma Encodes(n: Byte, flag: bool)
    ensures Encode(Spec(n), ColumnsOf([[BoolCell(flag)]], Spec(n).fields)) == Some(FlagSegment(n, flag))
  {
    var rows: seq<Row>, fields := [[BoolCell(flag)]], Spec(n).fields;
    assert ColumnOf(rows, fields, 0).values == [BoolCell(flag)];
    assert ColumnsOf(rows, fields) == [Column(fields[0], [BoolCell(flag)])];
    assert FlagBytes([BoolCell(flag)]) == [if flag then 1 else 0];
    assert [2, 1] + [n] + [if flag then 1 else 0] == FlagSegment(n, flag);
  }

  lemma NegatesFlag(flag: bool)
    ensures TransformRows(Negated, [[BoolCell(flag)]]) == Some([[BoolCell(!flag)]])
  {
    var rows: seq<Row>, none: seq<Row> := [[BoolCell(flag)]], [];
    assert Negated(rows[0]) == Some([BoolCell(!flag)]);
    assert rows[1..] == [] && TransformRows(Negated, rows[1..]) == Some([]);
    assert [[BoolCell(!flag)]] + none == [[BoolCell(!flag)]];
  }

  /** A system whose component is not cached yet works on the first copy of it. */
  lemma RunsOnFirst(stream: seq<Bytes>, n: Byte, rowType: nat, flag: bool, cache: Cache)
    requires [n] !in cache
    requires Find(SAMPLE, stream, [n]) < |stream| && stream[Find(SAMPLE, stream, [n])] == FlagSegment(n, flag)
    ensures RunSystem(SAMPLE, stream, Negate(n, rowType), cache) == Success(cache[[n] := FlagDecoded(n, rowType, !flag)])
  {
    Decodes(n, flag);
    NegatesFlag(flag);
  }

  /** What a cache of flags makes of a segment of component `n`. */
  function Kept(cache: Cache, n: Byte, flag: bool): bool {
    if [n] in cache && cache[[n]].rows != [] && cache[[n]].rows[0] != [] && cache[[n]].rows[0][0].BoolCell?
    then cache[[n]].rows[0][0].flag else flag
  }

  ghost predicate FlagCache(cache: Cache) {
    forall name :: name in cache ==> exists n, rowType, flag ::
      name == [n] && cache[name] == FlagDecoded(n, rowType, flag)
  }

  lemma WritesFlag(w: Writer, n: Byte, flag: bool, cache: Cache)
    requires FlagCache(cache) && CacheFits(cache) && (w.alive.Some? ==> w.alive.value.rows == 1)
    ensures WriteOne(SAMPLE, w, FlagSegment(n, flag), cache)
      == Success(w.(segments := Put(w.segments, Segment([n], 1, FlagSegment(n, Kept(cache, n, flag))))))
  {
    FlagLabels(n, flag);
    if [n] in cache {
      var m, rowType, v :| [n] == [m] && cache[[n]] == FlagDecoded(m, rowType, v);
      assert m == [m][0] == n;
      Encodes(n, v);
    }
  }

  lemma WritesLive(w: Writer, cache: Cache)
    requires FlagCache(cache) && CacheFits(cache) && forall i :: 0 <= i < |w.segments| ==> w.segments[i].rows == 1
    ensures WriteOne(SAMPLE, w, LIVE, cache) == Success(w.(alive := Some(Segment(ALIVE, 1, LIVE))))
  {
    assert ALIVE !in cache;
  }

  lemma WritesNext(w: Writer, first: Bytes, rest: seq<Bytes>, cache: Cache)
    requires CacheFits(cache) && WriteOne(SAMPLE, w, first, cache).Success?
    ensures WriteAll(SAMPLE, w, [first] + rest, cache)
      == WriteAll(SAMPLE, WriteOne(SAMPLE, w, first, cache).value, rest, cache)
    ensures WriteAll(SAMPLE, w, [first], cache) == WriteOne(SAMPLE, w, first, cache)
  {
    assert ([first] + rest)[1..] == rest;
    assert WriteAll(SAMPLE, WriteOne(SAMPLE, w, first, cache).value, [first][1..], cache) == WriteOne(SAMPLE, w, first, cache);
  }

  lemma NegateIsWellFormed(n: Byte, rowType: nat)
    ensures WellFormed(Negate(n, rowType)) && AllWellFormed([Negate(n, rowType)]) && OneSchemaPerName([Negate(n, rowType)])
  {
  }

  lemma OneCached(n: Byte, rowType: nat, flag: bool)
    ensures var cache: Cache := map[[n] := FlagDecoded(n, rowType, flag)];
      FlagCache(cache) && CacheFits(cache) && Kept(cache, n, false) == Kept(cache, n, true) == flag
  {
  }

  /** One processor, one system: its component is negated and the writer's output is the batch's. */
  lemma OneRuns(stream: seq<Bytes>, n: Byte, rowType: nat, flag: bool, w: Writer)
    requires Find(SAMPLE, stream, [n]) < |stream| && stream[Find(SAMPLE, stream, [n])] == FlagSegment(n, flag)
    requires CacheFits(map[[n] := FlagDecoded(n, rowType, !flag)])
    requires WriteAll(SAMPLE, NEW_WRITER, stream, map[[n] := FlagDecoded(n, rowType, !flag)]) == Success(w)
    ensures Lawful(SAMPLE) && AllWellFormed([Negate(n, rowType)]) && OneSchemaPerName([Negate(n, rowType)])
    ensures RunBatch(SAMPLE, [Negate(n, rowType)], stream) == Success(Output(SAMPLE, w))
  {
    SampleIsLawful();
    NegateIsWellFormed(n, rowType);
    RunsOnFirst(stream, n, rowType, flag, map[]);
    RunSystemsSplit(SAMPLE, stream, [], Negate(n, rowType));
    BatchIs(SAMPLE, [Negate(n, rowType)], stream, map[[n] := FlagDecoded(n, rowType, !flag)]);
  }

  // ---------- one component, two row types ----------

  /** One row with the flag, and the liveness segment. */
  function Stream(flag: bool): seq<Bytes> {
    [FlagSegment(65, flag), LIVE]
  }

  lemma StreamWrites(flag: bool, cache: Cache)
    requires FlagCache(cache) && CacheFits(cache)
    ensures WriteAll(SAMPLE, NEW_WRITER, Stream(flag), cache)
      == Success(Solo(Kept(cache, 65, flag)))
  {
    var stream := Stream(flag);
    var w1 := Writer([Segment([65], 1, FlagSegment(65, Kept(cache, 65, flag)))], None);
    WritesFlag(NEW_WRITER, 65, flag, cache);
    WritesLive(w1, cache);
    assert stream == [stream[0]] + [LIVE];
    WritesNext(NEW_WRITER, stream[0], [LIVE], cache);
    WritesNext(w1, LIVE, [], cache);
  }

  function Solo(flag: bool): Writer {
    Writer([Segment([65], 1, FlagSegment(65, flag))], Some(Segment(ALIVE, 1, LIVE)))
  }

  lemma SoloOutput(flag: bool)
    ensures Output(SAMPLE, Solo(flag)) == Stream(flag)
  {
    assert Streams([Segment([65], 1, FlagSegment(65, flag))]) == [FlagSegment(65, flag)];
  }

  /** One negating processor turns the stream with a flag into the stream with the other. */
  lemma OneNegates(rowType: nat, flag: bool)
    ensures Lawful(SAMPLE) && AllWellFormed([Negate(65, rowType)]) && OneSchemaPerName([Negate(65, rowType)])
    ensures RunBatch(SAMPLE, [Negate(65, rowType)], Stream(flag)) == Success(Stream(!flag))
  {
    FlagLabels(65, flag);
    OneCached(65, rowType, !flag);
    StreamWrites(flag, map[[65] := FlagDecoded(65, rowType, !flag)]);
    OneRuns(Stream(flag), 65, rowType, flag, Solo(!flag));
    SoloOutput(!flag);
  }

  lemma TwoSystems(n: Byte, rowType: nat, m: Byte, other: nat)
    ensures AllWellFormed([Negate(n, rowType), Negate(m, other)]) && OneSchemaPerName([Negate(n, rowType), Negate(m, other)])
    ensures RowTypesAgree([Negate(n, rowType), Negate(m, other)]) <==> n != m || rowType == other
  {
    NegateIsWellFormed(n, rowType);
    NegateIsWellFormed(m, other);
    var systems := [Negate(n, rowType), Negate(m, other)];
    assert systems[0].spec.name == [n] && systems[1].spec.name == [m];
    assert [n][0] == n && [m][0] == m;
  }

  lemma StreamDistinct(flag: bool)
    ensures DistinctLabels(SAMPLE, Stream(flag))
  {
    FlagLabels(65, flag);
  }

  /**
    Two systems on one component through two Go row types: run one processor each
    they succeed, run over one cache they fail.
  */
  lemma TwoRowTypesPartWays(flag: bool)
    ensures
      var systems := [Negate(65, 0), Negate(65, 1)];
      && Lawful(SAMPLE) && AllWellFormed(systems) && OneSchemaPerName(systems) && DistinctLabels(SAMPLE, Stream(flag))
      && Chain(SAMPLE, systems, Stream(flag)) == Success(Stream(flag))
      && RunBatch(SAMPLE, systems, Stream(flag)).Failure?
  {
    var first, second := Negate(65, 0), Negate(65, 1);
    TwoSystems(65, 0, 65, 1);
    StreamDistinct(flag);
    OneNegates(0, flag);
    OneNegates(1, !flag);
    TwoLinks(first, second, Stream(flag));
    DistinctIsSettled(SAMPLE, [first, second], Stream(flag));
    FusedEqualsChained(SAMPLE, [first, second], Stream(flag));
  }

  /** A chain of two. */
  lemma TwoLinks(first: System, second: System, stream: seq<Bytes>)
    requires Lawful(SAMPLE) && AllWellFormed([first, second]) && OneSchemaPerName([first, second])
    requires AllWellFormed([first]) && OneSchemaPerName([first]) && AllWellFormed([second]) && OneSchemaPerName([second])
    requires RunBatch(SAMPLE, [first], stream).Success?
    ensures Chain(SAMPLE, [first, second], stream) == RunBatch(SAMPLE, [second], RunBatch(SAMPLE, [first], stream).value)
  {
    assert [first] + [second] == [first, second] && [] + [first] == [first];
    ChainLast(SAMPLE, [], first, stream);
    ChainLast(SAMPLE, [first], second, stream);
  }

  // ---------- a repeated name ----------

  /** Two copies of one component, one of another, and the liveness segment. */
  function Repeated(a: bool, b: bool, c: bool): seq<Bytes> {
    [FlagSegment(65, a), FlagSegment(65, b), FlagSegment(66, c), LIVE]
  }

  function Single(b: bool, c: bool): seq<Bytes> {
    [FlagSegment(65, b), FlagSegment(66, c), LIVE]
  }

  /** The writer's content for either stream. */
  function Pair(a: bool, b: bool): Writer {
    Writer([Segment([65], 1, FlagSegment(65, a)), Segment([66], 1, FlagSegment(66, b))], Some(Segment(ALIVE, 1, LIVE)))
  }

  lemma PairOutput(a: bool, b: bool)
    ensures Output(SAMPLE, Pair(a, b)) == Single(a, b)
  {
    var later := Pair(a, b).segments[1..];
    assert Streams(later) == [FlagSegment(66, b)];
  }

  lemma SingleWrites(b: bool, c: bool, w: Writer, cache: Cache)
    requires FlagCache(cache) && CacheFits(cache)
    requires w == NEW_WRITER || exists x: bool :: w == Writer([Segment([65], 1, FlagSegment(65, x))], None)
    ensures WriteAll(SAMPLE, w, Single(b, c), cache) == Success(Pair(Kept(cache, 65, b), Kept(cache, 66, c)))
  {
    var s := Single(b, c);
    var x := Segment([65], 1, FlagSegment(65, Kept(cache, 65, b)));
    var y := Segment([66], 1, FlagSegment(66, Kept(cache, 66, c)));
    WritesFlag(w, 65, b, cache);
    assert Put(w.segments, x) == [x];
    WritesFlag(Writer([x], None), 66, c, cache);
    assert [66][0] != [65][0] && [x][1..] == [] && Put([], y) == [y];
    assert Put([x], y) == [x] + [y] == [x, y];
    WritesLive(Writer([x, y], None), cache);
    assert s == [s[0]] + ([s[1]] + [LIVE]);
    WritesNext(w, s[0], [s[1]] + [LIVE], cache);
    WritesNext(Writer([x], None), s[1], [LIVE], cache);
    WritesNext(Writer([x, y], None), LIVE, [], cache);
  }

  lemma RepeatedWrites(a: bool, b: bool, c: bool, cache: Cache)
    requires FlagCache(cache) && CacheFits(cache)
    ensures WriteAll(SAMPLE, NEW_WRITER, Repeated(a, b, c), cache) == Success(Pair(Kept(cache, 65, b), Kept(cache, 66, c)))
  {
    var x := Segment([65], 1, FlagSegment(65, Kept(cache, 65, a)));
    WritesFlag(NEW_WRITER, 65, a, cache);
    assert Repeated(a, b, c) == [FlagSegment(65, a)] + Single(b, c);
    WritesNext(NEW_WRITER, FlagSegment(65, a), Single(b, c), cache);
    SingleWrites(b, c, Writer([x], None), cache);
  }

  lemma RepeatedFinds(a: bool, b: bool, c: bool)
    ensures Find(SAMPLE, Repeated(a, b, c), [65]) == 0 && Find(SAMPLE, Repeated(a, b, c), [66]) == 2
    ensures Find(SAMPLE, Single(b, c), [65]) == 0
  {
    FlagLabels(65, a);
    FlagLabels(65, b);
    FlagLabels(66, c);
    assert [65][0] != [66][0];
    var s := Repeated(a, b, c);
    assert SAMPLE.labelOf(s[0]) == SAMPLE.labelOf(s[1]) == [65] && SAMPLE.labelOf(s[2]) == [66];
  }

  lemma TwoCached(a: bool, b: bool)
    ensures var cache: Cache := map[[66] := FlagDecoded(66, 0, b)][[65] := FlagDecoded(65, 0, a)];
      && FlagCache(cache) && CacheFits(cache)
      && (forall x :: Kept(cache, 65, x) == a) && (forall x :: Kept(cache, 66, x) == b)
  {
    assert [65][0] != [66][0];
  }

  /** Over one cache the first copy is negated and written. */
  lemma RepeatedFused(a: bool, b: bool, c: bool)
    ensures var systems := [Negate(66, 0), Negate(65, 0)];
      && Lawful(SAMPLE) && AllWellFormed(systems) && OneSchemaPerName(systems)
      && RunBatch(SAMPLE, systems, Repeated(a, b, c)) == Success(Single(!a, !c))
  {
    var first, second, stream := Negate(66, 0), Negate(65, 0), Repeated(a, b, c);
    var one: Cache := map[[66] := FlagDecoded(66, 0, !c)];
    var both := one[[65] := FlagDecoded(65, 0, !a)];
    SampleIsLawful();
    TwoSystems(66, 0, 65, 0);
    RepeatedFinds(a, b, c);
    RunsOnFirst(stream, 66, 0, c, map[]);
    assert [65][0] != [66][0];
    RunsOnFirst(stream, 65, 0, a, one);
    assert [] + [first] == [first] && [first] + [second] == [first, second];
    RunSystemsSplit(SAMPLE, stream, [], first);
    RunSystemsSplit(SAMPLE, stream, [first], second);
    TwoCached(!a, !c);
    RepeatedWrites(a, b, c, both);
    BatchIs(SAMPLE, [first, second], stream, both);
    PairOutput(!a, !c);
  }

  /** One processor per system: the first writes the last copy, which the second negates. */
  lemma RepeatedChained(a: bool, b: bool, c: bool)
    ensures var systems := [Negate(66, 0), Negate(65, 0)];
      && Lawful(SAMPLE) && AllWellFormed(systems) && OneSchemaPerName(systems)
      && Chain(SAMPLE, systems, Repeated(a, b, c)) == Success(Single(!b, !c))
  {
    var first, second, stream := Negate(66, 0), Negate(65, 0), Repeated(a, b, c);
    TwoSystems(66, 0, 65, 0);
    RepeatedFinds(a, b, c);
    RepeatedFinds(b, b, !c);
    assert [65][0] != [66][0];
    OneCached(66, 0, !c);
    RepeatedWrites(a, b, c, map[[66] := FlagDecoded(66, 0, !c)]);
    OneRuns(stream, 66, 0, c, Pair(b, !c));
    PairOutput(b, !c);
    OneCached(65, 0, !b);
    SingleWrites(b, !c, NEW_WRITER, map[[65] := FlagDecoded(65, 0, !b)]);
    OneRuns(Single(b, !c), 65, 0, b, Pair(!b, !c));
    PairOutput(!b, !c);
    TwoLinks(first, second, stream);
  }

  /**
    With a repeated name both ways succeed, and agree exactly when its first copy
    and its last are the same.
  */
  lemma RepeatedNamePartsWays(a: bool, b: bool, c: bool)
    ensures var systems := [Negate(66, 0), Negate(65, 0)];
      && Lawful(SAMPLE) && AllWellFormed(systems) && OneSchemaPerName(systems) && RowTypesAgree(systems)
      && RunBatch(SAMPLE, systems, Repeated(a, b, c)).Success? && Chain(SAMPLE, systems, Repeated(a, b, c)).Success?
      && (RunBatch(SAMPLE, systems, Repeated(a, b, c)) == Chain(SAMPLE, systems, Repeated(a, b, c)) <==> a == b)
  {
    TwoSystems(66, 0, 65, 0);
    RepeatedFused(a, b, c);
    RepeatedChained(a, b, c);
    assert Single(!a, !c)[0][3] == (if a then 0 else 1) && Single(!b, !c)[0][3] == (if b then 0 else 1);
  }

  // ---------- the liveness segment first ----------

  /** A batch that succeeds and reorders its segments: the liveness segment moves to the end. */
  lemma LivenessMoves(flag: bool)
    ensures var systems, stream := [Negate(65, 0)], [LIVE, FlagSegment(65, flag)];
      && Lawful(SAMPLE) && AllWellFormed(systems) && OneSchemaPerName(systems) && DistinctLabels(SAMPLE, stream)
      && RunBatch(SAMPLE, systems, stream) == Success(Stream(!flag))
      && Labels(SAMPLE, Stream(!flag)) != Labels(SAMPLE, stream)
  {
    var stream := [LIVE, FlagSegment(65, flag)];
    FlagLabels(65, flag);
    FlagLabels(65, !flag);
    OneCached(65, 0, !flag);
    LiveFirstWrites(flag, map[[65] := FlagDecoded(65, 0, !flag)]);
    assert Find(SAMPLE, stream, [65]) == 1;
    OneRuns(stream, 65, 0, flag, Solo(!flag));
    SoloOutput(!flag);
    assert Labels(SAMPLE, Stream(!flag))[0] == [65] && Labels(SAMPLE, stream)[0] == ALIVE;
  }

  lemma LiveFirstWrites(flag: bool, cache: Cache)
    requires FlagCache(cache) && CacheFits(cache)
    ensures WriteAll(SAMPLE, NEW_WRITER, [LIVE, FlagSegment(65, flag)], cache) == Success(Solo(Kept(cache, 65, flag)))
  {
    var live := Writer([], Some(Segment(ALIVE, 1, LIVE)));
    WritesLive(NEW_WRITER, cache);
    WritesFlag(live, 65, flag, cache);
    assert [LIVE, FlagSegment(65, flag)] == [LIVE] + [FlagSegment(65, flag)];
    WritesNext(NEW_WRITER, LIVE, [FlagSegment(65, flag)], cache);
    WritesNext(live, FlagSegment(65, flag), [], cache);
  }
}
