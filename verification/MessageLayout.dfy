/**
  A writer of segments, after the encapsulated message format of Arrow IPC and the
  table layout of flatbuffers, and what the message parser makes of them.

  A table may stand anywhere in the metadata, with its vtable before it, any
  padding around them, and any fields left out of the vtable.
*/
module MessageLayout {
  import opened Wrappers
  import opened ByteStrings
  import opened Messages
  import opened Sequences

  /** Metadata with `gap` before the vtable, `between` before the table, and `rest` after its fields. */
  datatype Layout = Layout(gap: Bytes, slots: seq<nat>, between: Bytes, fields: Bytes, rest: Bytes)

  /** Padding after the body may be any bytes. */
  datatype Part = EndOfStream | Piece(layout: Layout, headerType: Byte, body: Bytes, padding: Bytes)

  function SlotBytes(slots: seq<nat>): (s: Bytes)
    ensures |s| == 2 * |slots|
  {
    if slots == [] then [] else SlotBytes(slots[..|slots| - 1]) + LowBytes(slots[|slots| - 1], 2)
  }

  function VtableBytes(l: Layout): (s: Bytes)
    ensures |s| == 4 + 2 * |l.slots|
  {
    LowBytes(4 + 2 * |l.slots|, 2) + LowBytes(4 + |l.fields|, 2) + SlotBytes(l.slots)
  }

  /** Where the vtable and the table start in the metadata. */
  function VtablePlace(l: Layout): nat { 4 + |l.gap| }

  function TablePlace(l: Layout): nat { 4 + |l.gap| + 4 + 2 * |l.slots| + |l.between| }

  function FrontBytes(l: Layout): (s: Bytes)
    ensures |s| == TablePlace(l)
  {
    LowBytes(TablePlace(l), 4) + l.gap + VtableBytes(l) + l.between
  }

  function TableBytes(l: Layout): Bytes {
    LowBytes(TablePlace(l) - VtablePlace(l), 4) + l.fields + l.rest
  }

  function Metadata(l: Layout): Bytes {
    FrontBytes(l) + TableBytes(l)
  }

  /** The table carries these values: field 1 a byte, field 3 a 64-bit length, each zero when left out. */
  ghost predicate Carries(l: Layout, headerType: Byte, length: nat) {
    CarriesHeader(l, headerType) && CarriesLength(l, length)
  }

  predicate CarriesHeader(l: Layout, headerType: Byte) {
    if |l.slots| > 1 && l.slots[1] != 0
    then 4 <= l.slots[1] < 4 + |l.fields| && l.fields[l.slots[1] - 4] == headerType
    else headerType == 0
  }

  predicate CarriesLength(l: Layout, length: nat) {
    if |l.slots| > 3 && l.slots[3] != 0
    then 4 <= l.slots[3] && Holds(l.fields, l.slots[3] - 4, LowBytes(length, 8))
    else length == 0
  }

  /** Every number fits the width it is written in. */
  ghost predicate Fits(l: Layout) {
    && (forall i :: 0 <= i < |l.slots| ==> l.slots[i] < 0x1_0000)
    && 4 + 2 * |l.slots| < 0x1_0000 && 4 + |l.fields| < 0x1_0000
    && |Metadata(l)| < 0x8000_0000
  }

  ghost predicate WellLaid(p: Part) {
    p.Piece? ==>
      && Fits(p.layout) && Carries(p.layout, p.headerType, |p.body|)
      && |p.padding| < 8 && (|p.body| + |p.padding|) % 8 == 0
  }

  const MARK: Bytes := [255, 255, 255, 255]

  function Written(p: Part): Bytes {
    match p
    case EndOfStream => MARK + [0, 0, 0, 0]
    case Piece(l, _, body, padding) => MARK + LowBytes(|Metadata(l)|, 4) + Metadata(l) + (body + padding)
  }

  type PartWriter = Part -> Bytes

  /** The parts one after the other, for any way to write one. */
  function WrittenAll(parts: seq<Part>, write: PartWriter): Bytes {
    if parts == [] then [] else write(parts[0]) + WrittenAll(parts[1..], write)
  }

  /** What has to be found: each piece at its place, its table, and the end of its padded body. */
  function Contents(parts: seq<Part>, pos: nat, write: PartWriter): seq<Message> {
    if parts == [] then []
    else
      var end := pos + |write(parts[0])|;
      match parts[0]
      case EndOfStream => Contents(parts[1..], end, write)
      case Piece(l, headerType, body, _) =>
        [Message(pos, |body|, headerType, pos + 8 + TablePlace(l), end)] + Contents(parts[1..], end, write)
  }

  // ---------- pieces of a byte string in place ----------

  predicate Holds(s: Bytes, p: nat, w: Bytes) {
    p + |w| <= |s| && s[p..p + |w|] == w
  }

  lemma HoldsParts(a: Bytes, b: Bytes)
    ensures Holds(a + b, 0, a) && Holds(a + b, |a|, b)
  {
  }

  lemma HoldsWithin(s: Bytes, p: nat, w: Bytes, q: nat, v: Bytes)
    requires Holds(s, p, w) && Holds(w, q, v)
    ensures Holds(s, p + q, v)
  {
    SliceOfSlice(s, p, p + |w|, q, q + |v|);
  }

  lemma SliceOfSlice(s: Bytes, p: nat, n: nat, q: nat, m: nat)
    requires p <= n <= |s| && q <= m <= n - p
    ensures s[p..n][q..m] == s[p + q..p + m]
  {
    forall i | 0 <= i < m - q ensures s[p..n][q..m][i] == s[p + q..p + m][i] {
      assert s[p..n][q + i] == s[p + q + i];
    }
  }

  lemma HoldsWord(s: Bytes, p: nat, n: nat, k: nat)
    requires Holds(s, p, LowBytes(n, k)) && n < Pow256(k)
    ensures Word(s, p, k) == n
  {
    WordReadsBack(n, k);
    WordElsewhere(s, p, LowBytes(n, k), 0, k);
  }

  /** A word of bytes that stand inside others. */
  lemma WordWithin(s: Bytes, p: nat, w: Bytes, q: nat, n: nat, k: nat)
    requires Holds(s, p, w) && Holds(w, q, LowBytes(n, k)) && n < Pow256(k)
    ensures p + q + k <= |s| && Word(s, p + q, k) == n
  {
    HoldsWithin(s, p, w, q, LowBytes(n, k));
    HoldsWord(s, p + q, n, k);
  }

  lemma Powers()
    ensures Pow256(2) == 0x1_0000 && Pow256(4) == 0x1_0000_0000 && Pow256(8) == 0x1_0000_0000_0000_0000
  {
    PowersOf256();
    assert Pow256(1) == 256;
  }

  lemma {:induction false} HoldsSlot(slots: seq<nat>, i: nat)
    requires i < |slots|
    ensures Holds(SlotBytes(slots), 2 * i, LowBytes(slots[i], 2))
    decreases |slots|
  {
    var init := slots[..|slots| - 1];
    HoldsParts(SlotBytes(init), LowBytes(slots[|slots| - 1], 2));
    if i < |init| {
      HoldsSlot(init, i);
      HoldsWithin(SlotBytes(slots), 0, SlotBytes(init), 2 * i, LowBytes(slots[i], 2));
    }
  }

  // ---------- reading the metadata ----------

  /** The places of the words the parser follows, from the start of the metadata. */
  lemma MetadataHolds(l: Layout)
    ensures Holds(Metadata(l), 0, LowBytes(TablePlace(l), 4))
    ensures Holds(Metadata(l), VtablePlace(l), VtableBytes(l))
    ensures Holds(Metadata(l), TablePlace(l), LowBytes(TablePlace(l) - VtablePlace(l), 4))
    ensures Holds(Metadata(l), TablePlace(l) + 4, l.fields)
  {
    var root, back := LowBytes(TablePlace(l), 4), LowBytes(TablePlace(l) - VtablePlace(l), 4);
    HoldsParts(FrontBytes(l), TableBytes(l));
    HoldsParts(root + l.gap + VtableBytes(l), l.between);
    HoldsParts(root + l.gap, VtableBytes(l));
    HoldsParts(root, l.gap);
    HoldsWithin(FrontBytes(l), 0, root + l.gap + VtableBytes(l), 0, root + l.gap);
    HoldsWithin(FrontBytes(l), 0, root + l.gap, 0, root);
    HoldsWithin(Metadata(l), 0, FrontBytes(l), 0, root);
    HoldsWithin(FrontBytes(l), 0, root + l.gap + VtableBytes(l), VtablePlace(l), VtableBytes(l));
    HoldsWithin(Metadata(l), 0, FrontBytes(l), VtablePlace(l), VtableBytes(l));
    HoldsParts(back + l.fields, l.rest);
    HoldsParts(back, l.fields);
    HoldsWithin(TableBytes(l), 0, back + l.fields, 0, back);
    HoldsWithin(TableBytes(l), 0, back + l.fields, 4, l.fields);
    HoldsWithin(Metadata(l), TablePlace(l), TableBytes(l), 0, back);
    HoldsWithin(Metadata(l), TablePlace(l), TableBytes(l), 4, l.fields);
  }

  lemma VtableHolds(l: Layout)
    ensures Holds(VtableBytes(l), 0, LowBytes(4 + 2 * |l.slots|, 2))
    ensures Holds(VtableBytes(l), 4, SlotBytes(l.slots))
  {
    var a, b := LowBytes(4 + 2 * |l.slots|, 2), LowBytes(4 + |l.fields|, 2);
    HoldsParts(a + b, SlotBytes(l.slots));
    HoldsParts(a, b);
    HoldsWithin(VtableBytes(l), 0, a + b, 0, a);
  }

  lemma RootReads(seg: Bytes, at: nat, l: Layout)
    requires Holds(seg, at, Metadata(l)) && Fits(l)
    ensures I32At(seg, at) == Some(TablePlace(l))
  {
    MetadataHolds(l);
    Powers();
    WordWithin(seg, at, Metadata(l), 0, TablePlace(l), 4);
  }

  lemma BackReads(seg: Bytes, at: nat, l: Layout)
    requires Holds(seg, at, Metadata(l)) && Fits(l)
    ensures I32At(seg, at + TablePlace(l)) == Some(TablePlace(l) - VtablePlace(l))
  {
    MetadataHolds(l);
    Powers();
    WordWithin(seg, at, Metadata(l), TablePlace(l), TablePlace(l) - VtablePlace(l), 4);
  }

  lemma VtableInPlace(seg: Bytes, at: nat, l: Layout)
    requires Holds(seg, at, Metadata(l))
    ensures Holds(seg, at + VtablePlace(l), VtableBytes(l))
  {
    MetadataHolds(l);
    HoldsWithin(seg, at, Metadata(l), VtablePlace(l), VtableBytes(l));
  }

  lemma VtableLengthReads(seg: Bytes, vt: nat, l: Layout)
    requires Holds(seg, vt, VtableBytes(l)) && Fits(l)
    ensures U16At(seg, vt) == Some(4 + 2 * |l.slots|)
  {
    VtableHolds(l);
    Powers();
    WordWithin(seg, vt, VtableBytes(l), 0, 4 + 2 * |l.slots|, 2);
  }

  lemma SlotReads(seg: Bytes, vt: nat, l: Layout, id: nat)
    requires Holds(seg, vt, VtableBytes(l)) && Fits(l) && id < |l.slots|
    ensures U16At(seg, vt + (4 + id * 2)) == Some(l.slots[id])
  {
    VtableHolds(l);
    Powers();
    HoldsSlot(l.slots, id);
    HoldsWithin(VtableBytes(l), 4, SlotBytes(l.slots), 2 * id, LowBytes(l.slots[id], 2));
    WordWithin(seg, vt, VtableBytes(l), 4 + 2 * id, l.slots[id], 2);
  }

  /** Metadata standing at `at`: its table is found, and each of the vtable's slots. */
  lemma FindsTable(seg: Bytes, at: nat, root: nat, back: nat, table: nat, vt: nat)
    requires table == at + root && vt + back == table && |seg| < TWO64 / 2
    requires I32At(seg, at) == Some(root) && I32At(seg, table) == Some(back)
    ensures RootTable(seg, at) == Some(table) && Vtable(seg, table) == Some(vt)
  {
  }

  lemma FieldOf(seg: Bytes, table: nat, vt: nat, length: nat, slot: Option<nat>, id: nat, field: Option<nat>)
    requires Vtable(seg, table) == Some(vt) && U16At(seg, vt) == Some(length)
    requires slot.None? <==> 4 + id * 2 + 2 > length
    requires slot.Some? ==> U16At(seg, vt + (4 + id * 2)) == slot && table + slot.value < TWO64
    requires field == if slot.Some? && slot.value != 0 then Some(table + slot.value) else None
    ensures FieldAt(seg, table, id) == Some(field)
  {
  }

  function Slot(l: Layout, id: nat): Option<nat> {
    if id < |l.slots| then Some(l.slots[id]) else None
  }

  lemma FindsVtable(seg: Bytes, at: nat, l: Layout, table: nat, vt: nat)
    requires Holds(seg, at, Metadata(l)) && Fits(l) && |seg| < TWO64 / 2
    requires table == at + TablePlace(l) && vt == at + VtablePlace(l)
    ensures RootTable(seg, at) == Some(table) && Vtable(seg, table) == Some(vt)
  {
    RootReads(seg, at, l);
    BackReads(seg, at, l);
    FindsTable(seg, at, TablePlace(l), TablePlace(l) - VtablePlace(l), table, vt);
  }

  lemma FindsField(seg: Bytes, at: nat, l: Layout, id: nat, table: nat)
    requires Holds(seg, at, Metadata(l)) && Fits(l) && |seg| < TWO64 / 2 && table == at + TablePlace(l)
    ensures RootTable(seg, at) == Some(table)
    ensures FieldAt(seg, table, id) == Some(Field(l, id, table))
  {
    var vt := at + VtablePlace(l);
    FindsVtable(seg, at, l, table, vt);
    VtableInPlace(seg, at, l);
    SlotsRead(seg, vt, l, id);
    TableInside(seg, at, l);
    FieldOf(seg, table, vt, 4 + 2 * |l.slots|, Slot(l, id), id, Field(l, id, table));
  }

  lemma SlotsRead(seg: Bytes, vt: nat, l: Layout, id: nat)
    requires Holds(seg, vt, VtableBytes(l)) && Fits(l)
    ensures U16At(seg, vt) == Some(4 + 2 * |l.slots|)
    ensures Slot(l, id).Some? ==> U16At(seg, vt + (4 + id * 2)) == Slot(l, id) && Slot(l, id).value < 0x1_0000
  {
    VtableLengthReads(seg, vt, l);
    if id < |l.slots| {
      SlotReads(seg, vt, l, id);
    }
  }

  lemma TableInside(seg: Bytes, at: nat, l: Layout)
    requires Holds(seg, at, Metadata(l))
    ensures at + TablePlace(l) <= |seg|
  {
  }

  lemma FieldsInPlace(seg: Bytes, at: nat, l: Layout)
    requires Holds(seg, at, Metadata(l))
    ensures Holds(seg, at + TablePlace(l) + 4, l.fields)
  {
    MetadataHolds(l);
    HoldsWithin(seg, at, Metadata(l), TablePlace(l) + 4, l.fields);
  }

  lemma HeaderOf(seg: Bytes, table: nat, field: Option<nat>, header: Byte)
    requires FieldAt(seg, table, 1) == Some(field)
    requires if field.None? then header == 0 else field.value < |seg| && seg[field.value] == header
    ensures HeaderType(seg, table) == Some(header)
  {
  }

  lemma LengthOf(seg: Bytes, table: nat, field: Option<nat>, length: int)
    requires FieldAt(seg, table, 3) == Some(field)
    requires if field.None? then length == 0 else I64At(seg, field.value) == Some(length)
    ensures BodyLength(seg, table) == Some(length)
  {
  }

  /** Where field `id` is, if the vtable has it. */
  function Field(l: Layout, id: nat, table: nat): Option<nat> {
    if Slot(l, id).Some? && Slot(l, id).value != 0 then Some(table + Slot(l, id).value) else None
  }

  lemma HeaderInPlace(seg: Bytes, table: nat, l: Layout, headerType: Byte, f: Option<nat>)
    requires Holds(seg, table + 4, l.fields) && CarriesHeader(l, headerType) && f == Field(l, 1, table)
    ensures if f.None? then headerType == 0 else f.value < |seg| && seg[f.value] == headerType
  {
    if f.Some? {
      ByteWithin(seg, table + 4, l.fields, l.slots[1] - 4);
    }
  }

  lemma LengthInPlace(seg: Bytes, table: nat, l: Layout, length: nat, f: Option<nat>)
    requires Holds(seg, table + 4, l.fields) && CarriesLength(l, length) && length < TWO64 / 2 && f == Field(l, 3, table)
    ensures if f.None? then length == 0 else I64At(seg, f.value) == Some(length)
  {
    if f.Some? {
      LongWithin(seg, table + 4, l.fields, l.slots[3] - 4, length, f.value);
    }
  }

  lemma ByteWithin(s: Bytes, p: nat, w: Bytes, q: nat)
    requires Holds(s, p, w) && q < |w|
    ensures p + q < |s| && s[p + q] == w[q]
  {
    assert s[p..p + |w|][q] == s[p + q];
  }

  lemma LongWithin(s: Bytes, p: nat, w: Bytes, q: nat, n: nat, at: nat)
    requires Holds(s, p, w) && Holds(w, q, LowBytes(n, 8)) && n < TWO64 / 2 && at == p + q
    ensures I64At(s, at) == Some(n)
  {
    Powers();
    WordWithin(s, p, w, q, n, 8);
  }

  // ---------- reading a segment ----------

  /** The aligned length is the least multiple of eight that is not below the length, for either sign. */
  lemma AlignsUp(n: int)
    requires 0 - TWO64 / 2 <= n < TWO64 / 2
    ensures Align8(n).None? <==> n > 0x7FFF_FFFF_FFFF_FFF8
    ensures Align8(n).Some? ==>
      exists m: int :: m % 8 == 0 && n <= m < n + 8 && Align8(n).value == if m < 0 then m + TWO64 else m
  {
    if Align8(n).Some? {
      var m := n + 7 - (n + 7) % 8;
      assert m % 8 == 0 && n <= m < n + 8 && Align8(n).value == if m < 0 then m + TWO64 else m;
    }
  }

  lemma AlignsBody(length: nat, padded: nat)
    requires padded % 8 == 0 && length <= padded < length + 8 && length + 8 < TWO64 / 2
    ensures Align8(length) == Some(padded)
  {
    AlignsUp(length);
    var m: int :| m % 8 == 0 && length <= m < length + 8 && Align8(length).value == if m < 0 then m + TWO64 else m;
    OneMultiple(length, m, padded);
  }

  lemma OneMultiple(n: int, a: int, b: int)
    requires a % 8 == 0 && b % 8 == 0 && n <= a < n + 8 && n <= b < n + 8
    ensures a == b
  {
  }

  lemma MarkReads(seg: Bytes, mp: nat)
    requires Holds(seg, mp, MARK)
    ensures U32At(seg, mp) == Some(CONTINUATION)
  {
    Powers();
    assert LowBytes(0xFFFF_FFFF, 4) == MARK by {
      assert LowBytes(0xFF, 1) == [255] && LowBytes(0xFFFF, 2) == [255, 255] && LowBytes(0xFF_FFFF, 3) == [255, 255, 255];
    }
    HoldsWord(seg, mp, 0xFFFF_FFFF, 4);
  }

  lemma PieceHolds(p: Part)
    requires p.Piece?
    ensures Holds(Written(p), 0, MARK)
    ensures Holds(Written(p), 4, LowBytes(|Metadata(p.layout)|, 4))
    ensures Holds(Written(p), 8, Metadata(p.layout))
    ensures |Written(p)| == 8 + |Metadata(p.layout)| + (|p.body| + |p.padding|)
  {
    var l, size, rest := p.layout, LowBytes(|Metadata(p.layout)|, 4), p.body + p.padding;
    HoldsParts(MARK + size + Metadata(l), rest);
    HoldsParts(MARK + size, Metadata(l));
    HoldsParts(MARK, size);
    HoldsWithin(Written(p), 0, MARK + size + Metadata(l), 8, Metadata(l));
    HoldsWithin(Written(p), 0, MARK + size + Metadata(l), 0, MARK + size);
    HoldsWithin(Written(p), 0, MARK + size, 0, MARK);
    HoldsWithin(Written(p), 0, MARK + size, 4, size);
  }

  /** The words of the frame, and then what the metadata says. */
  lemma ItemOf(seg: Bytes, mp: nat, metadata: nat, table: nat, header: nat, length: int, padded: nat, end: nat)
    requires U32At(seg, mp) == Some(CONTINUATION) && U32At(seg, mp + 4) == Some(metadata) && metadata != 0
    requires RootTable(seg, mp + 8) == Some(table)
    requires HeaderType(seg, table) == Some(header) && BodyLength(seg, table) == Some(length)
    requires 0 <= length < TWO64 / 2 && Align8(length) == Some(padded)
    requires end == mp + 8 + metadata + padded && end < TWO64
    ensures ItemAt(seg, mp) == Some(Carried(Message(mp, length, header, table, end)))
  {
  }

  lemma FrameReads(seg: Bytes, mp: nat, p: Part)
    requires p.Piece? && Fits(p.layout) && Holds(seg, mp, Written(p))
    ensures U32At(seg, mp) == Some(CONTINUATION) && U32At(seg, mp + 4) == Some(|Metadata(p.layout)|)
    ensures Holds(seg, mp + 8, Metadata(p.layout))
  {
    PieceHolds(p);
    Powers();
    HoldsWithin(seg, mp, Written(p), 0, MARK);
    MarkReads(seg, mp);
    WordWithin(seg, mp, Written(p), 4, |Metadata(p.layout)|, 4);
    HoldsWithin(seg, mp, Written(p), 8, Metadata(p.layout));
  }

  lemma MetadataHeader(seg: Bytes, at: nat, table: nat, l: Layout, headerType: Byte)
    requires Holds(seg, at, Metadata(l)) && Fits(l) && |seg| < TWO64 / 2 && CarriesHeader(l, headerType)
    requires table == at + TablePlace(l)
    ensures RootTable(seg, at) == Some(table) && HeaderType(seg, table) == Some(headerType)
  {
    var f := Field(l, 1, table);
    FindsField(seg, at, l, 1, table);
    FieldsInPlace(seg, at, l);
    HeaderInPlace(seg, table, l, headerType, f);
    HeaderOf(seg, table, f, headerType);
  }

  lemma MetadataLength(seg: Bytes, at: nat, table: nat, l: Layout, length: nat)
    requires Holds(seg, at, Metadata(l)) && Fits(l) && |seg| < TWO64 / 2 && CarriesLength(l, length)
    requires length < TWO64 / 2 && table == at + TablePlace(l)
    ensures BodyLength(seg, table) == Some(length)
  {
    var f := Field(l, 3, table);
    FindsField(seg, at, l, 3, table);
    FieldsInPlace(seg, at, l);
    LengthInPlace(seg, table, l, length, f);
    LengthOf(seg, table, f, length);
  }

  lemma PieceFrame(seg: Bytes, mp: nat, p: Part, metadata: nat, padded: nat, end: nat)
    requires p.Piece? && WellLaid(p) && Holds(seg, mp, Written(p)) && |seg| < TWO64 / 2 - 8
    requires metadata == |Metadata(p.layout)| && padded == |p.body| + |p.padding| && end == mp + |Written(p)|
    ensures U32At(seg, mp) == Some(CONTINUATION) && U32At(seg, mp + 4) == Some(metadata) && metadata != 0
    ensures Align8(|p.body|) == Some(padded) && end == mp + 8 + metadata + padded && end <= |seg|
  {
    FrameReads(seg, mp, p);
    PieceHolds(p);
    AlignsBody(|p.body|, padded);
  }

  lemma PieceTable(seg: Bytes, mp: nat, p: Part, table: nat)
    requires p.Piece? && WellLaid(p) && Holds(seg, mp, Written(p)) && |seg| < TWO64 / 2 - 8
    requires table == mp + 8 + TablePlace(p.layout)
    ensures |p.body| < TWO64 / 2 && RootTable(seg, mp + 8) == Some(table)
    ensures HeaderType(seg, table) == Some(p.headerType) && BodyLength(seg, table) == Some(|p.body|)
  {
    FrameReads(seg, mp, p);
    PieceHolds(p);
    MetadataHeader(seg, mp + 8, table, p.layout, p.headerType);
    MetadataLength(seg, mp + 8, table, p.layout, |p.body|);
  }

  /** A written piece standing at `mp` is read as the message it carries. */
  lemma ReadsPiece(seg: Bytes, mp: nat, p: Part, table: nat, metadata: nat, padded: nat, end: nat)
    requires p.Piece? && WellLaid(p) && Holds(seg, mp, Written(p)) && |seg| < TWO64 / 2 - 8
    requires table == mp + 8 + TablePlace(p.layout)
    requires metadata == |Metadata(p.layout)| && padded == |p.body| + |p.padding| && end == mp + |Written(p)|
    ensures ItemAt(seg, mp) == Some(Carried(Message(mp, |p.body|, p.headerType, table, end)))
  {
    PieceFrame(seg, mp, p, metadata, padded, end);
    PieceTable(seg, mp, p, table);
    ItemOf(seg, mp, metadata, table, p.headerType, |p.body|, padded, end);
  }

  lemma ReadsEndOfStream(seg: Bytes, mp: nat)
    requires Holds(seg, mp, Written(EndOfStream))
    ensures ItemAt(seg, mp) == Some(Marker)
  {
    var zero: Bytes := [0, 0, 0, 0];
    HoldsParts(MARK, zero);
    HoldsWithin(seg, mp, Written(EndOfStream), 0, MARK);
    HoldsWithin(seg, mp, Written(EndOfStream), 4, zero);
    MarkReads(seg, mp);
    ZeroIsWritten();
    Powers();
    HoldsWord(seg, mp + 4, 0, 4);
  }

  lemma ZeroIsWritten()
    ensures LowBytes(0, 4) == [0, 0, 0, 0]
  {
    assert LowBytes(0, 2) == [0, 0];
  }

  // ---------- whole segments ----------

  type Reader = nat -> Option<Item>

  /** `item` reads the items of the segment. */
  ghost predicate ReadsSegment(item: Reader, seg: Bytes) {
    forall mp: nat {:trigger ItemAt(seg, mp)} :: item(mp) == ItemAt(seg, mp)
  }

  /** From `mp` on there are these items, one after the other, and then fewer than eight bytes. */
  ghost predicate Reads(item: Reader, size: nat, mp: nat, items: seq<Item>)
    decreases |items|
  {
    if items == [] then mp + 8 > size
    else
      && mp + 8 <= size && item(mp) == Some(items[0])
      && Reads(item, size, if items[0].Marker? then mp + 8 else items[0].message.end, items[1..])
  }

  function MessagesIn(items: seq<Item>): seq<Message> {
    if items == [] then []
    else (if items[0].Marker? then [] else [items[0].message]) + MessagesIn(items[1..])
  }

  lemma {:induction false} ReadsParses(item: Reader, seg: Bytes, mp: nat, items: seq<Item>)
    requires ReadsSegment(item, seg) && Reads(item, |seg|, mp, items) && mp + 8 < TWO64
    requires forall i :: 0 <= i < |items| && items[i].Carried? ==> items[i].message.end + 8 < TWO64
    requires |seg| + 8 < TWO64
    ensures MessagesFrom(seg, mp) == Some(MessagesIn(items))
    decreases |items|
  {
    if items != [] {
      var end := if items[0].Marker? then mp + 8 else items[0].message.end;
      assert item(mp) == ItemAt(seg, mp);
      assert forall i :: 0 <= i < |items[1..]| ==> items[1..][i] == items[i + 1];
      ReadsParses(item, seg, end, items[1..]);
      assert items[0].Marker? ==> [] + MessagesIn(items[1..]) == MessagesIn(items[1..]);
    }
  }

  /** What the parts are read as. */
  function ItemOfPart(p: Part, pos: nat, end: nat): Item {
    match p
    case EndOfStream => Marker
    case Piece(l, headerType, body, _) => Carried(Message(pos, |body|, headerType, pos + 8 + TablePlace(l), end))
  }

  function ItemsOf(parts: seq<Part>, pos: nat, write: PartWriter): seq<Item> {
    if parts == [] then []
    else
      var end := pos + |write(parts[0])|;
      [ItemOfPart(parts[0], pos, end)] + ItemsOf(parts[1..], end, write)
  }

  lemma {:induction false} ContentsAreItems(parts: seq<Part>, pos: nat, write: PartWriter)
    ensures MessagesIn(ItemsOf(parts, pos, write)) == Contents(parts, pos, write)
    decreases |parts|
  {
    if parts != [] {
      var end := pos + |write(parts[0])|;
      ContentsAreItems(parts[1..], end, write);
      MessagesCons(ItemOfPart(parts[0], pos, end), ItemsOf(parts[1..], end, write));
    }
  }

  lemma MessagesCons(x: Item, rest: seq<Item>)
    ensures MessagesIn([x] + rest) == if x.Marker? then MessagesIn(rest) else [x.message] + MessagesIn(rest)
  {
    assert ([x] + rest)[1..] == rest;
    assert [] + MessagesIn(rest) == MessagesIn(rest);
  }

  lemma {:induction false} ItemsEndInside(parts: seq<Part>, pos: nat, write: PartWriter, size: nat)
    requires pos + |WrittenAll(parts, write)| <= size
    ensures forall i :: 0 <= i < |ItemsOf(parts, pos, write)| && ItemsOf(parts, pos, write)[i].Carried? ==>
      ItemsOf(parts, pos, write)[i].message.end <= size
    decreases |parts|
  {
    if parts != [] {
      ItemsEndInside(parts[1..], pos + |write(parts[0])|, write, size);
    }
  }

  /** `write` writes the parts of this format. */
  ghost predicate WritesParts(write: PartWriter) {
    forall p: Part {:trigger Written(p)} :: write(p) == Written(p)
  }

  lemma EndOfStreamIsRead(item: Reader, seg: Bytes, mp: nat)
    requires ReadsSegment(item, seg) && Holds(seg, mp, Written(EndOfStream))
    ensures item(mp) == Some(Marker)
  {
    ReadsEndOfStream(seg, mp);
  }

  lemma PieceIsRead(item: Reader, seg: Bytes, mp: nat, p: Part, m: Message)
    requires p.Piece? && ReadsSegment(item, seg) && WellLaid(p) && Holds(seg, mp, Written(p)) && |seg| < TWO64 / 2 - 8
    requires m.start == mp && m.bodyLen == |p.body| && m.headerType == p.headerType
    requires m.table == mp + 8 + TablePlace(p.layout) && m.end == mp + |Written(p)|
    ensures item(mp) == Some(Carried(m))
  {
    ReadsPiece(seg, mp, p, m.table, |Metadata(p.layout)|, |p.body| + |p.padding|, m.end);
  }

  lemma PartSize(p: Part)
    ensures |Written(p)| >= 8 && (p.EndOfStream? ==> |Written(p)| == 8)
  {
    if p.Piece? {
      PieceHolds(p);
    }
  }

  lemma ReadsCons(item: Reader, size: nat, mp: nat, x: Item, end: nat, rest: seq<Item>)
    requires mp + 8 <= size && item(mp) == Some(x) && end == (if x.Marker? then mp + 8 else x.message.end)
    requires Reads(item, size, end, rest)
    ensures Reads(item, size, mp, [x] + rest)
  {
    assert ([x] + rest)[1..] == rest;
  }

  lemma {:induction false} PartsAreRead(item: Reader, seg: Bytes, before: Bytes, parts: seq<Part>, write: PartWriter,
                                        tail: Bytes, mp: nat)
    requires ReadsSegment(item, seg) && WritesParts(write) && forall i :: 0 <= i < |parts| ==> WellLaid(parts[i])
    requires seg == before + WrittenAll(parts, write) + tail && mp == |before|
    requires |tail| < 8 && |seg| < TWO64 / 2 - 8
    ensures Reads(item, |seg|, mp, ItemsOf(parts, mp, write))
    decreases |parts|
  {
    if parts != [] {
      var first := write(parts[0]);
      StandsAt(before, first, WrittenAll(parts[1..], write), tail);
      PartsAreRead(item, seg, before + first, parts[1..], write, tail, mp + |first|);
      FirstIsRead(item, seg, mp, parts[0], write, mp + |first|, ItemsOf(parts[1..], mp + |first|, write));
    }
  }

  lemma FirstIsRead(item: Reader, seg: Bytes, mp: nat, p: Part, write: PartWriter, end: nat, rest: seq<Item>)
    requires ReadsSegment(item, seg) && WritesParts(write) && WellLaid(p)
    requires Holds(seg, mp, write(p)) && |seg| < TWO64 / 2 - 8
    requires end == mp + |write(p)| && Reads(item, |seg|, end, rest)
    ensures Reads(item, |seg|, mp, [ItemOfPart(p, mp, end)] + rest)
  {
    assert write(p) == Written(p);
    if p.Piece? {
      PieceIsRead(item, seg, mp, p, ItemOfPart(p, mp, end).message);
    } else {
      EndOfStreamIsRead(item, seg, mp);
    }
    PartSize(p);
    ReadsCons(item, |seg|, mp, ItemOfPart(p, mp, end), end, rest);
  }

  /** A segment of written parts and up to seven stray bytes parses to exactly its messages. */
  lemma WrittenParses(parts: seq<Part>, tail: Bytes)
    requires forall i :: 0 <= i < |parts| ==> WellLaid(parts[i])
    requires |tail| < 8 && |WrittenAll(parts, Written) + tail| < TWO64 / 2 - 8
    ensures BodyMessages(WrittenAll(parts, Written) + tail) == Some(Contents(parts, 0, Written))
  {
    ReaderReads(WrittenAll(parts, Written) + tail);
    WrittenSegmentParses(ReaderOf(WrittenAll(parts, Written) + tail), WrittenAll(parts, Written) + tail, parts, Written, tail);
  }

  function ReaderOf(seg: Bytes): Reader {
    (mp: nat) => ItemAt(seg, mp)
  }

  lemma ReaderReads(seg: Bytes)
    ensures ReadsSegment(ReaderOf(seg), seg)
  {
  }

  lemma WrittenSegmentParses(item: Reader, seg: Bytes, parts: seq<Part>, write: PartWriter, tail: Bytes)
    requires ReadsSegment(item, seg) && WritesParts(write) && forall i :: 0 <= i < |parts| ==> WellLaid(parts[i])
    requires seg == WrittenAll(parts, write) + tail && |tail| < 8 && |seg| < TWO64 / 2 - 8
    ensures BodyMessages(seg) == Some(Contents(parts, 0, write))
  {
    Regroup([], WrittenAll(parts, write), tail);
    PartsAreRead(item, seg, [], parts, write, tail, 0);
    ItemsEndInside(parts, 0, write, |seg|);
    ReadsParses(item, seg, 0, ItemsOf(parts, 0, write));
    ContentsAreItems(parts, 0, write);
  }

  lemma StandsAt(before: Bytes, first: Bytes, later: Bytes, tail: Bytes)
    ensures before + (first + later) + tail == (before + first) + later + tail
    ensures Holds(before + (first + later) + tail, |before|, first)
  {
    Regroup(before, first, later);
    HoldsParts(before, first + (later + tail));
    HoldsParts(first, later + tail);
    Regroup4(before, first, later, tail);
    HoldsWithin(before + (first + (later + tail)), |before|, first + (later + tail), 0, first);
  }

  // ---------- and the other way round ----------

  lemma MarkBytes()
    ensures LowBytes(0xFFFF_FFFF, 4) == MARK
  {
    assert LowBytes(0xFF, 1) == [255] && LowBytes(0xFFFF, 2) == [255, 255] && LowBytes(0xFF_FFFF, 3) == [255, 255, 255];
  }

  /** The end of a padded body that starts at `body`; a negative length wraps. */
  ghost predicate EndsPadded(body: nat, bodyLen: int, end: nat) {
    exists padded: int ::
      && padded % 8 == 0 && bodyLen <= padded < bodyLen + 8
      && end == body + if padded < 0 then padded + TWO64 else padded
  }

  lemma EndIsPadded(mp: nat, metadata: nat, bodyLen: int)
    requires 0 - TWO64 / 2 <= bodyLen < TWO64 / 2 && MessageEnd(mp, metadata, bodyLen).Some?
    ensures EndsPadded(mp + 8 + metadata, bodyLen, MessageEnd(mp, metadata, bodyLen).value)
  {
    AlignsUp(bodyLen);
    var m: int :| m % 8 == 0 && bodyLen <= m < bodyLen + 8 && Align8(bodyLen).value == if m < 0 then m + TWO64 else m;
    assert MessageEnd(mp, metadata, bodyLen).value == mp + 8 + metadata + if m < 0 then m + TWO64 else m;
  }

  /** An item is found only behind a continuation marker, and a message ends where its padded body does. */
  lemma ItemIsFramed(seg: Bytes, mp: nat)
    requires ItemAt(seg, mp).Some?
    ensures mp + 8 <= |seg| && seg[mp..mp + 4] == MARK
    ensures ItemAt(seg, mp).value.Marker? <==> seg[mp + 4..mp + 8] == [0, 0, 0, 0]
    ensures ItemAt(seg, mp).value.Carried? ==>
      var m := ItemAt(seg, mp).value.message;
      m.start == mp && EndsPadded(mp + 8 + Word(seg, mp + 4, 4), m.bodyLen, m.end)
  {
    EncodesWord(seg, mp, 4);
    MarkBytes();
    MarkerIsZero(seg, mp);
    if ItemAt(seg, mp).value.Carried? {
      var m := ItemAt(seg, mp).value.message;
      EndIsPadded(mp, Word(seg, mp + 4, 4), m.bodyLen);
    }
  }

  lemma MarkerIsZero(seg: Bytes, mp: nat)
    requires mp + 8 <= |seg|
    ensures Word(seg, mp + 4, 4) == 0 <==> seg[mp + 4..mp + 8] == [0, 0, 0, 0]
  {
    Powers();
    ZeroIsWritten();
    EncodesWord(seg, mp + 4, 4);
    if seg[mp + 4..mp + 8] == [0, 0, 0, 0] {
      assert Holds(seg, mp + 4, LowBytes(0, 4));
      HoldsWord(seg, mp + 4, 0, 4);
    }
  }

  /** A two-byte vtable slot at `vt + place` that is there and not zero. */
  predicate SlotSet(seg: Bytes, vt: nat, place: nat) {
    vt + place + 2 <= |seg| && place + 2 <= Word(seg, vt, 2) && Word(seg, vt + place, 2) != 0
  }

  /** The eight bytes at `at` as a two's complement number. */
  predicate SignedAt(seg: Bytes, at: nat, n: int) {
    && at + 8 <= |seg|
    && n == (if Word(seg, at, 8) < 0x8000_0000_0000_0000 then Word(seg, at, 8)
             else Word(seg, at, 8) - 0x1_0000_0000_0000_0000)
  }

  /** Four bytes at `at`, below the sign bit, lead from `at` to `to`. */
  predicate Forward(seg: Bytes, at: nat, to: nat) {
    at + 4 <= |seg| && Word(seg, at, 4) < 0x8000_0000 && to == at + Word(seg, at, 4)
  }

  /** And back from `at` to `to`. */
  predicate Backward(seg: Bytes, at: nat, to: nat) {
    at + 4 <= |seg| && Word(seg, at, 4) < 0x8000_0000 && at == to + Word(seg, at, 4)
  }

  /** What the parser reads of a table at `table` whose vtable is at `vt`. */
  predicate ReadsTable(seg: Bytes, table: nat, vt: nat, headerType: nat, bodyLen: int) {
    && vt + 2 <= |seg|
    && (if SlotSet(seg, vt, 6)
        then table + Word(seg, vt + 6, 2) < |seg| && headerType == seg[table + Word(seg, vt + 6, 2)]
        else headerType == 0)
    && (if SlotSet(seg, vt, 10) then SignedAt(seg, table + Word(seg, vt + 10, 2), bodyLen) else bodyLen == 0)
  }

  lemma SlotPlace(seg: Bytes, table: nat, vt: nat, id: nat)
    requires |seg| < TWO64 / 2 && table < |seg| && Vtable(seg, table) == Some(vt) && FieldAt(seg, table, id).Some?
    ensures vt + 2 <= |seg|
    ensures FieldAt(seg, table, id).value ==
      if SlotSet(seg, vt, 4 + id * 2) then Some(table + Word(seg, vt + (4 + id * 2), 2)) else None
  {
  }

  lemma HeaderReads(seg: Bytes, table: nat, vt: nat)
    requires |seg| < TWO64 / 2 && table < |seg| && Vtable(seg, table) == Some(vt) && HeaderType(seg, table).Some?
    ensures vt + 2 <= |seg|
    ensures if SlotSet(seg, vt, 6)
      then table + Word(seg, vt + 6, 2) < |seg| && HeaderType(seg, table).value == seg[table + Word(seg, vt + 6, 2)]
      else HeaderType(seg, table).value == 0
  {
    SlotPlace(seg, table, vt, 1);
  }

  lemma LongReads(seg: Bytes, at: nat, n: int)
    requires I64At(seg, at) == Some(n)
    ensures SignedAt(seg, at, n)
  {
  }

  lemma LengthReads(seg: Bytes, table: nat, vt: nat)
    requires |seg| < TWO64 / 2 && table < |seg| && Vtable(seg, table) == Some(vt) && BodyLength(seg, table).Some?
    ensures vt + 2 <= |seg|
    ensures
      var n := BodyLength(seg, table).value;
      if SlotSet(seg, vt, 10) then SignedAt(seg, table + Word(seg, vt + 10, 2), n) else n == 0
  {
    SlotPlace(seg, table, vt, 3);
    if SlotSet(seg, vt, 10) {
      LongReads(seg, table + Word(seg, vt + 10, 2), BodyLength(seg, table).value);
    }
  }

  /** A table and its vtable are reached by offsets that are not negative, and never by others. */
  lemma OffsetsFound(seg: Bytes, at: nat, table: nat)
    requires |seg| < TWO64 / 2 && RootTable(seg, at) == Some(table) && Vtable(seg, table).Some?
    ensures Forward(seg, at, table) && Backward(seg, table, Vtable(seg, table).value)
  {
    Powers();
    WordBounded(seg, at, 4);
    assert table + 4 <= |seg|;
    WordBounded(seg, table, 4);
  }

  /**
    A message is found only where two forward offsets lead from its metadata to a
    table and its vtable, and its header type and length are what slots 1 and 3 hold.
  */
  lemma MessageIsLaidOut(seg: Bytes, mp: nat)
    requires |seg| < TWO64 / 2 && ItemAt(seg, mp).Some? && ItemAt(seg, mp).value.Carried?
    ensures
      var m := ItemAt(seg, mp).value.message;
      && Forward(seg, mp + 8, m.table)
      && exists vt: nat :: Backward(seg, m.table, vt) && ReadsTable(seg, m.table, vt, m.headerType, m.bodyLen)
  {
    var m := ItemAt(seg, mp).value.message;
    OffsetsFound(seg, mp + 8, m.table);
    var vt := Vtable(seg, m.table).value;
    HeaderReads(seg, m.table, vt);
    LengthReads(seg, m.table, vt);
    assert Backward(seg, m.table, vt) && ReadsTable(seg, m.table, vt, m.headerType, m.bodyLen);
  }
}
