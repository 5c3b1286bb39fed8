/**
  The stream framing: length-prefixed segments up to a zero-length terminator.

  Where a segment ends does not depend on what is in it, so the framing is
  stated for any parser `p` of segment bodies; the stream parser uses the message
  parser.
*/
module Framing {
  import opened Wrappers
  import opened ByteStrings
  import opened Messages
  import opened Sequences

  type BodyParser = Bytes -> Option<seq<Message>>

  /** A segment without its place in the stream. */
  datatype Frame = Frame(body: Bytes, messages: seq<Message>)

  datatype Segment = Segment(prefix: nat, body: nat, len: nat, messages: seq<Message>)

  function Frames(s: Bytes, p: BodyParser): Option<seq<Frame>>
    decreases |s|
  {
    match U32At(s, 0)
    case None => None
    case Some(len) =>
      if len == 0 then Some([])
      else if 4 + len > |s| then None
      else
        match p(s[4..4 + len])
        case None => None
        case Some(messages) =>
          match Frames(s[4 + len..], p)
          case None => None
          case Some(rest) => Some([Frame(s[4..4 + len], messages)] + rest)
  }

  /** The frames at their places, the first prefix at `pos`. */
  function Layout(frames: seq<Frame>, pos: nat): (segments: seq<Segment>)
    ensures |segments| == |frames|
    decreases |frames|
  {
    if frames == [] then []
    else
      var len := |frames[0].body|;
      [Segment(pos, pos + 4, len, frames[0].messages)] + Layout(frames[1..], pos + 4 + len)
  }

  function ParseWith(stream: Bytes, p: BodyParser): Option<seq<Segment>> {
    match Frames(stream, p)
    case None => None
    case Some(frames) => Some(Layout(frames, 0))
  }

  function ParseFraming(stream: Bytes): Option<seq<Segment>> {
    ParseWith(stream, BodyMessages)
  }

  // ---------- segments tile the stream ----------

  /** A length prefix and the body it announces. */
  function Framed(body: Bytes): Bytes {
    LittleEndian32(|body|) + body
  }

  function Join(frames: seq<Frame>): Bytes {
    if frames == [] then [] else Framed(frames[0].body) + Join(frames[1..])
  }

  const TERMINATOR: Bytes := [0, 0, 0, 0]

  /** A frame the parser would produce. */
  ghost predicate Parsed(f: Frame, p: BodyParser) {
    0 < |f.body| < TWO32 && p(f.body) == Some(f.messages)
  }

  ghost predicate AllParsed(frames: seq<Frame>, p: BodyParser) {
    forall i :: 0 <= i < |frames| ==> Parsed(frames[i], p)
  }

  /** What a framed body looks like from its start. */
  lemma FramedStart(body: Bytes, tail: Bytes)
    requires |body| < TWO32
    ensures var s := Framed(body) + tail;
      && U32At(s, 0) == Some(|body|) && |s| == 4 + |body| + |tail|
      && s[4..4 + |body|] == body && s[4 + |body|..] == tail
  {
    FramedWord(body, tail);
    FramedSlices(LittleEndian32(|body|), body, tail);
  }

  lemma FramedWord(body: Bytes, tail: Bytes)
    requires |body| < TWO32
    ensures U32At(Framed(body) + tail, 0) == Some(|body|)
  {
    Regroup(LittleEndian32(|body|), body, tail);
    ReadsBack32(|body|, body + tail);
  }

  lemma FramedSlices(word: Bytes, body: Bytes, tail: Bytes)
    requires |word| == 4
    ensures var s := word + body + tail;
      |s| == 4 + |body| + |tail| && s[4..4 + |body|] == body && s[4 + |body|..] == tail
  {
  }

  lemma FramesUnfold(s: Bytes, len: nat, p: BodyParser)
    requires U32At(s, 0) == Some(len) && 0 < len && 4 + len <= |s|
    ensures Frames(s, p) ==
      if p(s[4..4 + len]).None? || Frames(s[4 + len..], p).None? then None
      else Some([Frame(s[4..4 + len], p(s[4..4 + len]).value)] + Frames(s[4 + len..], p).value)
  {
  }

  /** One step of the parser over a body that fits its prefix. */
  lemma FramesStep(body: Bytes, tail: Bytes, p: BodyParser)
    requires 0 < |body| < TWO32
    ensures Frames(Framed(body) + tail, p) ==
      if p(body).None? || Frames(tail, p).None? then None
      else Some([Frame(body, p(body).value)] + Frames(tail, p).value)
  {
    FramedStart(body, tail);
    FramesUnfold(Framed(body) + tail, |body|, p);
  }

  lemma FramesEnd(rest: Bytes, p: BodyParser)
    ensures Frames(TERMINATOR + rest, p) == Some([])
  {
    ZeroLength();
    ReadsBack32(0, rest);
  }

  /** The other way round: what the parser took off the front. */
  lemma FramesUnstep(s: Bytes, p: BodyParser) returns (body: Bytes, tail: Bytes)
    requires Frames(s, p).Some? && Frames(s, p).value != []
    ensures 0 < |body| < TWO32 && s == Framed(body) + tail
    ensures p(body).Some? && Frames(tail, p).Some?
    ensures Frames(s, p).value == [Frame(body, p(body).value)] + Frames(tail, p).value
    ensures |tail| < |s|
  {
    var len := U32At(s, 0).value;
    body, tail := s[4..4 + len], s[4 + len..];
    FramesUnfold(s, len, p);
    FrontIsFramed(s, len);
  }

  lemma FrontIsFramed(s: Bytes, len: nat)
    requires U32At(s, 0) == Some(len) && 4 + len <= |s|
    ensures len < TWO32 && s == Framed(s[4..4 + len]) + s[4 + len..]
  {
    EncodesWhatItReads(s);
    U32Bounded(s, 0);
    assert s == s[..4] + s[4..4 + len] + s[4 + len..];
  }

  lemma EndOfFrames(s: Bytes, p: BodyParser)
    requires Frames(s, p) == Some([])
    ensures |s| >= 4 && s == TERMINATOR + s[4..]
  {
    assert U32At(s, 0) == Some(0);
    ZeroWord(s);
  }

  lemma ZeroWord(s: Bytes)
    requires U32At(s, 0) == Some(0)
    ensures |s| >= 4 && s == TERMINATOR + s[4..]
  {
    EncodesWhatItReads(s);
    ZeroLength();
    assert s == s[..4] + s[4..];
  }

  /** A stream that parses is its frames end to end, the terminator, and bytes nobody looked at. */
  lemma {:induction false} FramesTile(s: Bytes, p: BodyParser) returns (rest: Bytes)
    requires Frames(s, p).Some?
    ensures AllParsed(Frames(s, p).value, p)
    ensures s == Join(Frames(s, p).value) + (TERMINATOR + rest)
    decreases |s|
  {
    var frames := Frames(s, p).value;
    if frames == [] {
      EndOfFrames(s, p);
      rest := s[4..];
      Regroup([], TERMINATOR, TERMINATOR + rest);
    } else {
      var body, tail := FramesUnstep(s, p);
      rest := FramesTile(tail, p);
      var later := Frames(tail, p).value;
      AllParsedCons(Frame(body, p(body).value), later, p);
      Regroup(Framed(body), Join(later), TERMINATOR + rest);
      JoinCons(Frame(body, p(body).value), later);
    }
  }

  lemma JoinCons(f: Frame, frames: seq<Frame>)
    ensures Join([f] + frames) == Framed(f.body) + Join(frames)
  {
    assert ([f] + frames)[1..] == frames;
  }

  lemma AllParsedCons(f: Frame, frames: seq<Frame>, p: BodyParser)
    ensures AllParsed([f] + frames, p) <==> Parsed(f, p) && AllParsed(frames, p)
  {
    if AllParsed([f] + frames, p) {
      assert ([f] + frames)[0] == f;
      forall i | 0 <= i < |frames| ensures Parsed(frames[i], p) {
        assert ([f] + frames)[i + 1] == frames[i];
      }
    }
  }

  /** And any such stream parses to those frames. */
  lemma {:induction false} JoinParses(frames: seq<Frame>, rest: Bytes, p: BodyParser)
    requires AllParsed(frames, p)
    ensures Frames(Join(frames) + (TERMINATOR + rest), p) == Some(frames)
    decreases |frames|
  {
    if frames == [] {
      FramesEnd(rest, p);
      Regroup([], TERMINATOR, TERMINATOR + rest);
    } else {
      var f, later := frames[0], frames[1..];
      assert frames == [f] + later;
      AllParsedCons(f, later, p);
      JoinParses(later, rest, p);
      FramesStep(f.body, Join(later) + (TERMINATOR + rest), p);
      Regroup(Framed(f.body), Join(later), TERMINATOR + rest);
    }
  }

  lemma {:induction false} JoinConcat(a: seq<Frame>, b: seq<Frame>)
    ensures Join(a + b) == Join(a) + Join(b)
    decreases |a|
  {
    if a == [] {
      assert a + b == b;
    } else {
      assert (a + b)[1..] == a[1..] + b;
      JoinConcat(a[1..], b);
      assert Framed(a[0].body) + (Join(a[1..]) + Join(b)) == Framed(a[0].body) + Join(a[1..]) + Join(b);
    }
  }

  /** Where frame `i` starts. */
  function Offset(frames: seq<Frame>, i: nat): nat
    requires i <= |frames|
  {
    if i == 0 then 0 else Offset(frames, i - 1) + 4 + |frames[i - 1].body|
  }

  lemma {:induction false} OffsetIsJoined(frames: seq<Frame>, i: nat)
    requires i <= |frames|
    ensures Offset(frames, i) == |Join(frames[..i])|
    decreases i
  {
    if i > 0 {
      OffsetIsJoined(frames, i - 1);
      assert frames[..i] == frames[..i - 1] + [frames[i - 1]];
      JoinConcat(frames[..i - 1], [frames[i - 1]]);
      assert Join([frames[i - 1]][1..]) == [];
    }
  }

  lemma {:induction false} OffsetShifts(frames: seq<Frame>, i: nat)
    requires 0 < i <= |frames|
    ensures Offset(frames, i) == 4 + |frames[0].body| + Offset(frames[1..], i - 1)
    decreases i
  {
    if i > 1 {
      OffsetShifts(frames, i - 1);
    }
  }

  lemma {:induction false} LayoutPlaces(frames: seq<Frame>, pos: nat, i: nat)
    requires i < |frames|
    ensures Layout(frames, pos)[i]
      == Segment(pos + Offset(frames, i), pos + Offset(frames, i) + 4, |frames[i].body|, frames[i].messages)
    decreases |frames|
  {
    if i > 0 {
      LayoutPlaces(frames[1..], pos + 4 + |frames[0].body|, i - 1);
      OffsetShifts(frames, i);
    }
  }

  /** The frame at `i` splits the joined stream at its offset. */
  lemma FrameInPlace(frames: seq<Frame>, end: Bytes, i: nat) returns (before: Bytes, after: Bytes)
    requires i < |frames|
    ensures before == Join(frames[..i]) && |before| == Offset(frames, i)
    ensures after == Join(frames[i + 1..]) + end
    ensures Join(frames) + end == before + (Framed(frames[i].body) + after)
  {
    before, after := Join(frames[..i]), Join(frames[i + 1..]) + end;
    OffsetIsJoined(frames, i);
    assert frames == frames[..i] + frames[i..];
    JoinConcat(frames[..i], frames[i..]);
    assert frames[i..][1..] == frames[i + 1..];
    var f, later := Framed(frames[i].body), Join(frames[i + 1..]);
    assert before + (f + later) + end == before + (f + (later + end));
  }

  /** What a framed body looks like from outside. */
  lemma FramedReads(before: Bytes, body: Bytes, after: Bytes)
    requires |body| < TWO32
    ensures var s := before + (Framed(body) + after);
      && U32At(s, |before|) == Some(|body|)
      && |s| == |before| + 4 + |body| + |after|
      && s[|before| + 4..|before| + 4 + |body|] == body
      && s[..|before|] == before && s[|before| + 4 + |body|..] == after
  {
    FramedStart(body, after);
    ReadsAhead(before, Framed(body) + after, 0);
    var t := Framed(body) + after;
    assert (before + t)[|before| + 4..|before| + 4 + |body|] == t[4..4 + |body|];
    assert (before + t)[|before| + 4 + |body|..] == t[4 + |body|..];
  }

  lemma ReadsAhead(before: Bytes, s: Bytes, at: nat)
    ensures U32At(before + s, |before| + at) == U32At(s, at)
  {
    if at + 4 <= |s| {
      assert (before + s)[|before| + at..|before| + at + 4] == s[at..at + 4];
      WordElsewhere(before + s, |before| + at, s, at, 4);
    }
  }

  /** Segment `s` holds what its prefix announces, and its messages are its body's. */
  ghost predicate WellPlaced(stream: Bytes, s: Segment, p: BodyParser) {
    && s.body == s.prefix + 4 && 0 < s.len
    && s.body + s.len + 4 <= |stream|
    && U32At(stream, s.prefix) == Some(s.len)
    && p(stream[s.body..s.body + s.len]) == Some(s.messages)
  }

  /** Where the last segment's body ends. */
  function EndOf(segments: seq<Segment>): nat {
    if segments == [] then 0 else segments[|segments| - 1].body + segments[|segments| - 1].len
  }

  /** Segment `i` starts where the ones before it end. */
  ghost predicate InPlace(stream: Bytes, segments: seq<Segment>, i: nat, p: BodyParser)
    requires i < |segments|
  {
    WellPlaced(stream, segments[i], p) && segments[i].prefix == EndOf(segments[..i])
  }

  /**
    The segments tile the stream: the first prefix is at zero, each next one where
    the body before it ends, and the terminator follows the last.
  */
  ghost predicate Tiles(stream: Bytes, segments: seq<Segment>, p: BodyParser) {
    && (forall i :: 0 <= i < |segments| ==> InPlace(stream, segments, i, p))
    && U32At(stream, EndOf(segments)) == Some(0)
  }

  lemma SegmentsTile(stream: Bytes, p: BodyParser)
    requires ParseWith(stream, p).Some?
    ensures Tiles(stream, ParseWith(stream, p).value, p)
  {
    var frames := Frames(stream, p).value;
    var rest := FramesTile(stream, p);
    forall i | 0 <= i < |frames| ensures InPlace(stream, Layout(frames, 0), i, p) {
      PlacedInOrder(stream, frames, TERMINATOR + rest, i, p);
    }
    LaidOutInOrder(frames, |frames|);
    EndReads(frames, rest);
  }

  lemma PlacedInOrder(stream: Bytes, frames: seq<Frame>, end: Bytes, i: nat, p: BodyParser)
    requires AllParsed(frames, p) && i < |frames| && |end| >= 4 && stream == Join(frames) + end
    ensures InPlace(stream, Layout(frames, 0), i, p)
  {
    LayoutPlaces(frames, 0, i);
    LaidOutInOrder(frames, i);
    SegmentPlaced(stream, frames, end, i, Offset(frames, i), p);
  }

  /** The offset of a frame is where the segments before it end. */
  lemma LaidOutInOrder(frames: seq<Frame>, i: nat)
    requires i <= |frames|
    ensures Offset(frames, i) == EndOf(Layout(frames, 0)[..i])
    ensures Layout(frames, 0)[..|frames|] == Layout(frames, 0)
  {
    if i > 0 {
      LayoutPlaces(frames, 0, i - 1);
    }
  }

  lemma EndReads(frames: seq<Frame>, rest: Bytes)
    ensures U32At(Join(frames) + (TERMINATOR + rest), Offset(frames, |frames|)) == Some(0)
  {
    OffsetIsJoined(frames, |frames|);
    assert frames[..|frames|] == frames;
    TerminatorReads(rest);
    ReadsPast(Join(frames), TERMINATOR + rest, Offset(frames, |frames|));
  }

  lemma ReadsPast(before: Bytes, s: Bytes, pos: nat)
    requires pos == |before|
    ensures U32At(before + s, pos) == U32At(s, 0)
  {
    ReadsAhead(before, s, 0);
  }

  lemma TerminatorReads(rest: Bytes)
    ensures U32At(TERMINATOR + rest, 0) == Some(0)
  {
    ZeroLength();
    ReadsBack32(0, rest);
  }

  lemma SegmentPlaced(stream: Bytes, frames: seq<Frame>, end: Bytes, i: nat, pos: nat, p: BodyParser)
    requires AllParsed(frames, p) && i < |frames| && |end| >= 4
    requires stream == Join(frames) + end && pos == Offset(frames, i)
    ensures WellPlaced(stream, Segment(pos, pos + 4, |frames[i].body|, frames[i].messages), p)
  {
    var before, after := FrameInPlace(frames, end, i);
    assert Parsed(frames[i], p);
    PlacedAfter(stream, pos, before, frames[i], after, p);
  }

  lemma PlacedAfter(stream: Bytes, pos: nat, before: Bytes, f: Frame, after: Bytes, p: BodyParser)
    requires stream == before + (Framed(f.body) + after) && pos == |before|
    requires Parsed(f, p) && |after| >= 4
    ensures WellPlaced(stream, Segment(pos, pos + 4, |f.body|, f.messages), p)
  {
    FramedReads(before, f.body, after);
  }

  // ---------- splicing a segment ----------

  predicate InBounds(s: Segment, stream: Bytes) {
    s.prefix <= |stream| && s.body + s.len <= |stream|
  }

  function ReplaceBody(stream: Bytes, s: Segment, newBody: Bytes): Bytes
    requires InBounds(s, stream)
  {
    stream[..s.prefix] + LittleEndian32(|newBody|) + newBody + stream[s.body + s.len..]
  }

  /** Replace the body of segment `idx`; the length prefix keeps only the low 32 bits. */
  function ReplaceSegment(stream: Bytes, segments: seq<Segment>, idx: nat, newBody: Bytes): Bytes
    requires idx < |segments| && InBounds(segments[idx], stream)
  {
    ReplaceBody(stream, segments[idx], newBody)
  }

  /** The splice keeps everything before and after the segment's frame. */
  lemma SpliceKeepsTheRest(stream: Bytes, idx: nat, newBody: Bytes, p: BodyParser) returns (rest: Bytes)
    requires ParseWith(stream, p).Some? && idx < |ParseWith(stream, p).value|
    ensures var frames, segments := Frames(stream, p).value, ParseWith(stream, p).value;
      && AllParsed(frames, p) && idx < |frames| && InBounds(segments[idx], stream)
      && ReplaceSegment(stream, segments, idx, newBody)
        == Join(frames[..idx]) + (Framed(newBody) + (Join(frames[idx + 1..]) + (TERMINATOR + rest)))
  {
    var frames := Frames(stream, p).value;
    rest := FramesTile(stream, p);
    LayoutPlaces(frames, 0, idx);
    var before, after := FrameInPlace(frames, TERMINATOR + rest, idx);
    assert Parsed(frames[idx], p);
    SpliceAt(before, frames[idx].body, after, ParseWith(stream, p).value[idx], newBody);
  }

  lemma SpliceAt(before: Bytes, body: Bytes, after: Bytes, s: Segment, newBody: Bytes)
    requires |body| < TWO32 && s.prefix == |before| && s.body == s.prefix + 4 && s.len == |body|
    ensures var stream := before + (Framed(body) + after);
      InBounds(s, stream) && ReplaceBody(stream, s, newBody) == before + (Framed(newBody) + after)
  {
    SpliceBytes(before, body, after, newBody);
  }

  lemma SpliceBytes(before: Bytes, body: Bytes, after: Bytes, newBody: Bytes)
    requires |body| < TWO32
    ensures var s := before + (Framed(body) + after);
      && |before| + 4 + |body| <= |s|
      && s[..|before|] + LittleEndian32(|newBody|) + newBody + s[|before| + 4 + |body|..]
        == before + (Framed(newBody) + after)
  {
    FramedReads(before, body, after);
    Regroup(before, LittleEndian32(|newBody|), newBody);
    Regroup(before, Framed(newBody), after);
  }

  lemma JoinUpdated(frames: seq<Frame>, idx: nat, f: Frame, end: Bytes)
    requires idx < |frames|
    ensures Join(frames[idx := f]) + end == Join(frames[..idx]) + (Framed(f.body) + (Join(frames[idx + 1..]) + end))
  {
    var changed := frames[idx := f];
    var before, after := FrameInPlace(changed, end, idx);
    assert changed[..idx] == frames[..idx] && changed[idx + 1..] == frames[idx + 1..];
  }

  /** Moved along the stream by `delta`, messages untouched. */
  function Shifted(s: Segment, delta: int): Segment
    requires s.prefix + delta >= 0
  {
    Segment(s.prefix + delta, s.prefix + delta + 4, s.len, s.messages)
  }

  /** `later` is `segments` with entry `idx` exchanged for a body of `len` bytes and the following ones moved. */
  ghost predicate OnlyChanges(segments: seq<Segment>, later: seq<Segment>, idx: nat, len: nat, messages: seq<Message>)
    requires idx < |segments|
  {
    && |later| == |segments|
    && (forall i :: 0 <= i < idx ==> later[i] == segments[i])
    && later[idx] == Segment(segments[idx].prefix, segments[idx].body, len, messages)
    && (forall i :: idx < i < |segments| ==>
      && segments[i].prefix + len - segments[idx].len >= 0
      && later[i] == Shifted(segments[i], len - segments[idx].len))
  }

  lemma {:induction false} OffsetsAfterUpdate(frames: seq<Frame>, idx: nat, f: Frame, i: nat)
    requires idx < |frames| && i <= |frames|
    ensures i <= idx ==> Offset(frames[idx := f], i) == Offset(frames, i)
    ensures i > idx ==> Offset(frames[idx := f], i) == Offset(frames, i) + |f.body| - |frames[idx].body|
    decreases i
  {
    if i > 0 {
      OffsetsAfterUpdate(frames, idx, f, i - 1);
    }
  }

  lemma LayoutAfterUpdate(frames: seq<Frame>, idx: nat, f: Frame)
    requires idx < |frames|
    ensures OnlyChanges(Layout(frames, 0), Layout(frames[idx := f], 0), idx, |f.body|, f.messages)
  {
    var before, after := Layout(frames, 0), Layout(frames[idx := f], 0);
    forall i | 0 <= i < |frames|
      ensures i < idx ==> after[i] == before[i]
      ensures i == idx ==> after[i] == Segment(before[i].prefix, before[i].body, |f.body|, f.messages)
      ensures i > idx ==>
        && before[i].prefix + |f.body| - before[idx].len >= 0
        && after[i] == Shifted(before[i], |f.body| - before[idx].len)
    {
      LayoutPlaces(frames, 0, i);
      LayoutPlaces(frames, 0, idx);
      LayoutPlaces(frames[idx := f], 0, i);
      OffsetsAfterUpdate(frames, idx, f, i);
    }
  }

  /**
    Splicing in a non-empty body that fits its length prefix and parses changes
    that one segment and moves the later ones by the difference in length.
  */
  lemma SpliceChangesOneSegment(stream: Bytes, idx: nat, newBody: Bytes, p: BodyParser)
    requires ParseWith(stream, p).Some? && idx < |ParseWith(stream, p).value|
    requires 0 < |newBody| < TWO32 && p(newBody).Some?
    ensures var segments := ParseWith(stream, p).value;
      && InBounds(segments[idx], stream)
      && var spliced := ParseWith(ReplaceSegment(stream, segments, idx, newBody), p);
      && spliced.Some? && OnlyChanges(segments, spliced.value, idx, |newBody|, p(newBody).value)
  {
    var frames := Frames(stream, p).value;
    var rest := SpliceKeepsTheRest(stream, idx, newBody, p);
    var f := Frame(newBody, p(newBody).value);
    JoinUpdated(frames, idx, f, TERMINATOR + rest);
    JoinParses(frames[idx := f], rest, p);
    LayoutAfterUpdate(frames, idx, f);
  }

  /** Whatever follows whole frames is parsed after them. */
  lemma {:induction false} FramesAfter(before: seq<Frame>, tail: Bytes, p: BodyParser)
    requires AllParsed(before, p)
    ensures Frames(Join(before) + tail, p) ==
      if Frames(tail, p).None? then None else Some(before + Frames(tail, p).value)
    decreases |before|
  {
    if before == [] {
      Regroup([], tail, tail);
      assert Frames(tail, p).Some? ==> [] + Frames(tail, p).value == Frames(tail, p).value;
    } else {
      var f, later := before[0], before[1..];
      assert before == [f] + later;
      AllParsedCons(f, later, p);
      FramesAfter(later, tail, p);
      FramesStep(f.body, Join(later) + tail, p);
      Regroup(Framed(f.body), Join(later), tail);
      if Frames(tail, p).Some? {
        Regroup([f], later, Frames(tail, p).value);
      }
    }
  }

  /** The part of a new body its length prefix covers. */
  function Covered(newBody: Bytes): (n: nat)
    ensures n <= |newBody| && n < TWO32
  {
    |newBody| % TWO32
  }

  /** What the parser reads after the covered part: the rest of the body and the stream behind the old one. */
  function Behind(stream: Bytes, s: Segment, newBody: Bytes): Bytes
    requires InBounds(s, stream)
  {
    newBody[Covered(newBody)..] + stream[s.body + s.len..]
  }

  /** The frames of a spliced stream from the spliced one on. */
  function SplicedFrames(newBody: Bytes, behind: Bytes, p: BodyParser): Option<seq<Frame>> {
    var covered := newBody[..Covered(newBody)];
    if covered == [] then Some([])
    else if p(covered).None? || Frames(behind, p).None? then None
    else Some([Frame(covered, p(covered).value)] + Frames(behind, p).value)
  }

  /** For every body, of any size: the frames before stay, and the rest is read from the covered part on. */
  lemma SpliceParses(stream: Bytes, idx: nat, newBody: Bytes, p: BodyParser)
    requires ParseWith(stream, p).Some? && idx < |ParseWith(stream, p).value|
    ensures var frames, segments := Frames(stream, p).value, ParseWith(stream, p).value;
      && InBounds(segments[idx], stream) && |frames| == |segments|
      && var later := SplicedFrames(newBody, Behind(stream, segments[idx], newBody), p);
      && Frames(ReplaceSegment(stream, segments, idx, newBody), p)
        == (if later.None? then None else Some(frames[..idx] + later.value))
  {
    var frames, segments := Frames(stream, p).value, ParseWith(stream, p).value;
    var rest := SpliceKeepsTheRest(stream, idx, newBody, p);
    var s := segments[idx];
    var after := stream[s.body + s.len..];
    var covered, behind := newBody[..Covered(newBody)], Behind(stream, s, newBody);
    SplitBody(stream, s, newBody);
    PrefixIsJoined(stream, idx, p);
    FramesAfter(frames[..idx], LittleEndian32(|covered|) + covered + behind, p);
    if covered == [] {
      ZeroLength();
      Regroup(TERMINATOR, covered, behind);
      FramesEnd(covered + behind, p);
      Regroup(frames[..idx], [], []);
    } else {
      FramesStep(covered, behind, p);
    }
  }

  lemma ZeroLength()
    ensures LittleEndian32(0) == TERMINATOR
  {
    assert LowBytes(0, 3) == [0] + LowBytes(0, 2) == [0, 0, 0];
  }

  /** A replacement read as prefix, covered part and what is behind it. */
  lemma SplitBody(stream: Bytes, s: Segment, newBody: Bytes)
    requires InBounds(s, stream)
    ensures var covered := newBody[..Covered(newBody)];
      ReplaceBody(stream, s, newBody)
        == stream[..s.prefix] + (LittleEndian32(|covered|) + covered + Behind(stream, s, newBody))
  {
    var covered, over, after := newBody[..Covered(newBody)], newBody[Covered(newBody)..], stream[s.body + s.len..];
    LittleEndianWraps(|newBody|);
    assert newBody == covered + over;
    Regroup(covered, over, after);
    Regroup4(stream[..s.prefix], LittleEndian32(|covered|), newBody, after);
    Regroup(LittleEndian32(|covered|), covered, over + after);
  }

  lemma PrefixIsJoined(stream: Bytes, idx: nat, p: BodyParser)
    requires ParseWith(stream, p).Some? && idx < |ParseWith(stream, p).value|
    ensures var frames, s := Frames(stream, p).value, ParseWith(stream, p).value[idx];
      AllParsed(frames[..idx], p) && s.prefix <= |stream| && stream[..s.prefix] == Join(frames[..idx])
  {
    var frames := Frames(stream, p).value;
    var rest := FramesTile(stream, p);
    LayoutPlaces(frames, 0, idx);
    var before, after := FrameInPlace(frames, TERMINATOR + rest, idx);
    assert stream[..|before|] == before;
  }

  /** A body whose length the prefix truncates to zero, an empty one above all, ends the stream there. */
  lemma EmptySpliceTruncates(stream: Bytes, idx: nat, newBody: Bytes, p: BodyParser)
    requires ParseWith(stream, p).Some? && idx < |ParseWith(stream, p).value|
    requires |newBody| % TWO32 == 0
    ensures var segments := ParseWith(stream, p).value;
      && InBounds(segments[idx], stream)
      && var spliced := ParseWith(ReplaceSegment(stream, segments, idx, newBody), p);
      && spliced.Some? && |spliced.value| == idx && forall i :: 0 <= i < idx ==> spliced.value[i] == segments[i]
  {
    var frames := Frames(stream, p).value;
    SpliceParses(stream, idx, newBody, p);
    Regroup(frames[..idx], [], []);
    LayoutOfPrefix(frames, idx);
  }

  lemma LayoutOfPrefix(frames: seq<Frame>, n: nat)
    requires n <= |frames|
    ensures forall i :: 0 <= i < n ==> Layout(frames[..n], 0)[i] == Layout(frames, 0)[i]
  {
    forall i | 0 <= i < n ensures Layout(frames[..n], 0)[i] == Layout(frames, 0)[i] {
      SamePlaceInPrefix(frames, n, i);
    }
  }

  lemma SamePlaceInPrefix(frames: seq<Frame>, n: nat, i: nat)
    requires i < n <= |frames|
    ensures Layout(frames[..n], 0)[i] == Layout(frames, 0)[i]
  {
    LayoutPlaces(frames, 0, i);
    LayoutPlaces(frames[..n], 0, i);
    OffsetOfPrefix(frames, n, i);
  }

  lemma {:induction false} OffsetOfPrefix(frames: seq<Frame>, n: nat, i: nat)
    requires i <= n <= |frames|
    ensures Offset(frames[..n], i) == Offset(frames, i)
    decreases i
  {
    if i > 0 {
      OffsetOfPrefix(frames, n, i - 1);
    }
  }

  /** The splice keeps the number of segments exactly when the covered part is non-empty and parses and as many segments follow it as before. */
  lemma SpliceKeepsCountExactly(stream: Bytes, idx: nat, newBody: Bytes, p: BodyParser)
    requires ParseWith(stream, p).Some? && idx < |ParseWith(stream, p).value|
    ensures var segments := ParseWith(stream, p).value;
      && InBounds(segments[idx], stream)
      && var spliced := ParseWith(ReplaceSegment(stream, segments, idx, newBody), p);
      && var behind := Frames(Behind(stream, segments[idx], newBody), p);
      && (spliced.Some? && |spliced.value| == |segments| <==>
        && Covered(newBody) > 0 && p(newBody[..Covered(newBody)]).Some?
        && behind.Some? && |behind.value| == |segments| - idx - 1)
  {
    SpliceParses(stream, idx, newBody, p);
  }

  /**
    For every body: the splice does what it is for, changing one entry to the body
    given and moving the later ones, exactly when the body is non-empty, fits its
    prefix, and parses.
  */
  lemma SpliceIsCleanExactly(stream: Bytes, idx: nat, newBody: Bytes, p: BodyParser)
    requires ParseWith(stream, p).Some? && idx < |ParseWith(stream, p).value|
    ensures var segments := ParseWith(stream, p).value;
      && InBounds(segments[idx], stream)
      && var spliced := ParseWith(ReplaceSegment(stream, segments, idx, newBody), p);
      && (Clean(segments, spliced, idx, |newBody|) <==> 0 < |newBody| < TWO32 && p(newBody).Some?)
  {
    if 0 < |newBody| < TWO32 && p(newBody).Some? {
      SpliceChangesOneSegment(stream, idx, newBody, p);
    } else {
      SplicedLength(stream, idx, newBody, p);
      if |newBody| < TWO32 {
        assert newBody[..|newBody|] == newBody;
      }
    }
  }

  /** Only entry `idx` changed, to a body of `len` bytes. */
  ghost predicate Clean(segments: seq<Segment>, spliced: Option<seq<Segment>>, idx: nat, len: nat)
    requires idx < |segments|
  {
    && spliced.Some? && idx < |spliced.value|
    && OnlyChanges(segments, spliced.value, idx, len, spliced.value[idx].messages)
  }

  lemma SplicedLength(stream: Bytes, idx: nat, newBody: Bytes, p: BodyParser)
    requires ParseWith(stream, p).Some? && idx < |ParseWith(stream, p).value|
    ensures var segments := ParseWith(stream, p).value;
      && InBounds(segments[idx], stream)
      && var spliced := ParseWith(ReplaceSegment(stream, segments, idx, newBody), p);
      && (spliced.Some? && idx < |spliced.value| ==>
        && spliced.value[idx].len == Covered(newBody) > 0
        && p(newBody[..Covered(newBody)]).Some?)
  {
    SpliceParses(stream, idx, newBody, p);
    var spliced := Frames(ReplaceSegment(stream, ParseWith(stream, p).value, idx, newBody), p);
    if spliced.Some? && idx < |spliced.value| {
      LayoutPlaces(spliced.value, 0, idx);
    }
  }

  /** All of this for the message parser: a spliced stream's segments are predictable. */
  lemma ParseAfterSplice(stream: Bytes, idx: nat, newBody: Bytes)
    requires ParseFraming(stream).Some? && idx < |ParseFraming(stream).value|
    ensures Tiles(stream, ParseFraming(stream).value, BodyMessages)
    ensures var segments := ParseFraming(stream).value;
      && InBounds(segments[idx], stream)
      && var spliced := ParseFraming(ReplaceSegment(stream, segments, idx, newBody));
      && (Clean(segments, spliced, idx, |newBody|) <==> 0 < |newBody| < TWO32 && BodyMessages(newBody).Some?)
      && (Clean(segments, spliced, idx, |newBody|) ==> Some(spliced.value[idx].messages) == BodyMessages(newBody))
  {
    SegmentsTile(stream, BodyMessages);
    SpliceIsCleanExactly(stream, idx, newBody, BodyMessages);
    if 0 < |newBody| < TWO32 && BodyMessages(newBody).Some? {
      SpliceChangesOneSegment(stream, idx, newBody, BodyMessages);
    }
  }

  // ---------- the loop ----------

  /** The segments from `pos` on, at their absolute places. */
  function SegmentsFrom(stream: Bytes, pos: nat, p: BodyParser): Option<seq<Segment>>
    requires pos <= |stream|
  {
    match Frames(stream[pos..], p)
    case None => None
    case Some(frames) => Some(Layout(frames, pos))
  }

  /** `p` is the message parser. */
  ghost predicate ReadsMessages(p: BodyParser) {
    forall seg: Bytes {:trigger BodyMessages(seg)} :: p(seg) == BodyMessages(seg)
  }

  method Parse(stream: Bytes) returns (r: Option<seq<Segment>>)
    ensures r == ParseFraming(stream)
  {
    r := ParseRounds(stream, BodyMessages);
  }

  /** The loop over the stream, stated for the body parser its rounds use. */
  method ParseRounds(stream: Bytes, ghost p: BodyParser) returns (r: Option<seq<Segment>>)
    requires ReadsMessages(p)
    ensures r == ParseWith(stream, p)
  {
    var segments: seq<Segment> := [];
    var pos := 0;
    RoundsStart(stream, p);
    while true
      invariant 0 <= pos <= |stream|
      invariant Parsing(stream, pos, segments, p)
      decreases |stream| - pos
    {
      var next := NextSegment(stream, pos, p);
      match next
      case None =>
        RoundEnds(stream, pos, segments, p);
        return None;
      case Some(None) =>
        RoundEnds(stream, pos, segments, p);
        return Some(segments);
      case Some(Some(segment)) =>
        RoundAdvances(stream, pos, segments, segment, p);
        pos, segments := segment.body + segment.len, segments + [segment];
    }
  }

  /** The segments found so far, then those from `pos` on, are all of them. */
  ghost predicate Parsing(stream: Bytes, pos: nat, segments: seq<Segment>, p: BodyParser)
    requires pos <= |stream|
  {
    ParseWith(stream, p) == After(segments, SegmentsFrom(stream, pos, p))
  }

  lemma RoundsStart(stream: Bytes, p: BodyParser)
    ensures Parsing(stream, 0, [], p)
  {
    assert stream[0..] == stream;
    Prepended([], SegmentsFrom(stream, 0, p));
  }

  /** A round that finds no segment ends the loop with its result. */
  lemma RoundEnds(stream: Bytes, pos: nat, segments: seq<Segment>, p: BodyParser)
    requires pos <= |stream| && Parsing(stream, pos, segments, p)
    ensures NextOf(stream, pos, p) == None ==> ParseWith(stream, p) == None
    ensures NextOf(stream, pos, p) == Some(None) ==> ParseWith(stream, p) == Some(segments)
  {
    if NextOf(stream, pos, p) == None {
      NextPanics(stream, pos, p);
    }
    if NextOf(stream, pos, p) == Some(None) {
      NextIsEnd(stream, pos, p);
      Regroup(segments, [], []);
    }
  }

  /** A round that finds one moves it from what is left to what is done. */
  lemma RoundAdvances(stream: Bytes, pos: nat, segments: seq<Segment>, s: Segment, p: BodyParser)
    requires pos <= |stream| && Parsing(stream, pos, segments, p) && NextOf(stream, pos, p) == Some(Some(s))
    ensures pos < s.body + s.len <= |stream| && Parsing(stream, s.body + s.len, segments + [s], p)
  {
    NextIsFirst(stream, pos, s, p);
    AfterOne(segments, s, SegmentsFrom(stream, s.body + s.len, p));
  }

  /** What one round of the loop comes to: a panic, the terminator, or the next segment. */
  function NextOf(stream: Bytes, pos: nat, p: BodyParser): Option<Option<Segment>>
    requires pos <= |stream|
  {
    match U32At(stream, pos)
    case None => None
    case Some(len) =>
      if len == 0 then Some(None)
      else if pos + 4 + len > |stream| then None
      else
        match p(stream[pos + 4..pos + 4 + len])
        case None => None
        case Some(messages) => Some(Some(Segment(pos, pos + 4, len, messages)))
  }

  method NextSegment(stream: Bytes, pos: nat, ghost p: BodyParser) returns (r: Option<Option<Segment>>)
    requires pos <= |stream| && ReadsMessages(p)
    ensures r == NextOf(stream, pos, p)
  {
    var len := U32At(stream, pos);
    if len.None? {
      return None;
    }
    if len.value == 0 {
      return Some(None);
    }
    var body := pos + 4;
    if body + len.value > |stream| {
      return None;
    }
    var seg := stream[body..body + len.value];
    var messages := ParseMessages(seg);
    assert messages == BodyMessages(seg) == p(seg);
    if messages.None? {
      return None;
    }
    r := Some(Some(Segment(pos, body, len.value, messages.value)));
  }

  function Onto(s: Segment, later: Option<seq<Segment>>): Option<seq<Segment>> {
    if later.None? then None else Some([s] + later.value)
  }

  /** What the round reads at `pos` is what the remaining stream starts with. */
  lemma ReadsRemaining(stream: Bytes, pos: nat)
    requires pos <= |stream|
    ensures U32At(stream, pos) == U32At(stream[pos..], 0)
    ensures var len := U32At(stream, pos);
      len.Some? && pos + 4 + len.value <= |stream| ==>
        stream[pos..][4..4 + len.value] == stream[pos + 4..pos + 4 + len.value]
  {
    assert stream[..pos] + stream[pos..] == stream;
    ReadsPast(stream[..pos], stream[pos..], pos);
  }

  /** A round that panics: so does parsing what remains. */
  lemma NextPanics(stream: Bytes, pos: nat, p: BodyParser)
    requires pos <= |stream| && NextOf(stream, pos, p) == None
    ensures SegmentsFrom(stream, pos, p) == None
  {
    ReadsRemaining(stream, pos);
  }

  lemma NextIsEnd(stream: Bytes, pos: nat, p: BodyParser)
    requires pos <= |stream| && NextOf(stream, pos, p) == Some(None)
    ensures SegmentsFrom(stream, pos, p) == Some([])
  {
    ReadsRemaining(stream, pos);
  }

  /** A round that finds a segment finds the first of the remaining ones. */
  lemma NextIsFirst(stream: Bytes, pos: nat, s: Segment, p: BodyParser)
    requires pos <= |stream| && NextOf(stream, pos, p) == Some(Some(s))
    ensures pos < s.body + s.len <= |stream|
    ensures SegmentsFrom(stream, pos, p) == Onto(s, SegmentsFrom(stream, s.body + s.len, p))
  {
    ReadsRemaining(stream, pos);
    LaterSegments(stream, pos, s.messages, p);
  }

  lemma LaterSegments(stream: Bytes, pos: nat, messages: seq<Message>, p: BodyParser)
    requires pos <= |stream| && U32At(stream[pos..], 0).Some? && U32At(stream[pos..], 0).value > 0
    requires pos + 4 + U32At(stream[pos..], 0).value <= |stream|
    requires p(stream[pos..][4..4 + U32At(stream[pos..], 0).value]) == Some(messages)
    ensures var len := U32At(stream[pos..], 0).value;
      SegmentsFrom(stream, pos, p)
        == Onto(Segment(pos, pos + 4, len, messages), SegmentsFrom(stream, pos + 4 + len, p))
  {
    var len := U32At(stream[pos..], 0).value;
    assert stream[pos..][4 + len..] == stream[pos + 4 + len..];
    FramesUnfold(stream[pos..], len, p);
    var later := Frames(stream[pos + 4 + len..], p);
    if later.Some? {
      var f := Frame(stream[pos..][4..4 + len], messages);
      assert ([f] + later.value)[1..] == later.value;
    }
  }
}
