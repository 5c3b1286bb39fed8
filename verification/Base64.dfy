/**
  The base64 encoder used to embed schemas, against the alphabet, grouping and
  padding of section 4 of RFC 4648 and a decoder that accepts exactly its output.
*/
module Base64 {
  import opened Wrappers
  import opened ByteStrings
  import opened Sequences

  type Sextet = v: nat | v < 64

  /** The alphabet, as the table lists it. */
  function Digit(v: Sextet): char {
    match v
    case 0 => 'A' case 1 => 'B' case 2 => 'C' case 3 => 'D' case 4 => 'E' case 5 => 'F' case 6 => 'G' case 7 => 'H'
    case 8 => 'I' case 9 => 'J' case 10 => 'K' case 11 => 'L' case 12 => 'M' case 13 => 'N' case 14 => 'O' case 15 => 'P'
    case 16 => 'Q' case 17 => 'R' case 18 => 'S' case 19 => 'T' case 20 => 'U' case 21 => 'V' case 22 => 'W' case 23 => 'X'
    case 24 => 'Y' case 25 => 'Z' case 26 => 'a' case 27 => 'b' case 28 => 'c' case 29 => 'd' case 30 => 'e' case 31 => 'f'
    case 32 => 'g' case 33 => 'h' case 34 => 'i' case 35 => 'j' case 36 => 'k' case 37 => 'l' case 38 => 'm' case 39 => 'n'
    case 40 => 'o' case 41 => 'p' case 42 => 'q' case 43 => 'r' case 44 => 's' case 45 => 't' case 46 => 'u' case 47 => 'v'
    case 48 => 'w' case 49 => 'x' case 50 => 'y' case 51 => 'z' case 52 => '0' case 53 => '1' case 54 => '2' case 55 => '3'
    case 56 => '4' case 57 => '5' case 58 => '6' case 59 => '7' case 60 => '8' case 61 => '9' case 62 => '+' case 63 => '/'
  }

  /** The value of an alphabet character. */
  function DigitValue(c: char): Option<Sextet> {
    if 'A' <= c <= 'Z' then Some(c as int - 'A' as int)
    else if 'a' <= c <= 'z' then Some(c as int - 'a' as int + 26)
    else if '0' <= c <= '9' then Some(c as int - '0' as int + 52)
    else if c == '+' then Some(62)
    else if c == '/' then Some(63)
    else None
  }

  /** The decoder's values invert the table, and the pad is in neither. */
  lemma Alphabet(v: Sextet)
    ensures DigitValue(Digit(v)) == Some(v) && Digit(v) != '='
  {
  }

  lemma AlphabetIsComplete(c: char)
    requires DigitValue(c).Some?
    ensures Digit(DigitValue(c).value) == c
  {
  }

  // ---------- groups of three bytes ----------

  const GROUPS: nat := 0x100_0000

  type Quartet = (Sextet, Sextet, Sextet, Sextet)

  /** Three bytes as one 24-bit number, the first byte highest. */
  function Group(b0: Byte, b1: Byte, b2: Byte): nat {
    256 * (256 * b0 + b1) + b2
  }

  /** A 24-bit number as four sextets, the highest first. */
  function Split(g: nat): Quartet {
    (g / 64 / 64 / 64 % 64, g / 64 / 64 % 64, g / 64 % 64, g % 64)
  }

  function Number(v: Quartet): nat {
    64 * (64 * (64 * v.0 + v.1) + v.2) + v.3
  }

  lemma SplitNumber(v: Quartet)
    ensures Split(Number(v)) == v && Number(v) < GROUPS
  {
    var h := 64 * v.0 + v.1;
    var i := 64 * h + v.2;
    var g := 64 * i + v.3;
    assert g / 64 == i && g % 64 == v.3;
    assert i / 64 == h && i % 64 == v.2;
    assert h / 64 == v.0 && h % 64 == v.1;
  }

  lemma NumberSplit(g: nat)
    requires g < GROUPS
    ensures Number(Split(g)) == g
  {
    var i := g / 64;
    var h := i / 64;
    assert g == 64 * i + g % 64 && i == 64 * h + i % 64 && h == 64 * (h / 64) + h % 64;
    assert h / 64 < 64;
  }

  lemma ByteGroup(b0: Byte, b1: Byte, b2: Byte)
    ensures var g := Group(b0, b1, b2);
      g < GROUPS && g / 256 / 256 == b0 && g / 256 % 256 == b1 && g % 256 == b2
  {
    var h := 256 * b0 + b1;
    assert (256 * h + b2) / 256 == h;
  }

  /** Bytes past the end of the chunk count as zero. */
  function ByteAt(bytes: Bytes, i: nat): Byte {
    if i < |bytes| then bytes[i] else 0
  }

  function ChunkGroup(chunk: Bytes): nat {
    Group(ByteAt(chunk, 0), ByteAt(chunk, 1), ByteAt(chunk, 2))
  }

  /** The first `n` bytes of a group; the bits beyond them must be zero. */
  function Kept(g: nat, n: nat): Option<Bytes>
    requires g < GROUPS
  {
    var b0, b1, b2 := g / 256 / 256, g / 256 % 256, g % 256;
    if n == 3 then Some([b0, b1, b2])
    else if n == 2 then if b2 == 0 then Some([b0, b1]) else None
    else if b1 == 0 && b2 == 0 then Some([b0]) else None
  }

  lemma KeptChunk(chunk: Bytes)
    requires 1 <= |chunk| <= 3
    ensures ChunkGroup(chunk) < GROUPS && Kept(ChunkGroup(chunk), |chunk|) == Some(chunk)
  {
    ByteGroup(ByteAt(chunk, 0), ByteAt(chunk, 1), ByteAt(chunk, 2));
    assert |chunk| == 1 ==> chunk == [chunk[0]];
    assert |chunk| == 2 ==> chunk == [chunk[0], chunk[1]];
    assert |chunk| == 3 ==> chunk == [chunk[0], chunk[1], chunk[2]];
  }

  lemma ChunkKept(g: nat, n: nat)
    requires g < GROUPS && 1 <= n <= 3 && Kept(g, n).Some?
    ensures |Kept(g, n).value| == n && ChunkGroup(Kept(g, n).value) == g
  {
    var h := g / 256;
    assert g == 256 * h + g % 256 && h == 256 * (h / 256) + h % 256;
  }

  lemma Sixties(h: nat)
    ensures 64 * h % 64 == 0 && 64 * h / 64 == h
  {
  }

  /** What a short group leaves unused is zero. */
  lemma ZeroTail(b0: Byte, b1: Byte)
    ensures Split(Group(b0, b1, 0)).3 == 0 && Split(Group(b0, 0, 0)).2 == 0
  {
    var h := 4 * (256 * b0 + b1);
    assert Group(b0, b1, 0) == 64 * h;
    Sixties(h);
    var i := 16 * b0;
    assert Group(b0, 0, 0) == 64 * (64 * i);
    Sixties(64 * i);
    Sixties(i);
  }

  // ---------- codecs ----------

  /** An alphabet and its inverse, and a way to cut a 24-bit number into sextets and back. */
  datatype Codec = Codec(
    digit: Sextet -> char,
    value: char -> Option<Sextet>,
    split: nat -> Quartet,
    number: Quartet -> nat)

  const STANDARD := Codec(Digit, DigitValue, Split, Number)

  /** What makes a codec invertible, and its unused sextets zero. */
  ghost predicate Sound(k: Codec) {
    && (forall v: Sextet :: k.value(k.digit(v)) == Some(v))
    && (forall c :: k.value(c).Some? ==> k.digit(k.value(c).value) == c)
    && k.value('=') == None
    && (forall v: Quartet :: k.number(v) < GROUPS && k.split(k.number(v)) == v)
    && (forall g: nat :: g < GROUPS ==> k.number(k.split(g)) == g)
    && (forall chunk: Bytes :: 1 <= |chunk| <= 3 ==> Fits(k.split(ChunkGroup(chunk)), |chunk|))
  }

  predicate Fits(v: Quartet, n: nat) {
    1 <= n <= 3 && (n < 2 ==> v.2 == 0) && (n < 3 ==> v.3 == 0)
  }

  lemma StandardIsSound()
    ensures Sound(STANDARD)
  {
    forall v: Sextet ensures DigitValue(Digit(v)) == Some(v) {
      Alphabet(v);
    }
    forall c | DigitValue(c).Some? ensures Digit(DigitValue(c).value) == c {
      AlphabetIsComplete(c);
    }
    forall v: Quartet ensures Number(v) < GROUPS && Split(Number(v)) == v {
      SplitNumber(v);
    }
    forall g: nat | g < GROUPS ensures Number(Split(g)) == g {
      NumberSplit(g);
    }
    forall chunk: Bytes | 1 <= |chunk| <= 3 ensures Fits(Split(ChunkGroup(chunk)), |chunk|) {
      ZeroTail(ByteAt(chunk, 0), ByteAt(chunk, 1));
    }
  }

  // ---------- four characters at a time ----------

  /** The four characters of a group of `n` bytes: pads stand for the missing ones. */
  function Written(k: Codec, v: Quartet, n: nat): (q: string)
    ensures |q| == 4
  {
    [k.digit(v.0), k.digit(v.1), if n > 1 then k.digit(v.2) else '=', if n > 2 then k.digit(v.3) else '=']
  }

  /** The sextets four characters show, and how many bytes they hold. */
  function Shown(k: Codec, q: string): Option<(Quartet, nat)>
    requires |q| == 4
  {
    match (k.value(q[0]), k.value(q[1]), k.value(q[2]), k.value(q[3]))
    case (Some(v0), Some(v1), Some(v2), Some(v3)) => Some(((v0, v1, v2, v3), 3))
    case (Some(v0), Some(v1), Some(v2), None) => if q[3] == '=' then Some(((v0, v1, v2, 0), 2)) else None
    case (Some(v0), Some(v1), None, None) => if q[2] == '=' && q[3] == '=' then Some(((v0, v1, 0, 0), 1)) else None
    case _ => None
  }

  lemma ShownWritten(k: Codec, v: Quartet, n: nat)
    requires Sound(k) && Fits(v, n)
    ensures Shown(k, Written(k, v, n)) == Some((v, n))
  {
  }

  lemma WrittenShown(k: Codec, q: string)
    requires Sound(k) && |q| == 4 && Shown(k, q).Some?
    ensures var (v, n) := Shown(k, q).value;
      Fits(v, n) && Written(k, v, n) == q
  {
  }

  function WriteChunk(k: Codec, chunk: Bytes): (q: string)
    ensures |q| == 4
  {
    Written(k, k.split(ChunkGroup(chunk)), |chunk|)
  }

  function ReadChunk(k: Codec, q: string): Option<Bytes>
    requires |q| == 4
  {
    match Shown(k, q)
    case None => None
    case Some((v, n)) => if k.number(v) < GROUPS then Kept(k.number(v), n) else None
  }

  lemma ChunkReadBack(k: Codec, chunk: Bytes)
    requires Sound(k) && 1 <= |chunk| <= 3
    ensures ReadChunk(k, WriteChunk(k, chunk)) == Some(chunk)
  {
    KeptChunk(chunk);
    ShownWritten(k, k.split(ChunkGroup(chunk)), |chunk|);
  }

  lemma ChunkWrittenBack(k: Codec, q: string)
    requires Sound(k) && |q| == 4 && ReadChunk(k, q).Some?
    ensures var chunk := ReadChunk(k, q).value;
      1 <= |chunk| <= 3 && WriteChunk(k, chunk) == q
  {
    WrittenShown(k, q);
    var (v, n) := Shown(k, q).value;
    ChunkKept(k.number(v), n);
  }

  type Writer = Bytes -> string

  type Reader = string -> Option<Bytes>

  function WriterOf(k: Codec): Writer { chunk => WriteChunk(k, chunk) }

  function ReaderOf(k: Codec): Reader { q => if |q| == 4 then ReadChunk(k, q) else None }

  /** Chunks are read back as written and written back as read. */
  ghost predicate Inverse(write: Writer, read: Reader) {
    && (forall chunk: Bytes :: 1 <= |chunk| <= 3 ==> |write(chunk)| == 4 && read(write(chunk)) == Some(chunk))
    && (forall q: string :: |q| == 4 && read(q).Some? ==> 1 <= |read(q).value| <= 3 && write(read(q).value) == q)
  }

  /** The pads of a chunk's four characters are its missing bytes. */
  ghost predicate PadsChunks(write: Writer) {
    && (forall chunk: Bytes :: 1 <= |chunk| <= 3 ==> |write(chunk)| == 4)
    && (forall chunk: Bytes, i :: 1 <= |chunk| <= 3 && 0 <= i < 4 ==> (write(chunk)[i] == '=' <==> i > |chunk|))
  }

  lemma SoundChunks(k: Codec)
    requires Sound(k)
    ensures Inverse(WriterOf(k), ReaderOf(k)) && PadsChunks(WriterOf(k))
  {
    forall chunk: Bytes | 1 <= |chunk| <= 3 ensures ReadChunk(k, WriteChunk(k, chunk)) == Some(chunk) {
      ChunkReadBack(k, chunk);
    }
    forall q: string | |q| == 4 && ReadChunk(k, q).Some?
      ensures 1 <= |ReadChunk(k, q).value| <= 3 && WriteChunk(k, ReadChunk(k, q).value) == q
    {
      ChunkWrittenBack(k, q);
    }
    forall chunk: Bytes, i | 1 <= |chunk| <= 3 && 0 <= i < 4
      ensures WriteChunk(k, chunk)[i] == '=' <==> i > |chunk|
    {
      PadsOfChunk(k, chunk);
    }
  }

  lemma PadsOfChunk(k: Codec, chunk: Bytes)
    requires Sound(k) && 1 <= |chunk| <= 3
    ensures forall i :: 0 <= i < 4 ==> (WriteChunk(k, chunk)[i] == '=' <==> i > |chunk|)
  {
    var v := k.split(ChunkGroup(chunk));
    assert k.value(k.digit(v.0)).Some? && k.value(k.digit(v.1)).Some?;
    assert k.value(k.digit(v.2)).Some? && k.value(k.digit(v.3)).Some?;
  }

  // ---------- whole texts ----------

  function Least(a: nat, b: nat): nat { if a < b then a else b }

  /** The encoding of a byte string, chunk by chunk. */
  function Encoded(write: Writer, bytes: Bytes): string
    decreases |bytes|
  {
    if bytes == [] then ""
    else var n := Least(3, |bytes|); write(bytes[..n]) + Encoded(write, bytes[n..])
  }

  /** Groups of four characters; a group of fewer than three bytes must be the last. */
  function Decoded(read: Reader, s: string): Option<Bytes>
    decreases |s|
  {
    if s == "" then Some([])
    else if |s| < 4 then None
    else
      match read(s[..4])
      case None => None
      case Some(chunk) =>
        if |chunk| < 3 then if |s| == 4 then Some(chunk) else None
        else
          match Decoded(read, s[4..])
          case None => None
          case Some(rest) => Some(chunk + rest)
  }

  lemma FirstQuad(read: Reader, q: string, rest: string)
    requires |q| == 4 && read(q).Some? && Decoded(read, rest).Some?
    requires |read(q).value| >= 3 || rest == ""
    ensures Decoded(read, q + rest) == Some(read(q).value + Decoded(read, rest).value)
  {
    assert (q + rest)[..4] == q && (q + rest)[4..] == rest;
    assert read(q).value + [] == read(q).value;
  }

  lemma {:induction false} DecodesBack(write: Writer, read: Reader, bytes: Bytes)
    requires Inverse(write, read)
    ensures Decoded(read, Encoded(write, bytes)) == Some(bytes)
    decreases |bytes|
  {
    if bytes != [] {
      var n := Least(3, |bytes|);
      DecodesBack(write, read, bytes[n..]);
      FirstQuad(read, write(bytes[..n]), Encoded(write, bytes[n..]));
      assert bytes == bytes[..n] + bytes[n..];
    }
  }

  lemma {:induction false} EncodesBack(write: Writer, read: Reader, s: string)
    requires Inverse(write, read) && Decoded(read, s).Some?
    ensures Encoded(write, Decoded(read, s).value) == s
    decreases |s|
  {
    if s != "" {
      var chunk, bytes := read(s[..4]).value, Decoded(read, s).value;
      assert s == s[..4] + s[4..];
      if |chunk| < 3 {
        assert bytes[..|chunk|] == chunk && bytes[|chunk|..] == [];
      } else {
        EncodesBack(write, read, s[4..]);
        assert bytes[..3] == chunk && bytes[3..] == Decoded(read, s[4..]).value;
      }
    }
  }

  /** The decoder accepts exactly the encodings, each for the bytes it encodes. */
  lemma DecodesExactly(s: string, bytes: Bytes)
    ensures Decoded(ReaderOf(STANDARD), s) == Some(bytes) <==> s == Encoded(WriterOf(STANDARD), bytes)
  {
    StandardIsSound();
    SoundChunks(STANDARD);
    InvertsExactly(WriterOf(STANDARD), ReaderOf(STANDARD), s, bytes);
  }

  lemma InvertsExactly(write: Writer, read: Reader, s: string, bytes: Bytes)
    requires Inverse(write, read)
    ensures Decoded(read, s) == Some(bytes) <==> s == Encoded(write, bytes)
  {
    DecodesBack(write, read, bytes);
    if Decoded(read, s) == Some(bytes) {
      EncodesBack(write, read, s);
    }
  }

  function Pads(n: nat): nat {
    if n % 3 == 0 then 0 else 3 - n % 3
  }

  /** The pads of a text are its last `pads` characters and no others. */
  ghost predicate PaddedBy(s: string, pads: nat) {
    forall i :: 0 <= i < |s| ==> (s[i] == '=' <==> i >= |s| - pads)
  }

  lemma FirstChunk(write: Writer, chunk: Bytes, rest: Bytes)
    requires 1 <= |chunk| <= 3 && (|chunk| == 3 || rest == [])
    ensures Encoded(write, chunk + rest) == write(chunk) + Encoded(write, rest)
  {
    assert (chunk + rest)[..|chunk|] == chunk && (chunk + rest)[|chunk|..] == rest;
  }

  lemma PadsAppended(quad: string, later: string, pads: nat)
    requires |quad| == 4 && PaddedBy(later, pads) && pads <= |later|
    requires forall i :: 0 <= i < 4 ==> quad[i] != '='
    ensures PaddedBy(quad + later, pads)
  {
    var s := quad + later;
    assert forall i :: 4 <= i < |s| ==> s[i] == later[i - 4];
  }

  lemma LastQuad(quad: string, n: nat)
    requires |quad| == 4 && 1 <= n <= 3 && forall i :: 0 <= i < 4 ==> (quad[i] == '=' <==> i > n)
    ensures PaddedBy(quad, Pads(n))
  {
  }

  lemma {:induction false} PaddedLength(write: Writer, bytes: Bytes)
    requires PadsChunks(write)
    ensures |Encoded(write, bytes)| == (|bytes| + 2) / 3 * 4
    ensures PaddedBy(Encoded(write, bytes), Pads(|bytes|))
    decreases |bytes|
  {
    if bytes != [] {
      var n := Least(3, |bytes|);
      var quad, later := write(bytes[..n]), Encoded(write, bytes[n..]);
      assert |quad| == 4 && forall i :: 0 <= i < 4 ==> (quad[i] == '=' <==> i > n);
      if |bytes| <= 3 {
        LastQuad(quad, n);
        assert later == "" && quad + later == quad;
      } else {
        PaddedLength(write, bytes[3..]);
        PadsAppended(quad, later, Pads(|bytes|));
      }
    }
  }

  /** Four characters for every three bytes begun; pads fill the last group, by the length modulo three, and occur nowhere else. */
  lemma LengthAndPadding(bytes: Bytes)
    ensures var s := Encoded(WriterOf(STANDARD), bytes);
      |s| == (|bytes| + 2) / 3 * 4 && PaddedBy(s, Pads(|bytes|))
  {
    StandardIsSound();
    SoundChunks(STANDARD);
    PaddedLength(WriterOf(STANDARD), bytes);
  }

  /** What is left to encode at `i`, after one more chunk. */
  lemma NextChunk(write: Writer, bytes: Bytes, i: nat, end: nat)
    requires i < |bytes| && end == i + Least(3, |bytes| - i)
    ensures Encoded(write, bytes[i..]) == write(bytes[i..end]) + Encoded(write, bytes[end..])
  {
    assert bytes[i..] == bytes[i..end] + bytes[end..];
    FirstChunk(write, bytes[i..end], bytes[end..]);
  }

  // ---------- the encoder ----------

  /** The sextets as the encoder cuts them, by shifts and masks of the bytes. */
  function Cut0(b0: Byte): Sextet { b0 / 4 }

  function Cut1(b0: Byte, b1: Byte): Sextet { b0 % 4 * 16 + b1 / 16 }

  function Cut2(b1: Byte, b2: Byte): Sextet { b1 % 16 * 4 + b2 / 64 }

  function Cut3(b2: Byte): Sextet { b2 % 64 }

  /** Cutting byte by byte gives the sextets of the 24-bit group. */
  lemma SplitByCuts(b0: Byte, b1: Byte, b2: Byte)
    ensures Split(Group(b0, b1, b2)) == (Cut0(b0), Cut1(b0, b1), Cut2(b1, b2), Cut3(b2))
  {
    var q0, r0, q1, r1, q2, r2 := b0 / 4, b0 % 4, b1 / 16, b1 % 16, b2 / 64, b2 % 64;
    assert b0 == 4 * q0 + r0 && b1 == 16 * q1 + r1 && b2 == 64 * q2 + r2;
    var v := (Cut0(b0), Cut1(b0, b1), Cut2(b1, b2), Cut3(b2));
    assert Group(b0, b1, b2) == Number(v);
    SplitNumber(v);
  }

  ghost predicate ByCuts(k: Codec) {
    forall b0: Byte, b1: Byte, b2: Byte ::
      k.split(Group(b0, b1, b2)) == (Cut0(b0), Cut1(b0, b1), Cut2(b1, b2), Cut3(b2))
  }

  lemma StandardByCuts()
    ensures ByCuts(STANDARD)
  {
    forall b0: Byte, b1: Byte, b2: Byte
      ensures Split(Group(b0, b1, b2)) == (Cut0(b0), Cut1(b0, b1), Cut2(b1, b2), Cut3(b2))
    {
      SplitByCuts(b0, b1, b2);
    }
  }

  /** One chunk, the bytes past its end read as zero. */
  method EncodeChunk(k: Codec, ghost write: Writer, chunk: Bytes) returns (quad: string)
    requires ByCuts(k) && write == WriterOf(k) && 1 <= |chunk| <= 3
    ensures quad == write(chunk)
  {
    var b0 := chunk[0];
    var b1 := if |chunk| > 1 then chunk[1] else 0;
    var b2 := if |chunk| > 2 then chunk[2] else 0;
    assert ChunkGroup(chunk) == Group(b0, b1, b2);
    quad := [k.digit(Cut0(b0)), k.digit(Cut1(b0, b1))];
    quad := quad + [if |chunk| > 1 then k.digit(Cut2(b1, b2)) else '='];
    quad := quad + [if |chunk| > 2 then k.digit(Cut3(b2)) else '='];
  }

  /** The loop over chunks of three bytes, the last possibly shorter. */
  method Encode(k: Codec, ghost write: Writer, bytes: Bytes) returns (out: string)
    requires ByCuts(k) && write == WriterOf(k)
    ensures out == Encoded(write, bytes)
  {
    out := "";
    var i := 0;
    assert bytes[0..] == bytes;
    Regroup("", "", Encoded(write, bytes));
    while i < |bytes|
      invariant 0 <= i <= |bytes|
      invariant Encoded(write, bytes) == out + Encoded(write, bytes[i..])
    {
      var end := i + Least(3, |bytes| - i);
      var quad := EncodeChunk(k, write, bytes[i..end]);
      NextChunk(write, bytes, i, end);
      Regroup(out, quad, Encoded(write, bytes[end..]));
      out := out + quad;
      i := end;
    }
    Regroup(out, "", "");
  }

  method Base64(bytes: Bytes) returns (out: string)
    ensures out == Encoded(WriterOf(STANDARD), bytes)
  {
    StandardByCuts();
    out := Encode(STANDARD, WriterOf(STANDARD), bytes);
  }
}
