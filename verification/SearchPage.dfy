/**
  The one-pass reader behind the site's search index: it sees start tags, end
  tags and text in document order and files every text under the page title, the
  breadcrumb, a section heading or a section's prose.

  The machine keeps counters and flags; the meaning of a document is given by
  where each text stands in the tree.
*/
module SearchPage {
  import opened Sequences

  /** An attribute written without a value reads as the empty string. */
  type Attrs = map<string, string>

  datatype Event = Start(tag: string, attrs: Attrs) | Close(tag: string) | Data(text: string)

  datatype Block = Block(id: string, heading: string, text: seq<string>)

  type Blocks = b: seq<Block> | |b| > 0 witness [Block("", "", [])]

  /** What a page has yielded so far. */
  datatype Content = Content(title: string, area: string, group: string, blocks: Blocks)

  datatype State = State(out: Content, inTitle: bool, inH2: bool, main: nat, skip: nat, crumbAt: nat)

  const INIT := State(Content("", "", "", [Block("", "", [])]), false, false, 0, 0, 0)

  const SKIP := {"script", "style", "svg", "button", "noscript", "nav"}

  const BLOCK := {
    "p", "div", "br", "li", "ul", "ol", "dl", "dt", "dd", "pre", "table",
    "tr", "td", "th", "thead", "tbody", "section", "article", "figure",
    "blockquote", "h1", "h2", "h3", "h4", "h5", "h6"}

  function Value(attrs: Attrs, name: string): string {
    if name in attrs then attrs[name] else ""
  }

  predicate StartsAt(text: string, part: string, i: nat) {
    i + |part| <= |text| && text[i..i + |part|] == part
  }

  predicate Contains(text: string, part: string) {
    exists i :: 0 <= i <= |text| && StartsAt(text, part, i)
  }

  predicate IsBreadcrumb(tag: string, attrs: Attrs) {
    tag == "nav" && Contains(Value(attrs, "class"), "breadcrumb")
  }

  predicate IsContent(tag: string, attrs: Attrs) {
    tag == "main" && Value(attrs, "id") == "content"
  }

  // ---------- the machine ----------

  function AddText(blocks: Blocks, data: string): Blocks {
    var last := |blocks| - 1;
    blocks[last := blocks[last].(text := blocks[last].text + [data])]
  }

  function AddHeading(blocks: Blocks, data: string): Blocks {
    var last := |blocks| - 1;
    blocks[last := blocks[last].(heading := blocks[last].heading + data)]
  }

  function NewBlock(blocks: Blocks, id: string): Blocks {
    blocks + [Block(id, "", [])]
  }

  function OnStart(s: State, tag: string, attrs: Attrs): State {
    if s.main == 0 then
      if tag == "title" then s.(inTitle := true)
      else if tag == "body" then s.(out := s.out.(area := Value(attrs, "data-area")))
      else if IsContent(tag, attrs) then s.(main := 1)
      else s
    else if s.skip != 0 then
      if tag in SKIP then s.(skip := s.skip + 1) else s
    else if tag in SKIP then
      s.(skip := 1, crumbAt := if IsBreadcrumb(tag, attrs) then 1 else s.crumbAt)
    else if tag == "main" then s.(main := s.main + 1)
    else if tag == "h2" then s.(out := s.out.(blocks := NewBlock(s.out.blocks, Value(attrs, "id"))), inH2 := true)
    else if tag in BLOCK then s.(out := s.out.(blocks := AddText(s.out.blocks, " ")))
    else s
  }

  function OnClose(s: State, tag: string): State {
    if s.main == 0 then
      if tag == "title" then s.(inTitle := false) else s
    else if s.skip != 0 then
      if tag in SKIP then
        s.(skip := s.skip - 1, crumbAt := if s.crumbAt == s.skip then 0 else s.crumbAt)
      else s
    else if tag == "main" then s.(main := s.main - 1)
    else if tag == "h2" then s.(inH2 := false)
    else if tag in BLOCK then s.(out := s.out.(blocks := AddText(s.out.blocks, " ")))
    else s
  }

  function OnData(s: State, data: string): State {
    if s.inTitle then s.(out := s.out.(title := s.out.title + data))
    else if s.crumbAt != 0 then s.(out := s.out.(group := s.out.group + data))
    else if s.main != 0 && s.skip == 0 then
      if s.inH2 then s.(out := s.out.(blocks := AddHeading(s.out.blocks, data)))
      else s.(out := s.out.(blocks := AddText(s.out.blocks, data)))
    else s
  }

  function Step(s: State, e: Event): State {
    match e
    case Start(tag, attrs) => OnStart(s, tag, attrs)
    case Close(tag) => OnClose(s, tag)
    case Data(data) => OnData(s, data)
  }

  function Feed(s: State, events: seq<Event>): State
    decreases |events|
  {
    if events == [] then s else Feed(Step(s, events[0]), events[1..])
  }

  lemma {:induction false} FeedConcat(s: State, a: seq<Event>, b: seq<Event>)
    ensures Feed(s, a + b) == Feed(Feed(s, a), b)
    decreases |a|
  {
    if a == [] {
      assert a + b == b;
    } else {
      assert (a + b)[1..] == a[1..] + b;
      FeedConcat(Step(s, a[0]), a[1..], b);
    }
  }

  /** Nothing is skipped outside the content, and a breadcrumb is open only inside a skipped subtree. */
  predicate Inv(s: State) {
    && (s.main == 0 ==> s.skip == 0)
    && (s.skip == 0 ==> s.crumbAt == 0)
    && s.crumbAt <= 1
  }

  /** Holds on every stream of events, well nested or not. */
  lemma {:induction false} FeedKeepsInv(s: State, events: seq<Event>)
    requires Inv(s)
    ensures Inv(Feed(s, events))
    decreases |events|
  {
    if events != [] {
      FeedKeepsInv(Step(s, events[0]), events[1..]);
    }
  }

  // ---------- what a run files, piece by piece ----------

  datatype Place = InTitle | InCrumb | InHeading | InProse | Dropped

  /** One thing done to the page: its area is set, a section starts, or a text is filed. */
  datatype Piece = Area(area: string) | Break(id: string) | Put(place: Place, text: string)

  function Deposit(c: Content, p: Piece): Content {
    match p
    case Area(a) => c.(area := a)
    case Break(id) => c.(blocks := NewBlock(c.blocks, id))
    case Put(InTitle, t) => c.(title := c.title + t)
    case Put(InCrumb, t) => c.(group := c.group + t)
    case Put(InHeading, t) => c.(blocks := AddHeading(c.blocks, t))
    case Put(InProse, t) => c.(blocks := AddText(c.blocks, t))
    case Put(Dropped, _) => c
  }

  function DepositAll(c: Content, pieces: seq<Piece>): Content
    decreases |pieces|
  {
    if pieces == [] then c else DepositAll(Deposit(c, pieces[0]), pieces[1..])
  }

  function PlaceNow(s: State): Place {
    if s.inTitle then InTitle
    else if s.crumbAt != 0 then InCrumb
    else if s.main != 0 && s.skip == 0 then if s.inH2 then InHeading else InProse
    else Dropped
  }

  /** What one event files. */
  function Deed(s: State, e: Event): seq<Piece> {
    match e
    case Data(data) => [Put(PlaceNow(s), data)]
    case Start(tag, attrs) =>
      if s.main == 0 then if tag == "body" then [Area(Value(attrs, "data-area"))] else []
      else if s.skip != 0 then []
      else Opening(tag, attrs)
    case Close(tag) =>
      if s.main == 0 || s.skip != 0 then [] else Closing(tag)
  }

  /** A start tag met in visible content. */
  function Opening(tag: string, attrs: Attrs): seq<Piece> {
    if tag in SKIP || tag == "main" then []
    else if tag == "h2" then [Break(Value(attrs, "id"))]
    else if tag in BLOCK then [Put(InProse, " ")]
    else []
  }

  function Closing(tag: string): seq<Piece> {
    if tag in BLOCK && tag != "h2" && tag != "main" then [Put(InProse, " ")] else []
  }

  function Trace(s: State, events: seq<Event>): seq<Piece>
    decreases |events|
  {
    if events == [] then [] else Deed(s, events[0]) + Trace(Step(s, events[0]), events[1..])
  }

  lemma {:induction false} TraceConcat(s: State, a: seq<Event>, b: seq<Event>)
    ensures Trace(s, a + b) == Trace(s, a) + Trace(Feed(s, a), b)
    decreases |a|
  {
    if a == [] {
      assert a + b == b;
    } else {
      var e, rest := a[0], a[1..];
      assert (a + b)[0] == e && (a + b)[1..] == rest + b;
      TraceConcat(Step(s, e), rest, b);
      Regroup(Deed(s, e), Trace(Step(s, e), rest), Trace(Feed(s, a), b));
    }
  }

  lemma {:induction false} DepositConcat(c: Content, a: seq<Piece>, b: seq<Piece>)
    ensures DepositAll(c, a + b) == DepositAll(DepositAll(c, a), b)
    decreases |a|
  {
    if a == [] {
      assert a + b == b;
    } else {
      assert (a + b)[1..] == a[1..] + b;
      DepositConcat(Deposit(c, a[0]), a[1..], b);
    }
  }

  lemma StepDeposits(s: State, e: Event)
    ensures Step(s, e).out == DepositAll(s.out, Deed(s, e))
  {
    var deed := Deed(s, e);
    assert |deed| <= 1;
    if deed != [] {
      assert deed[1..] == [];
      assert DepositAll(s.out, deed) == Deposit(s.out, deed[0]);
    }
  }

  /** On every stream of events the page holds exactly what its trace files. */
  lemma {:induction false} FeedDeposits(s: State, events: seq<Event>)
    ensures Feed(s, events).out == DepositAll(s.out, Trace(s, events))
    decreases |events|
  {
    if events != [] {
      var next := Step(s, events[0]);
      StepDeposits(s, events[0]);
      FeedDeposits(next, events[1..]);
      DepositConcat(s.out, Deed(s, events[0]), Trace(next, events[1..]));
    }
  }

  // ---------- sections ----------

  function Joined(pieces: seq<Piece>, place: Place): string {
    if pieces == [] then ""
    else (if pieces[0].Put? && pieces[0].place == place then pieces[0].text else "") + Joined(pieces[1..], place)
  }

  function Listed(pieces: seq<Piece>, place: Place): seq<string> {
    if pieces == [] then []
    else (if pieces[0].Put? && pieces[0].place == place then [pieces[0].text] else []) + Listed(pieces[1..], place)
  }

  ghost predicate Unbroken(pieces: seq<Piece>) {
    forall i :: 0 <= i < |pieces| ==> !pieces[i].Break?
  }

  lemma {:induction false} TitleAndGroup(c: Content, pieces: seq<Piece>)
    ensures DepositAll(c, pieces).title == c.title + Joined(pieces, InTitle)
    ensures DepositAll(c, pieces).group == c.group + Joined(pieces, InCrumb)
    decreases |pieces|
  {
    if pieces != [] {
      TitleAndGroup(Deposit(c, pieces[0]), pieces[1..]);
    }
  }

  /** A block with more pieces of its section. */
  function Extended(b: Block, pieces: seq<Piece>): Block {
    Block(b.id, b.heading + Joined(pieces, InHeading), b.text + Listed(pieces, InProse))
  }

  lemma ExtendedStep(b: Block, pieces: seq<Piece>)
    requires pieces != []
    ensures Extended(b, pieces) == Extended(Extended(b, [pieces[0]]), pieces[1..])
  {
    var first, rest := [pieces[0]], pieces[1..];
    assert first[1..] == [];
    assert Joined(pieces, InHeading) == Joined(first, InHeading) + Joined(rest, InHeading);
    assert Listed(pieces, InProse) == Listed(first, InProse) + Listed(rest, InProse);
  }

  lemma DepositExtends(c: Content, p: Piece)
    requires !p.Break?
    ensures var n := |c.blocks| - 1;
      Deposit(c, p).blocks == c.blocks[..n] + [Extended(c.blocks[n], [p])]
  {
    var n := |c.blocks| - 1;
    var b := c.blocks[n];
    assert [p][1..] == [];
    assert b.heading + "" == b.heading && b.text + [] == b.text;
    var heading := if p.Put? && p.place == InHeading then p.text else "";
    var text := if p.Put? && p.place == InProse then [p.text] else [];
    assert Joined([p], InHeading) == heading + "" == heading;
    assert Listed([p], InProse) == text + [] == text;
    assert c.blocks == c.blocks[..n] + [b];
    assert Deposit(c, p).blocks[n] == Extended(b, [p]);
  }

  /** Within a section the heading texts are joined and the prose texts listed, in order. */
  lemma {:induction false} WithinSection(c: Content, pieces: seq<Piece>)
    requires Unbroken(pieces)
    ensures var n := |c.blocks| - 1;
      DepositAll(c, pieces).blocks == c.blocks[..n] + [Extended(c.blocks[n], pieces)]
    decreases |pieces|
  {
    var n := |c.blocks| - 1;
    if pieces == [] {
      assert c.blocks[n].heading + "" == c.blocks[n].heading && c.blocks[n].text + [] == c.blocks[n].text;
    } else {
      var next := Deposit(c, pieces[0]);
      DepositExtends(c, pieces[0]);
      ExtendedStep(c.blocks[n], pieces);
      assert forall i :: 0 <= i < |pieces[1..]| ==> pieces[1..][i] == pieces[i + 1];
      WithinSection(next, pieces[1..]);
      assert next.blocks[..n] == c.blocks[..n];
    }
  }

  /** The texts after the last section break make up the last block; the blocks before it are closed. */
  lemma LastSection(c: Content, before: seq<Piece>, id: string, after: seq<Piece>)
    requires Unbroken(after)
    ensures DepositAll(c, before + [Break(id)] + after).blocks ==
      DepositAll(c, before).blocks + [Block(id, Joined(after, InHeading), Listed(after, InProse))]
  {
    var closed := DepositAll(c, before);
    DepositConcat(c, before + [Break(id)], after);
    DepositConcat(c, before, [Break(id)]);
    assert DepositAll(closed, [Break(id)]) == Deposit(closed, Break(id));
    WithinSection(Deposit(closed, Break(id)), after);
    assert NewBlock(closed.blocks, id)[..|closed.blocks|] == closed.blocks;
    assert "" + Joined(after, InHeading) == Joined(after, InHeading);
    assert [] + Listed(after, InProse) == Listed(after, InProse);
  }

  // ---------- documents ----------

  /** A list of siblings: texts, void elements and elements with their contents. */
  datatype Markup =
    | Nothing
    | Text(data: string, next: Markup)
    | Void(tag: string, attrs: Attrs, next: Markup)
    | Element(tag: string, attrs: Attrs, inside: Markup, next: Markup)

  /** The elements HTML gives no end tag. */
  const VOID := {
    "area", "base", "br", "col", "embed", "hr", "img", "input", "link", "meta", "source", "track", "wbr"}

  predicate WellNested(m: Markup) {
    match m
    case Nothing => true
    case Text(_, next) => WellNested(next)
    case Void(tag, _, next) => tag in VOID && WellNested(next)
    case Element(_, _, inside, next) => WellNested(inside) && WellNested(next)
  }

  function Tags(m: Markup): seq<Event> {
    match m
    case Nothing => []
    case Text(data, next) => [Data(data)] + Tags(next)
    case Void(tag, attrs, next) => [Start(tag, attrs)] + Tags(next)
    case Element(tag, attrs, inside, next) => [Start(tag, attrs)] + Tags(inside) + [Close(tag)] + Tags(next)
  }

  // ---------- where a text belongs ----------

  /** Where in the document something stands, as far as its ancestors tell. */
  datatype Context = Beyond | TitleText | Body | HeadingText | CrumbText | Hidden

  predicate Outer(c: Context) { c.Beyond? || c.TitleText? }

  predicate Visible(c: Context) { c.Body? || c.HeadingText? }

  function Inner(c: Context, tag: string, attrs: Attrs): Context {
    if Outer(c) then
      if tag == "title" then TitleText else if IsContent(tag, attrs) then Body else c
    else if Visible(c) then
      if tag in SKIP then if IsBreadcrumb(tag, attrs) then CrumbText else Hidden
      else if tag == "h2" then HeadingText
      else c
    else c
  }

  function Home(c: Context): Place {
    match c
    case TitleText => InTitle
    case Body => InProse
    case HeadingText => InHeading
    case CrumbText => InCrumb
    case _ => Dropped
  }

  function Before(c: Context, tag: string, attrs: Attrs): seq<Piece> {
    if Outer(c) then if tag == "body" then [Area(Value(attrs, "data-area"))] else []
    else if Visible(c) then Opening(tag, attrs)
    else []
  }

  function After(c: Context, tag: string): seq<Piece> {
    if Visible(c) && tag !in SKIP then Closing(tag) else []
  }

  /** What a document says: every text in the place its ancestors give it. */
  function Meaning(m: Markup, c: Context): seq<Piece> {
    match m
    case Nothing => []
    case Text(data, next) => [Put(Home(c), data)] + Meaning(next, c)
    case Void(tag, attrs, next) => Before(c, tag, attrs) + Meaning(next, c)
    case Element(tag, attrs, inside, next) =>
      Before(c, tag, attrs) + Meaning(inside, Inner(c, tag, attrs)) + After(c, tag) + Meaning(next, c)
  }

  // ---------- what the machine does on a document ----------

  /** A title element outside the content. */
  predicate HasTitle(m: Markup, c: Context) {
    match m
    case Nothing => false
    case Text(_, next) => HasTitle(next, c)
    case Void(_, _, next) => HasTitle(next, c)
    case Element(tag, attrs, inside, next) =>
      (Outer(c) && tag == "title") || HasTitle(inside, Inner(c, tag, attrs)) || HasTitle(next, c)
  }

  /** A section heading in the content, outside skipped subtrees. */
  predicate HasHeading(m: Markup, c: Context) {
    match m
    case Nothing => false
    case Text(_, next) => HasHeading(next, c)
    case Void(_, _, next) => HasHeading(next, c)
    case Element(tag, attrs, inside, next) =>
      (Visible(c) && tag == "h2") || HasHeading(inside, Inner(c, tag, attrs)) || HasHeading(next, c)
  }

  /** The counters say where the machine stands. */
  predicate Fits(s: State, c: Context) {
    match c
    case Beyond => s.main == 0 && s.skip == 0 && s.crumbAt == 0
    case TitleText => s.main == 0 && s.skip == 0 && s.crumbAt == 0
    case Body => s.main > 0 && s.skip == 0 && s.crumbAt == 0
    case HeadingText => s.main > 0 && s.skip == 0 && s.crumbAt == 0
    case CrumbText => s.main > 0 && s.skip > 0 && s.crumbAt == 1
    case Hidden => s.main > 0 && s.skip > 0 && s.crumbAt == 0
  }

  predicate SameCounters(a: State, b: State) {
    a.main == b.main && a.skip == b.skip && a.crumbAt == b.crumbAt
  }

  function Actual(c: Context, title: bool, heading: bool): Place {
    if title then InTitle
    else if Visible(c) then if heading then InHeading else InProse
    else if c.CrumbText? then InCrumb
    else Dropped
  }

  /** Where the two flags send every text. */
  function Routed(m: Markup, c: Context, title: bool, heading: bool): seq<Piece> {
    match m
    case Nothing => []
    case Text(data, next) => [Put(Actual(c, title, heading), data)] + Routed(next, c, title, heading)
    case Void(tag, attrs, next) => Before(c, tag, attrs) + Routed(next, c, title, heading)
    case Element(tag, attrs, inside, next) =>
      var inner := Inner(c, tag, attrs);
      var opensTitle, opensHeading := Outer(c) && tag == "title", Visible(c) && tag == "h2";
      Before(c, tag, attrs) + Routed(inside, inner, title || opensTitle, heading || opensHeading) + After(c, tag) +
      Routed(next, c, title && !opensTitle && !HasTitle(inside, inner),
             heading && !opensHeading && !HasHeading(inside, inner))
  }

  lemma OpenTag(s: State, c: Context, tag: string, attrs: Attrs)
    requires Fits(s, c)
    ensures var t := Step(s, Start(tag, attrs));
      && Fits(t, Inner(c, tag, attrs))
      && t.inTitle == (s.inTitle || (Outer(c) && tag == "title"))
      && t.inH2 == (s.inH2 || (Visible(c) && tag == "h2"))
    ensures Deed(s, Start(tag, attrs)) == Before(c, tag, attrs)
  {
    assert "h2" !in SKIP && "title" !in SKIP;
  }

  lemma Textual(s: State, c: Context, data: string)
    requires Fits(s, c)
    ensures var t := Step(s, Data(data)); SameCounters(s, t) && t.inTitle == s.inTitle && t.inH2 == s.inH2
    ensures Deed(s, Data(data)) == [Put(Actual(c, s.inTitle, s.inH2), data)]
  {
  }

  lemma VoidTag(s: State, c: Context, tag: string, attrs: Attrs)
    requires Fits(s, c) && tag in VOID
    ensures var t := Step(s, Start(tag, attrs));
      SameCounters(s, t) && t.inTitle == s.inTitle && t.inH2 == s.inH2
    ensures Deed(s, Start(tag, attrs)) == Before(c, tag, attrs)
  {
    assert VOID !! SKIP && "title" !in VOID && "main" !in VOID && "h2" !in VOID;
  }

  /** An end tag undoes what the start tag did to the counters, and clears its flag. */
  lemma CloseTag(s: State, entered: State, c: Context, tag: string, attrs: Attrs)
    requires Fits(s, c) && SameCounters(entered, Step(s, Start(tag, attrs)))
    ensures var t := Step(entered, Close(tag));
      && SameCounters(s, t)
      && t.inTitle == (entered.inTitle && !(Outer(c) && tag == "title"))
      && t.inH2 == (entered.inH2 && !(Visible(c) && tag == "h2"))
    ensures Deed(entered, Close(tag)) == After(c, tag)
  {
    CloseFiles(s, entered, c, tag, attrs);
  }

  lemma CloseFiles(s: State, entered: State, c: Context, tag: string, attrs: Attrs)
    requires Fits(s, c) && SameCounters(entered, Step(s, Start(tag, attrs)))
    ensures Deed(entered, Close(tag)) == After(c, tag)
  {
  }

  /**
    On a well-nested list of siblings: the counters end where they started, a
    flag survives exactly when no element of its kind was met, and every piece
    goes where the flags and the ancestors say.
  */
  lemma SubtreeRestores(m: Markup, c: Context, s: State)
    requires WellNested(m) && Fits(s, c)
    ensures var t := Feed(s, Tags(m));
      && SameCounters(s, t)
      && t.inTitle == (s.inTitle && !HasTitle(m, c))
      && t.inH2 == (s.inH2 && !HasHeading(m, c))
    ensures Trace(s, Tags(m)) == Routed(m, c, s.inTitle, s.inH2)
  {
    FlagsRestore(m, c, s);
    PiecesRouted(m, c, s);
  }

  lemma {:induction false} FlagsRestore(m: Markup, c: Context, s: State)
    requires WellNested(m) && Fits(s, c)
    ensures var t := Feed(s, Tags(m));
      && SameCounters(s, t)
      && t.inTitle == (s.inTitle && !HasTitle(m, c))
      && t.inH2 == (s.inH2 && !HasHeading(m, c))
    decreases m, 1
  {
    match m
    case Nothing =>
    case Text(data, next) =>
      Textual(s, c, data);
      FirstEvent(s, Data(data), Tags(next));
      FlagsRestore(next, c, Step(s, Data(data)));
    case Void(tag, attrs, next) =>
      VoidTag(s, c, tag, attrs);
      FirstEvent(s, Start(tag, attrs), Tags(next));
      FlagsRestore(next, c, Step(s, Start(tag, attrs)));
    case Element(_, _, _, _) =>
      ElementFlags(m, c, s);
  }

  lemma {:induction false} ElementFlags(m: Markup, c: Context, s: State)
    requires m.Element? && WellNested(m) && Fits(s, c)
    ensures var t := Feed(s, Tags(m));
      && SameCounters(s, t)
      && t.inTitle == (s.inTitle && !HasTitle(m, c))
      && t.inH2 == (s.inH2 && !HasHeading(m, c))
    decreases m, 0
  {
    var s1 := Step(s, Start(m.tag, m.attrs));
    var s2 := Feed(s1, Tags(m.inside));
    OpenTag(s, c, m.tag, m.attrs);
    FlagsRestore(m.inside, Inner(c, m.tag, m.attrs), s1);
    CloseTag(s, s2, c, m.tag, m.attrs);
    FlagsRestore(m.next, c, Step(s2, Close(m.tag)));
    BracketedEvents(s, Start(m.tag, m.attrs), Tags(m.inside), Close(m.tag), Tags(m.next));
  }

  lemma {:induction false} PiecesRouted(m: Markup, c: Context, s: State)
    requires WellNested(m) && Fits(s, c)
    ensures Trace(s, Tags(m)) == Routed(m, c, s.inTitle, s.inH2)
    decreases m, 1
  {
    match m
    case Nothing =>
    case Text(data, next) =>
      Textual(s, c, data);
      FirstEvent(s, Data(data), Tags(next));
      PiecesRouted(next, c, Step(s, Data(data)));
    case Void(tag, attrs, next) =>
      VoidTag(s, c, tag, attrs);
      FirstEvent(s, Start(tag, attrs), Tags(next));
      PiecesRouted(next, c, Step(s, Start(tag, attrs)));
    case Element(_, _, _, _) =>
      ElementPieces(m, c, s);
  }

  lemma {:induction false} ElementPieces(m: Markup, c: Context, s: State)
    requires m.Element? && WellNested(m) && Fits(s, c)
    ensures Trace(s, Tags(m)) == Routed(m, c, s.inTitle, s.inH2)
    decreases m, 0
  {
    var s1 := Step(s, Start(m.tag, m.attrs));
    var s2 := Feed(s1, Tags(m.inside));
    OpenTag(s, c, m.tag, m.attrs);
    FlagsRestore(m.inside, Inner(c, m.tag, m.attrs), s1);
    PiecesRouted(m.inside, Inner(c, m.tag, m.attrs), s1);
    CloseTag(s, s2, c, m.tag, m.attrs);
    PiecesRouted(m.next, c, Step(s2, Close(m.tag)));
    BracketedEvents(s, Start(m.tag, m.attrs), Tags(m.inside), Close(m.tag), Tags(m.next));
  }

  lemma FirstEvent(s: State, e: Event, rest: seq<Event>)
    ensures Feed(s, [e] + rest) == Feed(Step(s, e), rest)
    ensures Trace(s, [e] + rest) == Deed(s, e) + Trace(Step(s, e), rest)
  {
    assert ([e] + rest)[1..] == rest;
  }

  lemma BracketedEvents(s: State, first: Event, inside: seq<Event>, last: Event, rest: seq<Event>)
    ensures
      var s1 := Step(s, first);
      var s2 := Feed(s1, inside);
      var s3 := Step(s2, last);
      var events := [first] + inside + [last] + rest;
      && Feed(s, events) == Feed(s3, rest)
      && Trace(s, events) == Deed(s, first) + Trace(s1, inside) + Deed(s2, last) + Trace(s3, rest)
  {
    var s1 := Step(s, first);
    var s2 := Feed(s1, inside);
    Regroup4([first], inside, [last], rest);
    FirstEvent(s, first, inside + ([last] + rest));
    LaterEvents(s1, inside, last, rest);
    Regroup4(Deed(s, first), Trace(s1, inside), Deed(s2, last), Trace(Step(s2, last), rest));
  }

  lemma LaterEvents(s1: State, inside: seq<Event>, last: Event, rest: seq<Event>)
    ensures
      var s2 := Feed(s1, inside);
      var events := inside + ([last] + rest);
      && Feed(s1, events) == Feed(Step(s2, last), rest)
      && Trace(s1, events) == Trace(s1, inside) + (Deed(s2, last) + Trace(Step(s2, last), rest))
  {
    FeedConcat(s1, inside, [last] + rest);
    TraceConcat(s1, inside, [last] + rest);
    FirstEvent(Feed(s1, inside), last, rest);
  }

  // ---------- when the machine is right ----------

  predicate HasText(m: Markup) {
    match m
    case Nothing => false
    case Text(_, _) => true
    case Void(_, _, next) => HasText(next)
    case Element(_, _, inside, next) => HasText(inside) || HasText(next)
  }

  /**
    In a title or a heading no text follows an inner title or heading (`stale`
    says that one has closed already), and an open title holds no content with text.
  */
  predicate Clean(m: Markup, c: Context, stale: bool) {
    match m
    case Nothing => true
    case Text(_, next) => !stale && Clean(next, c, stale)
    case Void(_, _, next) => Clean(next, c, stale)
    case Element(tag, attrs, inside, next) =>
      var inner := Inner(c, tag, attrs);
      var opens := tag == if Outer(c) then "title" else "h2";
      && (if c.TitleText? && inner.Body? && !stale then !HasText(inside)
          else Clean(inside, inner, stale && inner == c && !opens))
      && Clean(next, c, stale || Shuts(c, tag, inside, inner))
  }

  /** The element leaves the flag of its context cleared. */
  predicate Shuts(c: Context, tag: string, inside: Markup, inner: Context) {
    || (c.TitleText? && (tag == "title" || HasTitle(inside, inner)))
    || (c.HeadingText? && (tag == "h2" || HasHeading(inside, inner)))
  }

  /** The flags a context is met with. */
  predicate Matches(c: Context, stale: bool, title: bool, heading: bool) {
    match c
    case Beyond => !title && !heading && !stale
    case TitleText => title == !stale && !heading
    case Body => !title && !heading && !stale
    case HeadingText => !title && heading == !stale
    case _ => !title && !stale
  }

  lemma {:induction false} SameLength(m: Markup, c: Context, title: bool, heading: bool)
    ensures |Routed(m, c, title, heading)| == |Meaning(m, c)|
    decreases m
  {
    match m
    case Nothing =>
    case Text(data, next) => SameLength(next, c, title, heading);
    case Void(tag, attrs, next) => SameLength(next, c, title, heading);
    case Element(tag, attrs, inside, next) =>
      var inner := Inner(c, tag, attrs);
      var opensTitle, opensHeading := Outer(c) && tag == "title", Visible(c) && tag == "h2";
      SameLength(inside, inner, title || opensTitle, heading || opensHeading);
      SameLength(next, c, title && !opensTitle && !HasTitle(inside, inner),
                 heading && !opensHeading && !HasHeading(inside, inner));
  }

  lemma PartsAgree<T>(a: seq<T>, b: seq<T>, b': seq<T>, c: seq<T>, d: seq<T>, d': seq<T>)
    requires |b| == |b'|
    ensures a + b + c + d == a + b' + c + d' <==> b == b' && d == d'
  {
    var x, y := a + b + c + d, a + b' + c + d';
    assert x[|a|..|a| + |b|] == b && y[|a|..|a| + |b|] == b';
    assert x[|a| + |b| + |c|..] == d && y[|a| + |b| + |c|..] == d';
  }

  lemma PrefixAgrees<T>(a: seq<T>, b: seq<T>, b': seq<T>)
    ensures a + b == a + b' <==> b == b'
  {
    assert (a + b)[|a|..] == b && (a + b')[|a|..] == b';
  }

  /** While a title is open everything in the content goes to the title. */
  lemma {:induction false} TitleSwallows(m: Markup, c: Context, heading: bool)
    requires !Outer(c)
    ensures Routed(m, c, true, heading) == Meaning(m, c) <==> !HasText(m)
    decreases m
  {
    match m
    case Nothing =>
    case Text(data, next) =>
      assert Routed(m, c, true, heading)[0] != Meaning(m, c)[0];
    case Void(tag, attrs, next) =>
      TitleSwallows(next, c, heading);
      PrefixAgrees(Before(c, tag, attrs), Routed(next, c, true, heading), Meaning(next, c));
    case Element(tag, attrs, inside, next) =>
      var inner := Inner(c, tag, attrs);
      var h1 := heading || (Visible(c) && tag == "h2");
      var h2 := heading && !(Visible(c) && tag == "h2") && !HasHeading(inside, inner);
      NoTitles(inside, inner);
      TitleSwallows(inside, inner, h1);
      TitleSwallows(next, c, h2);
      SameLength(inside, inner, true, h1);
      PartsAgree(Before(c, tag, attrs), Routed(inside, inner, true, h1), Meaning(inside, inner), After(c, tag),
                 Routed(next, c, true, h2), Meaning(next, c));
  }

  lemma {:induction false} NoTitles(m: Markup, c: Context)
    requires !Outer(c)
    ensures !HasTitle(m, c)
    decreases m
  {
    match m
    case Nothing =>
    case Text(data, next) => NoTitles(next, c);
    case Void(tag, attrs, next) => NoTitles(next, c);
    case Element(tag, attrs, inside, next) =>
      NoTitles(inside, Inner(c, tag, attrs));
      NoTitles(next, c);
  }

  lemma {:induction false} RoutedExactly(m: Markup, c: Context, stale: bool, title: bool, heading: bool)
    requires Matches(c, stale, title, heading)
    ensures Routed(m, c, title, heading) == Meaning(m, c) <==> Clean(m, c, stale)
    decreases m, 0
  {
    match m
    case Nothing =>
    case Text(data, next) =>
      RoutedExactly(next, c, stale, title, heading);
      HeadAgrees(Put(Actual(c, title, heading), data), Put(Home(c), data),
                 Routed(next, c, title, heading), Meaning(next, c));
    case Void(tag, attrs, next) =>
      RoutedExactly(next, c, stale, title, heading);
      PrefixAgrees(Before(c, tag, attrs), Routed(next, c, title, heading), Meaning(next, c));
    case Element(tag, attrs, inside, next) =>
      var inner := Inner(c, tag, attrs);
      var opensTitle, opensHeading := Outer(c) && tag == "title", Visible(c) && tag == "h2";
      var t1, h1 := title || opensTitle, heading || opensHeading;
      var t2, h2 := title && !opensTitle && !HasTitle(inside, inner), heading && !opensHeading && !HasHeading(inside, inner);
      InsideExactly(inside, c, tag, attrs, stale, title, heading);
      FlagsAfter(inside, c, tag, attrs, stale, title, heading);
      RoutedExactly(next, c, stale || Shuts(c, tag, inside, inner), t2, h2);
      SameLength(inside, inner, t1, h1);
      PartsAgree(Before(c, tag, attrs), Routed(inside, inner, t1, h1), Meaning(inside, inner), After(c, tag),
                 Routed(next, c, t2, h2), Meaning(next, c));
  }

  lemma HeadAgrees<T>(x: T, y: T, a: seq<T>, b: seq<T>)
    ensures [x] + a == [y] + b <==> x == y && a == b
  {
    assert ([x] + a)[0] == x && ([y] + b)[0] == y;
    assert ([x] + a)[1..] == a && ([y] + b)[1..] == b;
  }

  lemma InsideExactly(inside: Markup, c: Context, tag: string, attrs: Attrs, stale: bool, title: bool, heading: bool)
    requires Matches(c, stale, title, heading)
    ensures
      var inner := Inner(c, tag, attrs);
      var opens := tag == if Outer(c) then "title" else "h2";
      Routed(inside, inner, title || (Outer(c) && tag == "title"), heading || (Visible(c) && tag == "h2"))
        == Meaning(inside, inner)
      <==> (if c.TitleText? && inner.Body? && !stale then !HasText(inside)
            else Clean(inside, inner, stale && inner == c && !opens))
    decreases inside, 1
  {
    var inner := Inner(c, tag, attrs);
    var opens := tag == if Outer(c) then "title" else "h2";
    var t1, h1 := title || (Outer(c) && tag == "title"), heading || (Visible(c) && tag == "h2");
    if c.TitleText? && inner.Body? && !stale {
      TitleSwallows(inside, inner, h1);
    } else {
      RoutedExactly(inside, inner, stale && inner == c && !opens, t1, h1);
    }
  }

  lemma FlagsAfter(inside: Markup, c: Context, tag: string, attrs: Attrs, stale: bool, title: bool, heading: bool)
    requires Matches(c, stale, title, heading)
    ensures
      var inner := Inner(c, tag, attrs);
      Matches(c, stale || Shuts(c, tag, inside, inner),
              title && !(Outer(c) && tag == "title") && !HasTitle(inside, inner),
              heading && !(Visible(c) && tag == "h2") && !HasHeading(inside, inner))
  {
  }

  /** On a well-nested document every text is filed where it belongs exactly when the document is clean. */
  lemma FiledExactly(doc: Markup)
    requires WellNested(doc)
    ensures Trace(INIT, Tags(doc)) == Meaning(doc, Beyond) <==> Clean(doc, Beyond, false)
    ensures Clean(doc, Beyond, false) ==> Feed(INIT, Tags(doc)).out == DepositAll(INIT.out, Meaning(doc, Beyond))
  {
    SubtreeRestores(doc, Beyond, INIT);
    RoutedExactly(doc, Beyond, false, false, false);
    FeedDeposits(INIT, Tags(doc));
  }

  /** What HTML itself asks: no element in a title takes up the title or the content, no heading is in a heading. */
  predicate Standard(m: Markup, c: Context) {
    match m
    case Nothing => true
    case Text(_, next) => Standard(next, c)
    case Void(_, _, next) => Standard(next, c)
    case Element(tag, attrs, inside, next) =>
      && (c.TitleText? ==> tag != "title" && !IsContent(tag, attrs))
      && (c.HeadingText? ==> tag != "h2")
      && Standard(inside, Inner(c, tag, attrs))
      && Standard(next, c)
  }

  lemma {:induction false} StandardIsClean(m: Markup, c: Context)
    requires Standard(m, c)
    ensures Clean(m, c, false)
    ensures c.TitleText? ==> !HasTitle(m, c)
    ensures c.HeadingText? ==> !HasHeading(m, c)
    decreases m
  {
    match m
    case Nothing =>
    case Text(data, next) => StandardIsClean(next, c);
    case Void(tag, attrs, next) => StandardIsClean(next, c);
    case Element(tag, attrs, inside, next) =>
      StandardIsClean(inside, Inner(c, tag, attrs));
      StandardIsClean(next, c);
      if c.HeadingText? && Inner(c, tag, attrs) != c {
        NoHeadings(inside, Inner(c, tag, attrs));
      }
  }

  lemma {:induction false} NoHeadings(m: Markup, c: Context)
    requires c.CrumbText? || c.Hidden?
    ensures !HasHeading(m, c)
    decreases m
  {
    match m
    case Nothing =>
    case Text(data, next) => NoHeadings(next, c);
    case Void(tag, attrs, next) => NoHeadings(next, c);
    case Element(tag, attrs, inside, next) =>
      NoHeadings(inside, c);
      NoHeadings(next, c);
  }

  // ---------- skipped subtrees ----------

  function AllText(m: Markup): string {
    match m
    case Nothing => ""
    case Text(data, next) => data + AllText(next)
    case Void(_, _, next) => AllText(next)
    case Element(_, _, inside, next) => AllText(inside) + AllText(next)
  }

  lemma SkippedStays(c: Context, tag: string, attrs: Attrs)
    requires c.CrumbText? || c.Hidden?
    ensures Inner(c, tag, attrs) == c && Before(c, tag, attrs) == [] && After(c, tag) == []
  {
  }

  lemma NoSides<T>(a: seq<T>, b: seq<T>)
    ensures [] + a + [] + b == a + b
  {
  }

  lemma SkippedElement(tag: string, attrs: Attrs, inside: Markup, next: Markup, c: Context, heading: bool)
    requires c.CrumbText? || c.Hidden?
    ensures Routed(Element(tag, attrs, inside, next), c, false, heading) ==
      Routed(inside, c, false, heading) + Routed(next, c, false, heading)
  {
    SkippedStays(c, tag, attrs);
    NoHeadings(inside, c);
    NoSides(Routed(inside, c, false, heading), Routed(next, c, false, heading));
  }

  /** A breadcrumb's text joins the group; other skipped text changes nothing. */
  function Grouped(out: Content, c: Context, text: string): Content {
    if c.CrumbText? then out.(group := out.group + text) else out
  }

  lemma GroupedTwice(out: Content, c: Context, a: string, b: string)
    ensures Grouped(Grouped(out, c, a), c, b) == Grouped(out, c, a + b)
    ensures Grouped(out, c, "") == out
  {
    assert out.group + a + b == out.group + (a + b) && out.group + "" == out.group;
  }

  lemma DepositCons(out: Content, piece: Piece, rest: seq<Piece>)
    ensures DepositAll(out, [piece] + rest) == DepositAll(Deposit(out, piece), rest)
  {
    assert ([piece] + rest)[1..] == rest;
  }

  lemma {:induction false} SkippedPieces(m: Markup, c: Context, heading: bool, out: Content)
    requires c.CrumbText? || c.Hidden?
    ensures DepositAll(out, Routed(m, c, false, heading)) == Grouped(out, c, AllText(m))
    decreases m
  {
    match m
    case Nothing =>
      GroupedTwice(out, c, "", "");
    case Text(data, next) =>
      var piece := Put(Actual(c, false, heading), data);
      DepositCons(out, piece, Routed(next, c, false, heading));
      SkippedPieces(next, c, heading, Deposit(out, piece));
      GroupedTwice(out, c, data, AllText(next));
    case Void(tag, attrs, next) =>
      SkippedStays(c, tag, attrs);
      assert [] + Routed(next, c, false, heading) == Routed(next, c, false, heading);
      SkippedPieces(next, c, heading, out);
    case Element(tag, attrs, inside, next) =>
      var first := Routed(inside, c, false, heading);
      SkippedElement(tag, attrs, inside, next, c, heading);
      DepositConcat(out, first, Routed(next, c, false, heading));
      SkippedPieces(inside, c, heading, out);
      SkippedPieces(next, c, heading, DepositAll(out, first));
      GroupedTwice(out, c, AllText(inside), AllText(next));
  }

  /** A breadcrumb's whole text, nested skipped elements included, goes to the group and nowhere else; other skipped text is dropped. */
  lemma SkippedText(m: Markup, c: Context, s: State)
    requires WellNested(m) && Fits(s, c) && !s.inTitle && (c.CrumbText? || c.Hidden?)
    ensures Feed(s, Tags(m)) ==
      s.(out := if c.CrumbText? then s.out.(group := s.out.group + AllText(m)) else s.out)
  {
    SubtreeRestores(m, c, s);
    NoHeadings(m, c);
    FeedDeposits(s, Tags(m));
    SkippedPieces(m, c, s.inH2, s.out);
  }

  // ---------- documents the machine misreads ----------

  const CONTENT_ID: Attrs := map["id" := "content"]

  /** The text after a heading inside a heading lands in the prose of the inner section. */
  lemma NestedHeadingMisfiles(s: State, data: string)
    requires Fits(s, Body) && !s.inTitle && !s.inH2
    ensures
      var heading := Element("h2", map[], Element("h2", map[], Nothing, Text(data, Nothing)), Nothing);
      && WellNested(heading) && !Clean(heading, Body, false)
      && Trace(s, Tags(heading)) == [Break(""), Break(""), Put(InProse, data)]
      && Meaning(heading, Body) == [Break(""), Break(""), Put(InHeading, data)]
  {
    var tail := Text(data, Nothing);
    var inner := Element("h2", map[], Nothing, tail);
    assert Opening("h2", map[]) == [Break("")] && Closing("h2") == [];
    assert Routed(tail, HeadingText, false, false) == [Put(InProse, data)];
    assert Meaning(tail, HeadingText) == [Put(InHeading, data)];
    assert Routed(inner, HeadingText, false, true) == [Break(""), Put(InProse, data)];
    assert Meaning(inner, HeadingText) == [Break(""), Put(InHeading, data)];
    assert !Clean(tail, HeadingText, true);
    assert !Clean(inner, HeadingText, false);
    assert WellNested(tail) && WellNested(inner);
    SubtreeRestores(Element("h2", map[], inner, Nothing), Body, s);
  }

  /** With the content inside the title element, the content's text lands in the page title. */
  lemma TitledContentMisfiles()
    ensures
      var content := Element("main", CONTENT_ID, Text("prose", Nothing), Nothing);
      var doc := Element("title", map[], content, Nothing);
      && WellNested(doc) && !Clean(doc, Beyond, false)
      && Put(InTitle, "prose") in Trace(INIT, Tags(doc))
      && Put(InProse, "prose") in Meaning(doc, Beyond)
  {
    var prose := Text("prose", Nothing);
    var content := Element("main", CONTENT_ID, prose, Nothing);
    var doc := Element("title", map[], content, Nothing);
    assert IsContent("main", CONTENT_ID) && "main" != "title";
    SubtreeRestores(doc, Beyond, INIT);
    assert Put(InTitle, "prose") in Routed(prose, Body, true, false);
    assert Put(InTitle, "prose") in Routed(content, TitleText, true, false);
    assert Put(InProse, "prose") in Meaning(prose, Body);
    assert Put(InProse, "prose") in Meaning(content, TitleText);
    assert !Clean(content, TitleText, false);
  }

  // ---------- the parser's handlers ----------

  class Page {
    var title: string
    var area: string
    var group: string
    var blocks: Blocks
    var inTitle: bool
    var inH2: bool
    var main: nat
    var skip: nat
    var crumbAt: nat

    constructor ()
      ensures Abs() == INIT
    {
      title, area, group := "", "", "";
      blocks := [Block("", "", [])];
      inTitle, inH2 := false, false;
      main, skip, crumbAt := 0, 0, 0;
    }

    function Abs(): State
      reads this
    {
      State(Content(title, area, group, blocks), inTitle, inH2, main, skip, crumbAt)
    }

    method HandleStartTag(tag: string, attrs: Attrs)
      modifies this
      ensures Abs() == Step(old(Abs()), Start(tag, attrs))
    {
      if main == 0 {
        if tag == "title" {
          inTitle := true;
        } else if tag == "body" {
          area := Value(attrs, "data-area");
        } else if tag == "main" && Value(attrs, "id") == "content" {
          main := 1;
        }
        return;
      }
      if skip != 0 {
        if tag in SKIP {
          skip := skip + 1;
        }
        return;
      }
      if tag in SKIP {
        skip := 1;
        if tag == "nav" && Contains(Value(attrs, "class"), "breadcrumb") {
          crumbAt := 1;
        }
        return;
      }
      if tag == "main" {
        main := main + 1;
      } else if tag == "h2" {
        blocks := blocks + [Block(Value(attrs, "id"), "", [])];
        inH2 := true;
      } else if tag in BLOCK {
        blocks := AddText(blocks, " ");
      }
    }

    method HandleEndTag(tag: string)
      modifies this
      ensures Abs() == Step(old(Abs()), Close(tag))
    {
      if main == 0 {
        if tag == "title" {
          inTitle := false;
        }
        return;
      }
      if skip != 0 {
        if tag in SKIP {
          if crumbAt == skip {
            crumbAt := 0;
          }
          skip := skip - 1;
        }
        return;
      }
      if tag == "main" {
        main := main - 1;
      } else if tag == "h2" {
        inH2 := false;
      } else if tag in BLOCK {
        blocks := AddText(blocks, " ");
      }
    }

    method HandleData(data: string)
      modifies this
      ensures Abs() == Step(old(Abs()), Data(data))
    {
      if inTitle {
        title := title + data;
      } else if crumbAt != 0 {
        group := group + data;
      } else if main != 0 && skip == 0 {
        if inH2 {
          blocks := AddHeading(blocks, data);
        } else {
          blocks := AddText(blocks, data);
        }
      }
    }
  }
}
