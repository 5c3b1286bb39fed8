/**
  What each element does to a page, with the tag names written out: from a state
  inside the content, a whole element's effect on everything the reader keeps.
*/
module SearchTags {
  import opened SearchPage
  import opened Sequences

  /** In the content, and in no title, heading or skipped element. */
  predicate InContent(s: State) {
    s.main > 0 && s.skip == 0 && s.crumbAt == 0 && !s.inTitle && !s.inH2
  }

  /** Before the content, and in no title. */
  predicate BeforeContent(s: State) {
    s.main == 0 && s.skip == 0 && s.crumbAt == 0 && !s.inTitle && !s.inH2
  }

  function Whole(tag: string, attrs: Attrs, inside: Markup): Markup {
    Element(tag, attrs, inside, Nothing)
  }

  lemma WholeEvents(s: State, tag: string, attrs: Attrs, inside: Markup)
    ensures Feed(s, Tags(Whole(tag, attrs, inside))) ==
      Step(Feed(Step(s, Start(tag, attrs)), Tags(inside)), Close(tag))
  {
    BracketedEvents(s, Start(tag, attrs), Tags(inside), Close(tag), []);
    assert Tags(Nothing) == [];
  }

  // ---------- skipped elements ----------

  /** The class attribute is there and has "breadcrumb" somewhere in it. */
  ghost predicate BreadcrumbClass(attrs: Attrs) {
    "class" in attrs && exists before, after :: attrs["class"] == before + "breadcrumb" + after
  }

  lemma ContainsExactly(text: string, part: string)
    ensures Contains(text, part) <==> exists before, after :: text == before + part + after
  {
    if Contains(text, part) {
      var i :| 0 <= i <= |text| && StartsAt(text, part, i);
      assert text == text[..i] + part + text[i + |part|..];
    }
    if exists before, after :: text == before + part + after {
      var before, after :| text == before + part + after;
      assert text[|before|..|before| + |part|] == part;
      assert StartsAt(text, part, |before|);
    }
  }

  lemma BreadcrumbExactly(attrs: Attrs)
    ensures IsBreadcrumb("nav", attrs) <==> BreadcrumbClass(attrs)
  {
    ContainsExactly(Value(attrs, "class"), "breadcrumb");
    NothingContains("breadcrumb");
  }

  lemma NothingContains(part: string)
    requires part != ""
    ensures !Contains("", part)
  {
  }

  /** A breadcrumb's whole text joins the group, and nothing else changes. */
  lemma BreadcrumbReads(s: State, attrs: Attrs, inside: Markup)
    requires InContent(s) && WellNested(inside) && BreadcrumbClass(attrs)
    ensures Feed(s, Tags(Whole("nav", attrs, inside))) == s.(out := s.out.(group := s.out.group + AllText(inside)))
  {
    BreadcrumbExactly(attrs);
    WholeEvents(s, "nav", attrs, inside);
    SkippedText(inside, CrumbText, Step(s, Start("nav", attrs)));
  }

  /** Any other navigation, and every script, style, drawing, button and fallback, leaves no trace at all. */
  lemma SkippedReads(s: State, tag: string, attrs: Attrs, inside: Markup)
    requires InContent(s) && WellNested(inside)
    requires
      || tag == "script" || tag == "style" || tag == "svg" || tag == "button" || tag == "noscript"
      || (tag == "nav" && !BreadcrumbClass(attrs))
    ensures Feed(s, Tags(Whole(tag, attrs, inside))) == s
  {
    BreadcrumbExactly(attrs);
    WholeEvents(s, tag, attrs, inside);
    SkippedText(inside, Hidden, Step(s, Start(tag, attrs)));
  }

  // ---------- visible elements ----------

  /** The elements around which text must not run together. */
  predicate Separates(tag: string) {
    || tag == "p" || tag == "div" || tag == "br" || tag == "li" || tag == "ul" || tag == "ol" || tag == "dl"
    || tag == "dt" || tag == "dd" || tag == "pre" || tag == "table" || tag == "tr" || tag == "td" || tag == "th"
    || tag == "thead" || tag == "tbody" || tag == "section" || tag == "article" || tag == "figure"
    || tag == "blockquote" || tag == "h1" || tag == "h3" || tag == "h4" || tag == "h5" || tag == "h6"
  }

  /** The last section's prose with one more item. */
  function WithText(s: State, text: string): State {
    var n := |s.out.blocks| - 1;
    var last := s.out.blocks[n];
    s.(out := s.out.(blocks := s.out.blocks[..n] + [Block(last.id, last.heading, last.text + [text])]))
  }

  lemma AddTextAppends(s: State, text: string)
    ensures s.(out := s.out.(blocks := AddText(s.out.blocks, text))) == WithText(s, text)
  {
    var n := |s.out.blocks| - 1;
    assert s.out.blocks == s.out.blocks[..n] + [s.out.blocks[n]];
  }

  /** The separating tags are the block tags but the section heading; none of them is skipped. */
  lemma SeparatesExactly(tag: string)
    ensures Separates(tag) <==> tag in BLOCK && tag != "h2"
    ensures tag in BLOCK ==> tag !in SKIP && tag != "main" && tag != "title" && tag != "body"
  {
  }

  lemma SeparatorSteps(s: State, tag: string, attrs: Attrs)
    requires s.main > 0 && s.skip == 0 && tag in BLOCK && tag !in SKIP && tag != "main" && tag != "h2"
    ensures Step(s, Start(tag, attrs)) == WithText(s, " ") && Step(s, Close(tag)) == WithText(s, " ")
  {
    AddTextAppends(s, " ");
  }

  lemma OtherSteps(s: State, tag: string, attrs: Attrs)
    requires s.main > 0 && s.skip == 0 && tag !in BLOCK && tag !in SKIP && tag != "main" && tag != "h2"
    ensures Step(s, Start(tag, attrs)) == s && Step(s, Close(tag)) == s
  {
  }

  lemma StaysInContent(s: State, inside: Markup)
    requires s.main > 0 && s.skip == 0 && s.crumbAt == 0 && WellNested(inside)
    ensures SameCounters(Feed(s, Tags(inside)), s)
  {
    FlagsRestore(inside, Body, s);
  }

  /** Text in the content is one more item of the prose. */
  lemma TextReads(s: State, data: string)
    requires InContent(s)
    ensures Feed(s, Tags(Text(data, Nothing))) == WithText(s, data)
  {
    AddTextAppends(s, data);
    FirstEvent(s, Data(data), []);
  }

  /** A separating element reads as its contents between two spaces. */
  lemma SeparatedReads(s: State, tag: string, attrs: Attrs, inside: Markup)
    requires InContent(s) && WellNested(inside) && Separates(tag)
    ensures Feed(s, Tags(Whole(tag, attrs, inside))) == WithText(Feed(WithText(s, " "), Tags(inside)), " ")
  {
    WholeEvents(s, tag, attrs, inside);
    SeparatesExactly(tag);
    SeparatorSteps(s, tag, attrs);
    StaysInContent(WithText(s, " "), inside);
    SeparatorSteps(Feed(WithText(s, " "), Tags(inside)), tag, attrs);
  }

  /** A second-level heading opens a section under its own identifier; its contents are read as the heading. */
  lemma HeadingReads(s: State, attrs: Attrs, inside: Markup)
    requires InContent(s) && WellNested(inside)
    ensures
      var id := if "id" in attrs then attrs["id"] else "";
      var headed := s.(out := s.out.(blocks := s.out.blocks + [Block(id, "", [])]), inH2 := true);
      Feed(s, Tags(Whole("h2", attrs, inside))) == Feed(headed, Tags(inside)).(inH2 := false)
  {
    WholeEvents(s, "h2", attrs, inside);
    StaysInContent(Step(s, Start("h2", attrs)), inside);
  }

  /** The last section's heading with more text. */
  function WithHeading(s: State, text: string): State {
    var n := |s.out.blocks| - 1;
    var last := s.out.blocks[n];
    s.(out := s.out.(blocks := s.out.blocks[..n] + [Block(last.id, last.heading + text, last.text)]))
  }

  lemma AddHeadingAppends(s: State, text: string)
    ensures s.(out := s.out.(blocks := AddHeading(s.out.blocks, text))) == WithHeading(s, text)
  {
    var n := |s.out.blocks| - 1;
    assert s.out.blocks == s.out.blocks[..n] + [s.out.blocks[n]];
  }

  /** Text in a heading is appended to the heading. */
  lemma HeadingTextReads(s: State, data: string)
    requires s.main > 0 && s.skip == 0 && s.crumbAt == 0 && !s.inTitle && s.inH2
    ensures Feed(s, Tags(Text(data, Nothing))) == WithHeading(s, data)
  {
    AddHeadingAppends(s, data);
    FirstEvent(s, Data(data), []);
  }

  /** Every other element but a nested `main` reads as its contents. */
  lemma PlainReads(s: State, tag: string, attrs: Attrs, inside: Markup)
    requires InContent(s) && WellNested(inside)
    requires !Separates(tag) && tag != "h2" && tag != "main"
    requires tag != "script" && tag != "style" && tag != "svg" && tag != "button" && tag != "noscript" && tag != "nav"
    ensures Feed(s, Tags(Whole(tag, attrs, inside))) == Feed(s, Tags(inside))
  {
    WholeEvents(s, tag, attrs, inside);
    SkippedTags(tag);
    SeparatesExactly(tag);
    OtherSteps(s, tag, attrs);
    StaysInContent(s, inside);
    OtherSteps(Feed(s, Tags(inside)), tag, attrs);
  }

  lemma SkippedTags(tag: string)
    ensures tag in SKIP <==>
      || tag == "script" || tag == "style" || tag == "svg" || tag == "button" || tag == "noscript" || tag == "nav"
  {
  }

  /** An element without an end tag is a space if it separates, and nothing otherwise. */
  lemma VoidReads(s: State, tag: string, attrs: Attrs)
    requires InContent(s) && tag in VOID
    ensures Feed(s, Tags(Void(tag, attrs, Nothing))) == if tag == "br" then WithText(s, " ") else s
  {
    FirstEvent(s, Start(tag, attrs), []);
    VoidTags(tag);
    if tag == "br" {
      SeparatorSteps(s, tag, attrs);
    } else {
      OtherSteps(s, tag, attrs);
    }
  }

  lemma VoidTags(tag: string)
    requires tag in VOID
    ensures tag !in SKIP && tag != "main" && tag != "h2" && (tag in BLOCK <==> tag == "br")
  {
  }

  // ---------- around the content ----------

  lemma TitleReads(s: State, attrs: Attrs, data: string)
    requires BeforeContent(s)
    ensures Feed(s, Tags(Whole("title", attrs, Text(data, Nothing)))) == s.(out := s.out.(title := s.out.title + data))
  {
    WholeEvents(s, "title", attrs, Text(data, Nothing));
    FirstEvent(s.(inTitle := true), Data(data), []);
  }

  lemma BodyReads(s: State, attrs: Attrs)
    requires BeforeContent(s)
    ensures Step(s, Start("body", attrs)) ==
      s.(out := s.out.(area := if "data-area" in attrs then attrs["data-area"] else ""))
  {
  }

  /** Exactly the main element identified as the content is the content. */
  lemma ContentOpens(s: State, tag: string, attrs: Attrs)
    requires BeforeContent(s)
    ensures InContent(Step(s, Start(tag, attrs))) <==> tag == "main" && "id" in attrs && attrs["id"] == "content"
    ensures tag == "main" && "id" in attrs && attrs["id"] == "content" ==> Step(s, Start(tag, attrs)) == s.(main := 1)
  {
  }

  /** Outside title and content, text is lost. */
  lemma TextOutsideLost(s: State, data: string)
    requires BeforeContent(s)
    ensures Feed(s, Tags(Text(data, Nothing))) == s
  {
    FirstEvent(s, Data(data), []);
  }

  /** A main element inside the content reads as its contents. */
  lemma NestedMainReads(s: State, attrs: Attrs, inside: Markup)
    requires InContent(s) && WellNested(inside)
    ensures Feed(s, Tags(Whole("main", attrs, inside))) ==
      Feed(s.(main := s.main + 1), Tags(inside)).(main := s.main)
  {
    WholeEvents(s, "main", attrs, inside);
    StaysInContent(s.(main := s.main + 1), inside);
  }

  // ---------- a whole page ----------

  /** A title, then a body whose main element is the content. */
  function Document(title: string, area: string, inside: Markup): Markup {
    Element("title", map[], Text(title, Nothing),
            Whole("body", map["data-area" := area], Whole("main", map["id" := "content"], inside)))
  }

  /** The reader at the start of the content. */
  function Started(title: string, area: string): State {
    State(Content(title, area, "", [Block("", "", [])]), false, false, 1, 0, 0)
  }

  lemma Siblings(s: State, tag: string, attrs: Attrs, inside: Markup, next: Markup)
    ensures Feed(s, Tags(Element(tag, attrs, inside, next))) == Feed(Feed(s, Tags(Whole(tag, attrs, inside))), Tags(next))
  {
    BracketedEvents(s, Start(tag, attrs), Tags(inside), Close(tag), Tags(next));
    WholeEvents(s, tag, attrs, inside);
  }

  /** The page's title, its area, and then whatever its content adds. */
  lemma DocumentReads(title: string, area: string, inside: Markup)
    requires WellNested(inside)
    ensures Feed(INIT, Tags(Document(title, area, inside))).out == Feed(Started(title, area), Tags(inside)).out
  {
    var main := Whole("main", map["id" := "content"], inside);
    var titled := INIT.(out := INIT.out.(title := title));
    var placed := titled.(out := titled.out.(area := area));
    Siblings(INIT, "title", map[], Text(title, Nothing), Whole("body", map["data-area" := area], main));
    TitleReads(INIT, map[], title);
    assert "" + title == title;
    WholeEvents(titled, "body", map["data-area" := area], main);
    BodyReads(titled, map["data-area" := area]);
    WholeEvents(placed, "main", map["id" := "content"], inside);
    ContentOpens(placed, "main", map["id" := "content"]);
    StaysInContent(Started(title, area), inside);
  }

  /** A heading, a script and a paragraph, one after the other. */
  function Section(id: string, heading: string, code: string, prose: string): Markup {
    Element("h2", map["id" := id], Text(heading, Nothing),
            Element("script", map[], Text(code, Nothing), Whole("p", map[], Text(prose, Nothing))))
  }

  lemma SectionNests(id: string, heading: string, code: string, prose: string)
    ensures WellNested(Section(id, heading, code, prose))
  {
    var paragraph := Whole("p", map[], Text(prose, Nothing));
    assert WellNested(paragraph.inside) && WellNested(Text(code, Nothing)) && WellNested(Text(heading, Nothing));
    assert WellNested(paragraph);
    assert WellNested(Element("script", map[], Text(code, Nothing), paragraph));
  }

  /** They add one section, holding the heading and the paragraph between spaces. */
  lemma SectionReads(s: State, id: string, heading: string, code: string, prose: string)
    requires InContent(s)
    ensures Feed(s, Tags(Section(id, heading, code, prose))).out ==
      s.out.(blocks := s.out.blocks + [Block(id, heading, [" ", prose, " "])])
  {
    var paragraph := Whole("p", map[], Text(prose, Nothing));
    var rest := Element("script", map[], Text(code, Nothing), paragraph);
    Siblings(s, "h2", map["id" := id], Text(heading, Nothing), rest);
    HeadingAlone(s, id, heading);
    var headed := s.(out := s.out.(blocks := s.out.blocks + [Block(id, heading, [])]));
    Siblings(headed, "script", map[], Text(code, Nothing), paragraph);
    SkippedReads(headed, "script", map[], Text(code, Nothing));
    ParagraphAlone(headed, prose);
    ThreeTexts(headed, s.out.blocks, id, heading, prose);
  }

  lemma ThreeTexts(s: State, closed: seq<Block>, id: string, heading: string, prose: string)
    requires s.out.blocks == closed + [Block(id, heading, [])]
    ensures WithText(WithText(WithText(s, " "), prose), " ").out ==
      s.out.(blocks := closed + [Block(id, heading, [" ", prose, " "])])
  {
    assert [] + [" "] == [" "] && [" "] + [prose] == [" ", prose] && [" ", prose] + [" "] == [" ", prose, " "];
    TextAfter(s, closed, Block(id, heading, []), " ");
    TextAfter(WithText(s, " "), closed, Block(id, heading, [" "]), prose);
    TextAfter(WithText(WithText(s, " "), prose), closed, Block(id, heading, [" ", prose]), " ");
  }

  lemma TextAfter(s: State, closed: seq<Block>, last: Block, text: string)
    requires s.out.blocks == closed + [last]
    ensures WithText(s, text).out == s.out.(blocks := closed + [Block(last.id, last.heading, last.text + [text])])
  {
    assert s.out.blocks[..|closed|] == closed;
  }

  /** A small page from its tags to what the index gets. */
  lemma SmallPageReads(title: string, area: string, crumb: string, id: string, heading: string, code: string, prose: string)
    ensures
      var inside := Element("nav", map["class" := "breadcrumb"], Text(crumb, Nothing), Section(id, heading, code, prose));
      Feed(INIT, Tags(Document(title, area, inside))).out ==
        Content(title, area, crumb, [Block("", "", []), Block(id, heading, [" ", prose, " "])])
  {
    var section := Section(id, heading, code, prose);
    var start := Started(title, area);
    SectionNests(id, heading, code, prose);
    DocumentReads(title, area, Element("nav", map["class" := "breadcrumb"], Text(crumb, Nothing), section));
    Siblings(start, "nav", map["class" := "breadcrumb"], Text(crumb, Nothing), section);
    CrumbAlone(start, crumb);
    assert "" + crumb == crumb;
    SectionReads(start.(out := start.out.(group := crumb)), id, heading, code, prose);
  }

  lemma CrumbAlone(s: State, crumb: string)
    requires InContent(s)
    ensures Feed(s, Tags(Whole("nav", map["class" := "breadcrumb"], Text(crumb, Nothing)))) ==
      s.(out := s.out.(group := s.out.group + crumb))
  {
    var attrs: Attrs := map["class" := "breadcrumb"];
    assert attrs["class"] == "" + "breadcrumb" + "";
    BreadcrumbReads(s, attrs, Text(crumb, Nothing));
    assert AllText(Text(crumb, Nothing)) == crumb + "" == crumb;
  }

  lemma HeadingAlone(s: State, id: string, heading: string)
    requires InContent(s)
    ensures Feed(s, Tags(Whole("h2", map["id" := id], Text(heading, Nothing)))) ==
      s.(out := s.out.(blocks := s.out.blocks + [Block(id, heading, [])]))
  {
    var headed := s.(out := s.out.(blocks := s.out.blocks + [Block(id, "", [])]), inH2 := true);
    HeadingReads(s, map["id" := id], Text(heading, Nothing));
    HeadingTextReads(headed, heading);
    assert "" + heading == heading;
  }

  lemma ParagraphAlone(s: State, prose: string)
    requires InContent(s)
    ensures Feed(s, Tags(Whole("p", map[], Text(prose, Nothing)))) == WithText(WithText(WithText(s, " "), prose), " ")
  {
    SeparatedReads(s, "p", map[], Text(prose, Nothing));
    TextReads(WithText(s, " "), prose);
  }
}
