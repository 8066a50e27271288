/**
 * The PDF extractor: text cleaning, the heading-level heuristic, the grouping
 * of layout elements into sections, the heuristics applied to plain page text
 * when layout analysis is unavailable, the post-processing caps and the
 * metadata prefill of `extract`.
 */
module Extractor {
  import opened Wrappers
  import opened Text

  // ---------------------------------------------------------------- _clean_text

  /** `re.sub(r'\s+', ' ', s)`: every maximal run of whitespace becomes one space. */
  function Collapse(s: string): string
    decreases |s|
  {
    if s == [] then []
    else if IsSpace(s[0]) then " " + Collapse(LStrip(s[1..]))
    else [s[0]] + Collapse(s[1..])
  }

  /** Whitespace occurs only as single spaces. */
  predicate Collapsed(s: string) {
    (forall i :: 0 <= i < |s| && IsSpace(s[i]) ==> s[i] == ' ')
    && (forall i :: 0 <= i < |s| - 1 ==> !(IsSpace(s[i]) && IsSpace(s[i + 1])))
  }

  const Nul: string := "\0"

  /** `_clean_text`: collapse whitespace runs, remove NUL characters, strip. */
  function CleanText(s: string): (r: string)
    ensures IsStripped(r)
    ensures '\0' !in r
  {
    ReplaceCharRemoves(Collapse(s), '\0', "");
    StripKeepsAbsent(ReplaceAll(Collapse(s), Nul, ""), '\0');
    Strip(ReplaceAll(Collapse(s), Nul, ""))
  }

  /** Collapsing introduces no character other than a space. */
  lemma {:induction false} CollapseChars(s: string)
    ensures forall c :: c in Collapse(s) ==> c == ' ' || c in s
    decreases |s|
  {
    if s != [] {
      if IsSpace(s[0]) {
        var t := LStrip(s[1..]);
        CollapseChars(t);
        LStripDropsSpaces(s[1..]);
        assert forall c :: c in t ==> c in s[1..];
      } else {
        CollapseChars(s[1..]);
      }
    }
  }

  /** The result of collapsing has whitespace only as single spaces. */
  lemma {:induction false} CollapseIsCollapsed(s: string)
    ensures Collapsed(Collapse(s))
    decreases |s|
  {
    if s != [] {
      if IsSpace(s[0]) {
        var t := LStrip(s[1..]);
        CollapseIsCollapsed(t);
        if t != [] {
          assert !IsSpace(t[0]);
          assert Collapse(t)[0] == t[0];
        }
      } else {
        CollapseIsCollapsed(s[1..]);
      }
    }
  }

  /** Text that is already collapsed is left alone. */
  lemma {:induction false} CollapseOfCollapsed(s: string)
    requires Collapsed(s)
    ensures Collapse(s) == s
    decreases |s|
  {
    if s != [] {
      CollapsedTail(s);
      CollapseOfCollapsed(s[1..]);
      if IsSpace(s[0]) {
        LStripNoLead(s[1..]);
      }
    }
  }

  /** The tail of collapsed text is collapsed, and after a space comes no whitespace. */
  lemma CollapsedTail(s: string)
    requires Collapsed(s) && s != []
    ensures Collapsed(s[1..])
    ensures IsSpace(s[0]) ==> s[0] == ' ' && (s[1..] == [] || !IsSpace(s[1..][0]))
  {
    assert forall i :: 0 <= i < |s| - 1 ==> s[1..][i] == s[i + 1];
  }

  /** Stripping keeps text collapsed. */
  lemma StripCollapsed(s: string)
    requires Collapsed(s)
    ensures Collapsed(Strip(s))
  {
    var r := Strip(s);
    StripTrims(s);
    var k :| TrimmedAt(s, r, k);
    assert forall i :: 0 <= i < |r| ==> r[i] == s[k + i];
  }

  lemma NoNulNoMatch(s: string)
    requires '\0' !in s
    ensures !Contains(s, Nul)
  {
    if Contains(s, Nul) {
      ContainsHead(s, Nul);
    }
  }

  /** On text without NUL characters, cleaning a second time changes nothing. */
  lemma CleanTextIdempotent(s: string)
    requires '\0' !in s
    ensures CleanText(CleanText(s)) == CleanText(s)
    ensures Collapsed(CleanText(s))
  {
    var c := Collapse(s);
    CollapseChars(s);
    NoNulNoMatch(c);
    ReplaceAbsent(c, Nul, "");
    CollapseIsCollapsed(s);
    var t := Strip(c);
    StripCollapsed(c);
    CollapseOfCollapsed(t);
    StripKeepsAbsent(c, '\0');
    NoNulNoMatch(t);
    ReplaceAbsent(t, Nul, "");
    StripStripped(t);
  }

  lemma CollapseSamples()
    ensures Collapse("a \0 b") == "a \0 b"
    ensures Collapse("a  b") == "a b"
  {
    assert Collapse(" b") == " b";
    assert Collapse("\0 b") == "\0 b";
    assert Collapse(" \0 b") == " \0 b";
    assert LStrip(" b") == "b";
    assert Collapse("  b") == " b";
  }

  lemma NulSamples()
    ensures ReplaceAll("a \0 b", Nul, "") == "a  b"
    ensures ReplaceAll("a b", Nul, "") == "a b"
  {
    NoNulNoMatch("a b");
    ReplaceAbsent("a b", Nul, "");
  }

  lemma StripSamples()
    ensures Strip("a  b") == "a  b"
    ensures Strip("a b") == "a b"
  {
    StripStripped("a  b");
    StripStripped("a b");
  }

  /** A NUL between two spaces leaves two adjacent spaces, which a second cleaning merges. */
  lemma CleanTextNotIdempotentWithNul()
    ensures CleanText("a \0 b") == "a  b"
    ensures CleanText(CleanText("a \0 b")) == "a b"
  {
    CollapseSamples();
    NulSamples();
    StripSamples();
  }

  // ---------------------------------------------------------------- _detect_heading_level

  const Level1Keywords: seq<string> :=
    ["introduction", "abstract", "conclusion", "references", "acknowledgment", "related work", "experiments"]

  const ShortHeading: nat := 50

  predicate HasLevel1Keyword(text: string) {
    exists i :: 0 <= i < |Level1Keywords| && Contains(Lower(text), Level1Keywords[i])
  }

  /** `_detect_heading_level`: level 1 for the usual top-level headings, 2 for other short ones. */
  function HeadingLevel(text: string): (level: int)
    ensures level == 1 || level == 2
    ensures level == 2 <==> |text| < ShortHeading && !HasLevel1Keyword(text)
  {
    if HasLevel1Keyword(text) then 1
    else if |text| < ShortHeading then 2
    else 1
  }

  /** The level does not depend on the letter case of the heading. */
  lemma HeadingLevelIgnoresCase(text: string)
    ensures HeadingLevel(Lower(text)) == HeadingLevel(text)
  {
    LowerIsLower(text);
  }

  // ---------------------------------------------------------------- the extracted content

  datatype PaperSection = PaperSection(title: string, content: string, level: int)

  /** A figure record: an image with its description, or a table with its text. */
  datatype Figure = ImageFigure(description: string) | TableFigure(content: string)

  datatype PaperContent = PaperContent(
    title: string, authors: seq<string>, abstractText: string, institution: string,
    publicationDate: string, arxivId: string, doi: string, sections: seq<PaperSection>,
    figures: seq<Figure>, referencesCount: int, rawText: string, extractionMethod: string)

  /** `PaperContent()` with every field at its default. */
  const EmptyContent: PaperContent := PaperContent("", [], "", "", "", "", "", [], [], 0, "", "")

  predicate NoDuplicates(s: seq<string>) {
    forall i, j :: 0 <= i < j < |s| ==> s[i] != s[j]
  }

  // ---------------------------------------------------------------- grouping layout elements

  /** The element classes of the layout analysis, in the order the loop tests them. */
  datatype ElementKind =
    | TitleElement | AbstractElement | AuthorElement | TextElement | ImageElement | TableElement
    | OtherElement

  /** A layout element: its class, `str(element)`, and whether it has a `text` attribute. */
  datatype Element = Element(kind: ElementKind, text: string, hasText: bool)

  /** The loop's state: the content so far, the open section and the lines collected for it. */
  datatype Grouping = Grouping(content: PaperContent, current: Option<PaperSection>, lines: seq<string>)

  /** Closing the open section stores it, its lines joined, only when it collected some text. */
  function Close(g: Grouping): PaperContent {
    if g.current.Some? && g.lines != [] then
      g.content.(sections := g.content.sections + [g.current.value.(content := Join(g.lines, "\n"))])
    else g.content
  }

  /** One iteration of the element loop. */
  function Step(g: Grouping, e: Element): Grouping {
    match e.kind
    case TitleElement => Grouping(Close(g), Some(PaperSection(e.text, "", HeadingLevel(e.text))), [])
    case AbstractElement =>
      if g.content.abstractText == "" then g.(content := g.content.(abstractText := e.text)) else g
    case AuthorElement =>
      if e.text in g.content.authors then g
      else g.(content := g.content.(authors := g.content.authors + [e.text]))
    case TextElement =>
      var t := Strip(e.text);
      if t == "" then g
      else if g.current.Some? then g.(lines := g.lines + [t])
      else g.(content := g.content.(rawText := g.content.rawText + t + "\n"))
    case ImageElement => g.(content := g.content.(figures := g.content.figures + [ImageFigure(e.text)]))
    case TableElement => g.(content := g.content.(figures := g.content.figures + [TableFigure(e.text)]))
    case OtherElement => g
  }

  /** The loop run over a list of elements. */
  function Run(g: Grouping, es: seq<Element>): Grouping
    decreases |es|
  {
    if es == [] then g else Step(Run(g, es[..|es| - 1]), es[|es| - 1])
  }

  /** The text of every element that has one, in order. */
  function Texts(es: seq<Element>): (r: seq<string>)
    ensures |r| <= |es|
  {
    if es == [] then [] else (if es[0].hasText then [es[0].text] else []) + Texts(es[1..])
  }

  function Start(content: PaperContent): Grouping {
    Grouping(content, None, [])
  }

  /**
   * The grouping part of `_extract_with_unstructured`: run the loop, store the
   * last open section, and when no section was stored use all the text as raw text.
   */
  function Grouped(content: PaperContent, es: seq<Element>): PaperContent {
    var c := Close(Run(Start(content), es));
    if c.sections == [] then c.(rawText := Join(Texts(es), "\n")) else c
  }

  method GroupElements(content: PaperContent, elements: seq<Element>) returns (r: PaperContent)
    ensures r == Grouped(content, elements)
  {
    var c := content;
    var current: Option<PaperSection> := None;
    var lines: seq<string> := [];
    for i := 0 to |elements|
      invariant Grouping(c, current, lines) == Run(Start(content), elements[..i])
    {
      var e := elements[i];
      assert elements[..i + 1][..i] == elements[..i];
      match e.kind {
        case TitleElement =>
          if current.Some? && lines != [] {
            c := c.(sections := c.sections + [current.value.(content := Join(lines, "\n"))]);
          }
          current := Some(PaperSection(e.text, "", HeadingLevel(e.text)));
          lines := [];
        case AbstractElement =>
          if c.abstractText == "" {
            c := c.(abstractText := e.text);
          }
        case AuthorElement =>
          if e.text !in c.authors {
            c := c.(authors := c.authors + [e.text]);
          }
        case TextElement =>
          var t := Strip(e.text);
          if t != "" {
            if current.Some? {
              lines := lines + [t];
            } else {
              c := c.(rawText := c.rawText + t + "\n");
            }
          }
        case ImageElement =>
          c := c.(figures := c.figures + [ImageFigure(e.text)]);
        case TableElement =>
          c := c.(figures := c.figures + [TableFigure(e.text)]);
        case OtherElement =>
      }
    }
    assert elements[..|elements|] == elements;
    if current.Some? && lines != [] {
      c := c.(sections := c.sections + [current.value.(content := Join(lines, "\n"))]);
    }
    if c.sections == [] {
      c := c.(rawText := Join(Texts(elements), "\n"));
    }
    r := c;
  }

  lemma {:induction false} RunConcat(g: Grouping, a: seq<Element>, b: seq<Element>)
    ensures Run(g, a + b) == Run(Run(g, a), b)
    decreases |b|
  {
    if b == [] {
      assert a + b == a;
    } else {
      assert (a + b)[..|a + b| - 1] == a + b[..|b| - 1];
      RunConcat(g, a, b[..|b| - 1]);
    }
  }

  // ---------------------------------------------------------------- what the grouping keeps

  lemma JoinNonEmpty(parts: seq<string>, sep: string)
    requires |parts| > 0 && parts[0] != ""
    ensures Join(parts, sep) != ""
  {
  }

  /** Sections stored after `init` have text and the level their title gives; pending lines have text. */
  predicate GroupingGood(g: Grouping, init: seq<PaperSection>) {
    var ss := g.content.sections;
    |init| <= |ss| && ss[..|init|] == init
    && (forall j :: |init| <= j < |ss| ==> ss[j].content != "" && ss[j].level == HeadingLevel(ss[j].title))
    && (g.current.Some? ==> g.current.value.level == HeadingLevel(g.current.value.title))
    && (forall j :: 0 <= j < |g.lines| ==> g.lines[j] != "")
  }

  lemma CloseGood(g: Grouping, init: seq<PaperSection>)
    requires GroupingGood(g, init)
    ensures GroupingGood(Grouping(Close(g), None, []), init)
  {
    if g.current.Some? && g.lines != [] {
      JoinNonEmpty(g.lines, "\n");
      var ss := Close(g).sections;
      assert ss[..|init|] == g.content.sections[..|init|];
    }
  }

  lemma {:induction false} RunGood(g: Grouping, es: seq<Element>, init: seq<PaperSection>)
    requires GroupingGood(g, init)
    ensures GroupingGood(Run(g, es), init)
    decreases |es|
  {
    if es != [] {
      RunGood(g, es[..|es| - 1], init);
      StepGood(Run(g, es[..|es| - 1]), es[|es| - 1], init);
    }
  }

  lemma StepGood(g: Grouping, e: Element, init: seq<PaperSection>)
    requires GroupingGood(g, init)
    ensures GroupingGood(Step(g, e), init)
  {
    if e.kind == TitleElement {
      CloseGood(g, init);
    }
  }

  /**
   * Every section the grouping stores has non-empty text and the heading
   * level of its title; sections already present are kept in front.
   */
  lemma StoredSectionsHaveText(content: PaperContent, es: seq<Element>)
    ensures var ss := Grouped(content, es).sections;
      |content.sections| <= |ss| && ss[..|content.sections|] == content.sections
      && forall j :: |content.sections| <= j < |ss| ==>
        ss[j].content != "" && ss[j].level == HeadingLevel(ss[j].title)
  {
    var init := content.sections;
    assert GroupingGood(Start(content), init);
    RunGood(Start(content), es, init);
    CloseGood(Run(Start(content), es), init);
  }

  /** An author element whose text is `a`. */
  predicate AuthorAmong(es: seq<Element>, a: string) {
    exists i :: 0 <= i < |es| && es[i].kind == AuthorElement && es[i].text == a
  }

  lemma {:induction false} RunAuthors(g: Grouping, es: seq<Element>)
    ensures var authors := Run(g, es).content.authors;
      |g.content.authors| <= |authors| && authors[..|g.content.authors|] == g.content.authors
      && (NoDuplicates(g.content.authors) ==> NoDuplicates(authors))
      && (forall a :: AuthorAmong(es, a) ==> a in authors)
      && (forall a :: a in authors ==> a in g.content.authors || AuthorAmong(es, a))
    decreases |es|
  {
    if es != [] {
      var front, e := es[..|es| - 1], es[|es| - 1];
      RunAuthors(g, front);
      StepAuthors(Run(g, front), e);
      AuthorAmongSnoc(es);
      var before := Run(g, front).content.authors;
      var authors := Run(g, es).content.authors;
      assert authors[..|g.content.authors|] == before[..|g.content.authors|];
    }
  }

  /** One step adds an author element's text when it is new, and changes the authors in no other way. */
  lemma StepAuthors(g: Grouping, e: Element)
    ensures var before, after := g.content.authors, Step(g, e).content.authors;
      (after == before || (e.kind == AuthorElement && e.text !in before && after == before + [e.text]))
      && (e.kind == AuthorElement ==> e.text in after)
  {
  }

  /** An author among the elements is one among all but the last, or the last one's. */
  lemma AuthorAmongSnoc(es: seq<Element>)
    requires es != []
    ensures var front, e := es[..|es| - 1], es[|es| - 1];
      forall a :: AuthorAmong(es, a) <==> AuthorAmong(front, a) || (e.kind == AuthorElement && e.text == a)
  {
    var front, e := es[..|es| - 1], es[|es| - 1];
    forall a | AuthorAmong(es, a)
      ensures AuthorAmong(front, a) || (e.kind == AuthorElement && e.text == a)
    {
      var i :| 0 <= i < |es| && es[i].kind == AuthorElement && es[i].text == a;
      if i < |front| {
        assert front[i] == es[i];
      }
    }
    forall a | AuthorAmong(front, a)
      ensures AuthorAmong(es, a)
    {
      var i :| 0 <= i < |front| && front[i].kind == AuthorElement && front[i].text == a;
      assert es[i] == front[i];
    }
    forall a | e.kind == AuthorElement && e.text == a
      ensures AuthorAmong(es, a)
    {
      assert es[|es| - 1] == e;
    }
  }

  /**
   * Author elements are collected without duplicates: the authors already
   * known stay in front, every author element's text is present, and nothing
   * else is added.
   */
  lemma GroupedAuthors(content: PaperContent, es: seq<Element>)
    ensures var authors := Grouped(content, es).authors;
      |content.authors| <= |authors| && authors[..|content.authors|] == content.authors
      && (NoDuplicates(content.authors) ==> NoDuplicates(authors))
      && (forall a :: AuthorAmong(es, a) ==> a in authors)
      && (forall a :: a in authors ==> a in content.authors || AuthorAmong(es, a))
  {
    RunAuthors(Start(content), es);
  }

  /** The texts of the abstract elements, in order. */
  function AbstractTexts(es: seq<Element>): seq<string>
    decreases |es|
  {
    if es == [] then []
    else
      var e := es[|es| - 1];
      AbstractTexts(es[..|es| - 1]) + (if e.kind == AbstractElement then [e.text] else [])
  }

  function FirstNonEmpty(xs: seq<string>): (r: string)
    ensures r == "" || r in xs
  {
    if xs == [] then "" else if xs[0] != "" then xs[0] else FirstNonEmpty(xs[1..])
  }

  lemma {:induction false} FirstNonEmptyAppend(xs: seq<string>, x: string)
    ensures FirstNonEmpty(xs + [x]) == if FirstNonEmpty(xs) != "" then FirstNonEmpty(xs) else x
    decreases |xs|
  {
    if xs != [] {
      assert (xs + [x])[1..] == xs[1..] + [x];
      FirstNonEmptyAppend(xs[1..], x);
    }
  }

  lemma {:induction false} RunAbstract(g: Grouping, es: seq<Element>)
    ensures Run(g, es).content.abstractText == FirstNonEmpty([g.content.abstractText] + AbstractTexts(es))
    decreases |es|
  {
    if es != [] {
      var front := es[..|es| - 1];
      var e := es[|es| - 1];
      RunAbstract(g, front);
      if e.kind == AbstractElement {
        assert [g.content.abstractText] + AbstractTexts(es) == [g.content.abstractText] + AbstractTexts(front) + [e.text];
        FirstNonEmptyAppend([g.content.abstractText] + AbstractTexts(front), e.text);
      } else {
        assert AbstractTexts(es) == AbstractTexts(front);
      }
    }
  }

  /** The abstract is first-wins: a known abstract is kept, otherwise the first non-empty abstract element is taken. */
  lemma GroupedAbstract(content: PaperContent, es: seq<Element>)
    ensures Grouped(content, es).abstractText == FirstNonEmpty([content.abstractText] + AbstractTexts(es))
    ensures content.abstractText != "" ==> Grouped(content, es).abstractText == content.abstractText
  {
    RunAbstract(Start(content), es);
  }

  /** The stripped, non-empty text elements, each followed by a newline. */
  function RawLines(es: seq<Element>): string
    decreases |es|
  {
    if es == [] then "" else RawLines(es[..|es| - 1]) + RawPiece(es[|es| - 1])
  }

  predicate NoTitle(es: seq<Element>) {
    forall i :: 0 <= i < |es| ==> es[i].kind != TitleElement
  }

  /** Before the first title, text goes to the raw text and no section is open or stored. */
  lemma {:induction false} RunBeforeTitles(g: Grouping, es: seq<Element>)
    requires g.current.None? && NoTitle(es)
    ensures Run(g, es).current.None?
    ensures Run(g, es).content.sections == g.content.sections
    ensures Run(g, es).content.rawText == g.content.rawText + RawLines(es)
    decreases |es|
  {
    if es != [] {
      var front, e := es[..|es| - 1], es[|es| - 1];
      NoTitleFront(es);
      RunBeforeTitles(g, front);
      StepBeforeTitle(Run(g, front), e);
      AppendAssoc(g.content.rawText, RawLines(front), RawPiece(e));
    }
  }

  lemma NoTitleFront(es: seq<Element>)
    requires NoTitle(es) && es != []
    ensures NoTitle(es[..|es| - 1]) && es[|es| - 1].kind != TitleElement
  {
    assert forall i :: 0 <= i < |es| - 1 ==> es[..|es| - 1][i] == es[i];
  }

  lemma AppendAssoc<T>(a: seq<T>, b: seq<T>, c: seq<T>)
    ensures (a + b) + c == a + (b + c)
  {
  }

  /** What one element adds to the raw text before the first title. */
  function RawPiece(e: Element): string {
    var t := Strip(e.text);
    if e.kind == TextElement && t != "" then t + "\n" else ""
  }

  lemma StepBeforeTitle(g: Grouping, e: Element)
    requires g.current.None? && e.kind != TitleElement
    ensures Step(g, e).current.None? && Step(g, e).content.sections == g.content.sections
    ensures Step(g, e).content.rawText == g.content.rawText + RawPiece(e)
  {
  }

  /** Once a section is open, the raw text no longer changes. */
  lemma {:induction false} RunAfterTitle(g: Grouping, es: seq<Element>)
    requires g.current.Some?
    ensures Run(g, es).current.Some?
    ensures Run(g, es).content.rawText == g.content.rawText
    decreases |es|
  {
    if es != [] {
      RunAfterTitle(g, es[..|es| - 1]);
    }
  }

  /**
   * Text before the first title is kept as raw text, and text after it is
   * not; the raw text is replaced by all the text only when no section is stored.
   */
  lemma TextBeforeFirstTitle(content: PaperContent, pre: seq<Element>, title: Element, post: seq<Element>)
    requires NoTitle(pre) && title.kind == TitleElement
    ensures var g := Run(Start(content), pre + [title] + post);
      g.content.rawText == content.rawText + RawLines(pre)
  {
    RunBeforeTitles(Start(content), pre);
    var h := Run(Start(content), pre + [title]);
    RunConcat(Start(content), pre, [title]);
    RunConcat(Start(content), pre + [title], post);
    assert Run(Run(Start(content), pre), [title]) == Step(Run(Start(content), pre), title);
    RunAfterTitle(h, post);
  }

  /** Without any title and any earlier section, nothing is stored and all the text becomes the raw text. */
  lemma NoTitlesAllRawText(content: PaperContent, es: seq<Element>)
    requires NoTitle(es) && content.sections == []
    ensures Grouped(content, es).sections == []
    ensures Grouped(content, es).rawText == Join(Texts(es), "\n")
  {
    RunBeforeTitles(Start(content), es);
  }

  // ---------------------------------------------------------------- plain page text

  /** What one page adds to the full text; an empty page, or one whose extraction failed, adds nothing. */
  function PageBlock(i: nat, text: string): (r: string)
    ensures r == "" <==> text == ""
  {
    if text == "" then "" else "\n--- Page " + NatToString(i + 1) + " ---\n" + text
  }

  /** The full text of the first pages: each non-empty page behind its page marker. */
  function FullText(pages: seq<string>): string
    decreases |pages|
  {
    if pages == [] then ""
    else FullText(pages[..|pages| - 1]) + PageBlock(|pages| - 1, pages[|pages| - 1])
  }

  /** The page loop of `_extract_with_pypdf2`; `pages[i]` is the text of page `i + 1`, "" when it has none. */
  method ReadPages(pages: seq<string>) returns (full: string)
    ensures full == FullText(pages)
  {
    full := "";
    for i := 0 to |pages|
      invariant full == FullText(pages[..i])
    {
      assert pages[..i + 1][..i] == pages[..i];
      var text := pages[i];
      if text != "" {
        full := full + ("\n--- Page " + NatToString(i + 1) + " ---\n" + text);
      } else {
        assert PageBlock(i, text) == "";
      }
    }
    assert pages[..|pages|] == pages;
  }

  /** The full text is empty exactly when no page has text. */
  lemma {:induction false} FullTextEmpty(pages: seq<string>)
    ensures FullText(pages) == "" <==> forall i :: 0 <= i < |pages| ==> pages[i] == ""
    decreases |pages|
  {
    if pages != [] {
      var front := pages[..|pages| - 1];
      FullTextEmpty(front);
      assert forall i :: 0 <= i < |front| ==> front[i] == pages[i];
    }
  }

  const HeaderWords: seq<string> := ["arxiv", "proceedings", "conference"]
  const MinTitleLength: nat := 20
  const TitleScanLines: nat := 10
  const PlainAbstractCap: nat := 2000
  const PlainSectionCap: nat := 10000
  const PlainSectionTitle: string := "论文内容"

  /** A line that may be the title: longer than 20 characters and not a running header. */
  predicate TitleLike(line: string) {
    |line| > MinTitleLength && forall i :: 0 <= i < |HeaderWords| ==> !Contains(Lower(line), HeaderWords[i])
  }

  /** The stripped lines that are not blank, in order. */
  function NonBlankLines(lines: seq<string>): (r: seq<string>)
    ensures forall i :: 0 <= i < |r| ==> r[i] != "" && IsStripped(r[i])
  {
    if lines == [] then []
    else (if Strip(lines[0]) != "" then [Strip(lines[0])] else []) + NonBlankLines(lines[1..])
  }

  function FirstTitleLike(lines: seq<string>): Option<string> {
    if lines == [] then None
    else if TitleLike(lines[0]) then Some(lines[0])
    else FirstTitleLike(lines[1..])
  }

  /** The title loop: the first candidate that looks like a title. */
  method PickTitle(candidates: seq<string>) returns (title: Option<string>)
    ensures title == FirstTitleLike(candidates)
  {
    title := None;
    var i := 0;
    while i < |candidates|
      invariant 0 <= i <= |candidates|
      invariant FirstTitleLike(candidates) == FirstTitleLike(candidates[i..])
      decreases |candidates| - i
    {
      assert candidates[i..][1..] == candidates[i + 1..];
      if TitleLike(candidates[i]) {
        title := Some(candidates[i]);
        return;
      }
      i := i + 1;
    }
  }

  /** The first title-like line is chosen: every earlier line fails the test, and with none the title is not set. */
  lemma {:induction false} FirstTitleLikeSpec(lines: seq<string>)
    ensures FirstTitleLike(lines).Some? ==>
      exists i :: (0 <= i < |lines| && lines[i] == FirstTitleLike(lines).value
        && TitleLike(lines[i]) && forall j :: 0 <= j < i ==> !TitleLike(lines[j]))
    ensures FirstTitleLike(lines).None? ==> forall i :: 0 <= i < |lines| ==> !TitleLike(lines[i])
    decreases |lines|
  {
    if lines != [] && !TitleLike(lines[0]) {
      FirstTitleLikeSpec(lines[1..]);
      if FirstTitleLike(lines).Some? {
        var i :| 0 <= i < |lines[1..]| && lines[1..][i] == FirstTitleLike(lines).value
          && TitleLike(lines[1..][i]) && forall j :: 0 <= j < i ==> !TitleLike(lines[1..][j]);
        assert lines[i + 1] == lines[1..][i];
        assert forall j :: 1 <= j < i + 1 ==> lines[j] == lines[1..][j - 1];
      } else {
        assert forall i :: 1 <= i < |lines| ==> lines[i] == lines[1..][i - 1];
      }
    }
  }

  /** The title candidates: the first ten non-blank lines of the full text. */
  function TitleCandidates(full: string): seq<string> {
    Prefix(NonBlankLines(Split(full, "\n")), TitleScanLines)
  }

  /**
   * What `_extract_with_pypdf2` does after the library returns: raw text, a
   * title guessed only when none is known, an abstract only when none is
   * known (`abstractMatch` is the abstract pattern's match in the full text),
   * and one section holding the start of the text.
   */
  function PlainContent(content: PaperContent, pages: seq<string>, abstractMatch: Option<string>): PaperContent {
    var full := FullText(pages);
    var c1 := content.(rawText := full);
    var c2 := if c1.title == "" && FirstTitleLike(TitleCandidates(full)).Some? then
        c1.(title := FirstTitleLike(TitleCandidates(full)).value)
      else c1;
    var c3 := if c2.abstractText == "" && abstractMatch.Some? then
        c2.(abstractText := Prefix(Strip(abstractMatch.value), PlainAbstractCap))
      else c2;
    if full != "" then
      c3.(sections := c3.sections + [PaperSection(PlainSectionTitle, Prefix(full, PlainSectionCap), 1)])
    else c3
  }

  method PlainExtract(content: PaperContent, pages: seq<string>, abstractMatch: Option<string>)
    returns (r: PaperContent)
    ensures r == PlainContent(content, pages, abstractMatch)
  {
    var full := ReadPages(pages);
    r := content.(rawText := full);
    if r.title == "" {
      var lines := NonBlankLines(Split(full, "\n"));
      if lines != [] {
        var title := PickTitle(Prefix(lines, TitleScanLines));
        if title.Some? {
          r := r.(title := title.value);
        }
      }
    }
    if r.abstractText == "" && abstractMatch.Some? {
      r := r.(abstractText := Prefix(Strip(abstractMatch.value), PlainAbstractCap));
    }
    if full != "" {
      r := r.(sections := r.sections + [PaperSection(PlainSectionTitle, Prefix(full, PlainSectionCap), 1)]);
    }
  }

  /**
   * The fallback keeps a known title and abstract; a guessed title is a
   * title-like line among the first ten non-blank ones with no earlier
   * title-like line; a found abstract has at most 2000 characters; at most
   * one section of at most 10000 characters is added, exactly when some page has text.
   */
  lemma PlainContentShape(content: PaperContent, pages: seq<string>, abstractMatch: Option<string>)
    ensures var r := PlainContent(content, pages, abstractMatch);
      && (content.title != "" ==> r.title == content.title)
      && (content.abstractText != "" ==> r.abstractText == content.abstractText)
      && (content.abstractText == "" && abstractMatch.Some? ==> |r.abstractText| <= PlainAbstractCap)
      && (r.title != content.title ==>
        exists i :: (0 <= i < |TitleCandidates(r.rawText)| && TitleCandidates(r.rawText)[i] == r.title
          && TitleLike(r.title) && forall j :: 0 <= j < i ==> !TitleLike(TitleCandidates(r.rawText)[j])))
      && |TitleCandidates(r.rawText)| <= TitleScanLines
      && (|r.sections| == |content.sections| + 1 <==> exists i :: 0 <= i < |pages| && pages[i] != "")
      && |r.sections| <= |content.sections| + 1
      && r.sections[..|content.sections|] == content.sections
      && (|r.sections| > |content.sections| ==> |r.sections[|content.sections|].content| <= PlainSectionCap)
  {
    PlainTitleGuess(content, pages, abstractMatch);
    PlainSectionAdded(content, pages, abstractMatch);
  }

  /** A guessed title is the first title-like line among the candidates. */
  lemma PlainTitleGuess(content: PaperContent, pages: seq<string>, abstractMatch: Option<string>)
    ensures var r := PlainContent(content, pages, abstractMatch);
      && (r.title != content.title ==>
        exists i :: (0 <= i < |TitleCandidates(r.rawText)| && TitleCandidates(r.rawText)[i] == r.title
          && TitleLike(r.title) && forall j :: 0 <= j < i ==> !TitleLike(TitleCandidates(r.rawText)[j])))
      && |TitleCandidates(r.rawText)| <= TitleScanLines
  {
    var full := FullText(pages);
    assert PlainContent(content, pages, abstractMatch).rawText == full;
    FirstTitleLikeSpec(TitleCandidates(full));
  }

  /** One capped section is appended exactly when some page has text. */
  lemma PlainSectionAdded(content: PaperContent, pages: seq<string>, abstractMatch: Option<string>)
    ensures var r := PlainContent(content, pages, abstractMatch);
      && (|r.sections| == |content.sections| + 1 <==> exists i :: 0 <= i < |pages| && pages[i] != "")
      && |r.sections| <= |content.sections| + 1
      && r.sections[..|content.sections|] == content.sections
      && (|r.sections| > |content.sections| ==> |r.sections[|content.sections|].content| <= PlainSectionCap)
  {
    var r := PlainContent(content, pages, abstractMatch);
    FullTextEmpty(pages);
    assert r.sections[..|content.sections|] == content.sections;
  }

  // ---------------------------------------------------------------- _post_process

  const AbstractCap: nat := 3000
  const InstitutionScan: nat := 2000

  /** The three institution patterns, tried in this order. */
  datatype InstitutionPattern = UniversityPattern | DepartmentPattern | SchoolOfPattern

  const InstitutionPatterns: seq<InstitutionPattern> := [UniversityPattern, DepartmentPattern, SchoolOfPattern]

  /** An abstract longer than 3000 characters is cut to 3000 and marked with "...". */
  function CapAbstract(a: string): (r: string)
    ensures |r| <= AbstractCap + 3
    ensures |a| <= AbstractCap ==> r == a
    ensures |a| > AbstractCap ==> |r| == AbstractCap + 3 && r[..AbstractCap] == a[..AbstractCap] && EndsWith(r, "...")
  {
    if |a| > AbstractCap then a[..AbstractCap] + "..." else a
  }

  /** The authors whose stripped form is not empty, each cleaned. */
  function CleanAuthors(authors: seq<string>): (r: seq<string>)
    ensures |r| <= |authors|
  {
    if authors == [] then []
    else (if Strip(authors[0]) != "" then [CleanText(authors[0])] else []) + CleanAuthors(authors[1..])
  }

  /** A plausible institution name: longer than 5 and shorter than 100 characters. */
  predicate PlausibleInstitution(name: string) {
    5 < |name| < 100
  }

  /**
   * The institution from the first pattern whose cleaned match is plausible;
   * `search(p, text)` is group 1 of pattern `p`'s first match in `text`.
   */
  function InstitutionFrom(ps: seq<InstitutionPattern>, text: string, search: (InstitutionPattern, string) -> Option<string>)
    : Option<string>
  {
    if ps == [] then None
    else if Candidate(ps[0], text, search).Some? then Candidate(ps[0], text, search)
    else InstitutionFrom(ps[1..], text, search)
  }

  /** What one pattern proposes: its cleaned match, when it matched and the result is plausible. */
  function Candidate(p: InstitutionPattern, text: string, search: (InstitutionPattern, string) -> Option<string>)
    : Option<string>
  {
    match search(p, text)
    case Some(m) => if PlausibleInstitution(CleanText(m)) then Some(CleanText(m)) else None
    case None => None
  }

  /** What `_post_process` does to the content. */
  function PostProcessed(content: PaperContent, search: (InstitutionPattern, string) -> Option<string>): PaperContent {
    var title := if content.title != "" then CleanText(content.title) else content.title;
    var abstractText := if content.abstractText != "" then CapAbstract(CleanText(content.abstractText)) else content.abstractText;
    var institution :=
      if content.institution == "" && content.rawText != "" then
        InstitutionFrom(InstitutionPatterns, Prefix(content.rawText, InstitutionScan), search).GetOr(content.institution)
      else content.institution;
    content.(title := title, abstractText := abstractText, authors := CleanAuthors(content.authors), institution := institution)
  }

  method PostProcess(content: PaperContent, search: (InstitutionPattern, string) -> Option<string>)
    returns (r: PaperContent)
    ensures r == PostProcessed(content, search)
  {
    r := content;
    if r.title != "" {
      r := r.(title := CleanText(r.title));
    }
    if r.abstractText != "" {
      r := r.(abstractText := CleanText(r.abstractText));
      if |r.abstractText| > AbstractCap {
        r := r.(abstractText := r.abstractText[..AbstractCap] + "...");
      }
    }
    r := r.(authors := CleanAuthors(r.authors));
    if r.institution == "" && r.rawText != "" {
      var text := Prefix(r.rawText, InstitutionScan);
      var i := 0;
      while i < |InstitutionPatterns|
        invariant 0 <= i <= |InstitutionPatterns|
        invariant r.institution == ""
        invariant InstitutionFrom(InstitutionPatterns, text, search) == InstitutionFrom(InstitutionPatterns[i..], text, search)
        decreases |InstitutionPatterns| - i
      {
        assert InstitutionPatterns[i..][1..] == InstitutionPatterns[i + 1..];
        var found := search(InstitutionPatterns[i], text);
        if found.Some? {
          var institution := CleanText(found.value);
          if PlausibleInstitution(institution) {
            r := r.(institution := institution);
            return;
          }
        }
        i := i + 1;
      }
    }
  }

  /** Authors that are blank are dropped, the others are cleaned and keep their order. */
  lemma {:induction false} CleanAuthorsSpec(authors: seq<string>)
    ensures forall a :: a in authors && Strip(a) != "" ==> CleanText(a) in CleanAuthors(authors)
    ensures forall x :: x in CleanAuthors(authors) ==> exists a :: a in authors && Strip(a) != "" && x == CleanText(a)
    ensures (forall a :: a in authors ==> Strip(a) != "") ==> |CleanAuthors(authors)| == |authors|
    decreases |authors|
  {
    if authors != [] {
      CleanAuthorsSpec(authors[1..]);
      forall x | x in CleanAuthors(authors)
        ensures exists a :: a in authors && Strip(a) != "" && x == CleanText(a)
      {
        if x !in CleanAuthors(authors[1..]) {
          assert x == CleanText(authors[0]);
        } else {
          var a :| a in authors[1..] && Strip(a) != "" && x == CleanText(a);
          assert a in authors;
        }
      }
    }
  }

  /** An author made of a NUL character is not blank to `strip()`, so it survives as an empty name. */
  lemma NulAuthorKept()
    ensures Strip(Nul) == Nul
    ensures CleanAuthors([Nul]) == [""]
  {
    assert Collapse(Nul) == Nul;
    assert ReplaceAll(Nul, Nul, "") == "";
    StripStripped(Nul);
  }

  /**
   * The chosen institution comes from the first pattern whose cleaned match
   * is plausible; every earlier pattern found nothing or something implausible.
   */
  lemma {:induction false} InstitutionFromSpec(ps: seq<InstitutionPattern>, text: string, search: (InstitutionPattern, string) -> Option<string>)
    ensures var r := InstitutionFrom(ps, text, search);
      && (r.Some? ==>
            PlausibleInstitution(r.value)
            && exists i :: (0 <= i < |ps| && Candidate(ps[i], text, search) == r
                 && forall j :: 0 <= j < i ==> Candidate(ps[j], text, search).None?))
      && (r.None? ==> forall i :: 0 <= i < |ps| ==> Candidate(ps[i], text, search).None?)
    decreases |ps|
  {
    if ps != [] {
      InstitutionFromSpec(ps[1..], text, search);
      var r := InstitutionFrom(ps, text, search);
      if Candidate(ps[0], text, search).None? {
        assert r == InstitutionFrom(ps[1..], text, search);
        if r.Some? {
          var i :| (0 <= i < |ps[1..]| && Candidate(ps[1..][i], text, search) == r
            && forall j :: 0 <= j < i ==> Candidate(ps[1..][j], text, search).None?);
          assert ps[i + 1] == ps[1..][i];
          assert forall j :: 1 <= j < i + 1 ==> ps[j] == ps[1..][j - 1];
        } else {
          assert forall i :: 1 <= i < |ps| ==> ps[i] == ps[1..][i - 1];
        }
      } else {
        assert Candidate(ps[0], text, search) == r;
      }
    }
  }

  /**
   * Post-processing cleans the title, abstract and authors, caps the abstract
   * at 3000 characters plus "...", fills a missing institution only with a
   * plausible name, and leaves every other field alone.
   */
  lemma PostProcessedShape(content: PaperContent, search: (InstitutionPattern, string) -> Option<string>)
    ensures var r := PostProcessed(content, search);
      && IsStripped(r.title) && '\0' !in r.title
      && (content.title != "" ==> r.title == CleanText(content.title))
      && '\0' !in r.abstractText && |r.abstractText| <= AbstractCap + 3
      && (forall i :: 0 <= i < |r.authors| ==> IsStripped(r.authors[i]) && '\0' !in r.authors[i])
      && (r.institution == content.institution
          || (content.institution == "" && content.rawText != "" && PlausibleInstitution(r.institution)))
      && r.sections == content.sections && r.rawText == content.rawText && r.figures == content.figures
      && r.arxivId == content.arxivId && r.doi == content.doi && r.publicationDate == content.publicationDate
      && r.extractionMethod == content.extractionMethod
  {
    var r := PostProcessed(content, search);
    StripEmpty(content.title);
    StripEmpty(content.abstractText);
    if content.abstractText != "" {
      var a := CleanText(content.abstractText);
      assert forall c :: c in a[..Min(|a|, AbstractCap)] ==> c in a;
    }
    CleanAuthorsSpec(content.authors);
    forall i | 0 <= i < |r.authors|
      ensures IsStripped(r.authors[i]) && '\0' !in r.authors[i]
    {
      assert r.authors[i] in CleanAuthors(content.authors);
    }
    if content.institution == "" && content.rawText != "" {
      InstitutionFromSpec(InstitutionPatterns, Prefix(content.rawText, InstitutionScan), search);
    }
  }

  // ---------------------------------------------------------------- extract

  /** The metadata known from the download step; a missing key is `None`. */
  datatype Metadata = Metadata(
    title: Option<string>, authors: Option<seq<string>>, abstractText: Option<string>,
    publicationDate: Option<string>, arxivId: Option<string>, doi: Option<string>)

  /** The content before extraction: known metadata copied in, every missing key at its default. */
  function Prefilled(metadata: Option<Metadata>): (c: PaperContent)
    ensures c.sections == [] && c.rawText == "" && c.institution == ""
  {
    match metadata
    case None => EmptyContent
    case Some(m) =>
      EmptyContent.(title := m.title.GetOr(""), authors := m.authors.GetOr([]), abstractText := m.abstractText.GetOr(""),
        publicationDate := m.publicationDate.GetOr(""), arxivId := m.arxivId.GetOr(""), doi := m.doi.GetOr(""))
  }

  /** What the plain-text library yields: the text of each page and the abstract pattern's match. */
  datatype PlainText = PlainText(pages: seq<string>, abstractMatch: Option<string>)

  datatype ExtractError =
    | NoExtractionLibrary  // neither library is installed
    | PlainReadFailed      // the plain-text library raised while reading the file

  const LayoutMethod: string := "unstructured"
  const PlainMethod: string := "pypdf2"

  /**
   * `extract`: prefill from the metadata, group the layout elements when the
   * layout analysis succeeds (`layout` is `None` when it raised), otherwise
   * fall back to the plain page text, then post-process.
   */
  function Extracted(metadata: Option<Metadata>, layout: Option<seq<Element>>, plain: Result<PlainText, ExtractError>,
                     search: (InstitutionPattern, string) -> Option<string>): Result<PaperContent, ExtractError>
  {
    var content := Prefilled(metadata);
    if layout.Some? then
      Ok(PostProcessed(Grouped(content, layout.value).(extractionMethod := LayoutMethod), search))
    else if plain.Ok? then
      Ok(PostProcessed(PlainContent(content, plain.value.pages, plain.value.abstractMatch).(extractionMethod := PlainMethod), search))
    else Err(plain.error)
  }

  method Extract(metadata: Option<Metadata>, layout: Option<seq<Element>>, plain: Result<PlainText, ExtractError>,
                 search: (InstitutionPattern, string) -> Option<string>) returns (r: Result<PaperContent, ExtractError>)
    ensures r == Extracted(metadata, layout, plain, search)
  {
    var content := Prefilled(metadata);
    if layout.Some? {
      content := GroupElements(content, layout.value);
      content := content.(extractionMethod := LayoutMethod);
    } else if plain.Ok? {
      content := PlainExtract(content, plain.value.pages, plain.value.abstractMatch);
      content := content.(extractionMethod := PlainMethod);
    } else {
      return Err(plain.error);
    }
    content := PostProcess(content, search);
    r := Ok(content);
  }

  /** The grouping loop never touches the title or the identifiers. */
  lemma {:induction false} RunKeepsMetadata(g: Grouping, es: seq<Element>)
    ensures var c := Run(g, es).content;
      c.title == g.content.title && c.publicationDate == g.content.publicationDate
      && c.arxivId == g.content.arxivId && c.doi == g.content.doi
    decreases |es|
  {
    if es != [] {
      RunKeepsMetadata(g, es[..|es| - 1]);
    }
  }

  lemma PostProcessedKeepsIds(content: PaperContent, search: (InstitutionPattern, string) -> Option<string>)
    ensures var r := PostProcessed(content, search);
      r.arxivId == content.arxivId && r.doi == content.doi && r.publicationDate == content.publicationDate
      && r.extractionMethod == content.extractionMethod
      && (content.title != "" ==> r.title == CleanText(content.title))
  {
  }

  /**
   * The identifiers and date of the metadata pass through extraction
   * unchanged, a known title comes out cleaned, and the method names the
   * library that produced the content.
   */
  lemma ExtractKeepsMetadata(metadata: Option<Metadata>, layout: Option<seq<Element>>, plain: Result<PlainText, ExtractError>,
                             search: (InstitutionPattern, string) -> Option<string>)
    ensures var r := Extracted(metadata, layout, plain, search);
      && (r.Err? <==> layout.None? && plain.Err?)
      && (r.Ok? ==>
            && r.value.arxivId == Prefilled(metadata).arxivId && r.value.doi == Prefilled(metadata).doi
            && r.value.publicationDate == Prefilled(metadata).publicationDate
            && (Prefilled(metadata).title != "" ==> r.value.title == CleanText(Prefilled(metadata).title))
            && (r.value.extractionMethod == LayoutMethod <==> layout.Some?))
  {
    var content := Prefilled(metadata);
    if layout.Some? {
      RunKeepsMetadata(Start(content), layout.value);
      PostProcessedKeepsIds(Grouped(content, layout.value).(extractionMethod := LayoutMethod), search);
    } else if plain.Ok? {
      var c := PlainContent(content, plain.value.pages, plain.value.abstractMatch);
      assert c.arxivId == content.arxivId && c.doi == content.doi && c.publicationDate == content.publicationDate;
      assert content.title != "" ==> c.title == content.title;
      PostProcessedKeepsIds(c.(extractionMethod := PlainMethod), search);
    }
  }
}
