/**
 * The content analyser: the article outline, its defaults when the model's
 * answer cannot be decoded, the fallback outline used when analysis fails,
 * and the choice of illustration prompts for an outline.
 */
module Analyzer {
  import opened Wrappers
  import opened Text
  import Extractor

  /** A metric record of an outline section; a missing key is `None`. */
  datatype Metric = Metric(name: Option<string>, value: Option<string>, meaning: Option<string>)

  /**
   * One outline section, a dictionary in the program; a missing key is
   * `None`. `detail` is the one descriptive text a section type carries: the
   * analogy, the pain point or the closing question.
   */
  datatype OutlineSection = OutlineSection(
    sectionType: Option<string>, title: Option<string>, subtitle: Option<string>, detail: Option<string>,
    keyConcepts: Option<seq<string>>, metrics: Option<seq<Metric>>, implications: Option<seq<string>>)

  datatype ArticleOutline = ArticleOutline(
    articleType: string, coreInnovation: string, analogyTheme: string, sections: seq<OutlineSection>)

  /** A section with the given type and title, every other key missing. */
  function Plain(sectionType: string, title: string): OutlineSection {
    OutlineSection(Some(sectionType), Some(title), None, None, None, None, None)
  }

  /** The section types in article order. */
  const ArticleOrder: seq<string> := ["hero", "intro", "problem", "method", "results", "impact", "conclusion"]

  function Types(sections: seq<OutlineSection>): (r: seq<Option<string>>)
    ensures |r| == |sections|
    ensures forall i :: 0 <= i < |r| ==> r[i] == sections[i].sectionType
  {
    seq(|sections|, i requires 0 <= i < |sections| => sections[i].sectionType)
  }

  function InOrder(types: seq<string>): (r: seq<Option<string>>)
    ensures |r| == |types|
    ensures forall i :: 0 <= i < |r| ==> r[i] == Some(types[i])
  {
    seq(|types|, i requires 0 <= i < |types| => Some(types[i]))
  }

  // ---------------------------------------------------------------- _parse_outline and its text fallback

  /** The decoded JSON object of the model's answer; a missing key is `None`. */
  datatype OutlineData = OutlineData(
    articleType: Option<string>, coreInnovation: Option<string>, analogyTheme: Option<string>,
    sections: Option<seq<OutlineSection>>)

  /** The sections the text fallback always uses. */
  const TextFallbackSections: seq<OutlineSection> := [
    Plain("hero", "论文解读").(subtitle := Some("「一项有趣的技术创新」")),
    Plain("intro", "从生活谈起").(detail := Some("这项技术和我们的生活息息相关")),
    Plain("problem", "问题的提出").(detail := Some("现有方法存在局限")),
    Plain("method", "解决方案").(keyConcepts := Some(["创新点1", "创新点2"])),
    Plain("results", "实验结果").(metrics := Some([])),
    Plain("impact", "意义与影响").(implications := Some([])),
    Plain("conclusion", "总结").(detail := Some("这项技术将走向何方？"))
  ]

  /**
   * `_parse_outline_text`: each field is set, stripped, only when its pattern
   * matched (`typeMatch` and the others are group 1 of the three patterns'
   * first match in the answer); the sections are always the fallback ones.
   */
  function OutlineFromText(typeMatch: Option<string>, innovationMatch: Option<string>, analogyMatch: Option<string>)
    : ArticleOutline
  {
    ArticleOutline(
      if typeMatch.Some? then Strip(typeMatch.value) else "",
      if innovationMatch.Some? then Strip(innovationMatch.value) else "",
      if analogyMatch.Some? then Strip(analogyMatch.value) else "",
      TextFallbackSections)
  }

  method ParseOutlineText(typeMatch: Option<string>, innovationMatch: Option<string>, analogyMatch: Option<string>)
    returns (outline: ArticleOutline)
    ensures outline == OutlineFromText(typeMatch, innovationMatch, analogyMatch)
  {
    outline := ArticleOutline("", "", "", []);
    if typeMatch.Some? {
      outline := outline.(articleType := Strip(typeMatch.value));
    }
    if innovationMatch.Some? {
      outline := outline.(coreInnovation := Strip(innovationMatch.value));
    }
    if analogyMatch.Some? {
      outline := outline.(analogyTheme := Strip(analogyMatch.value));
    }
    outline := outline.(sections := TextFallbackSections);
  }

  /** The text fallback yields the seven sections in article order; a field whose pattern did not match stays empty. */
  lemma OutlineFromTextShape(typeMatch: Option<string>, innovationMatch: Option<string>, analogyMatch: Option<string>)
    ensures var o := OutlineFromText(typeMatch, innovationMatch, analogyMatch);
      && Types(o.sections) == InOrder(ArticleOrder)
      && (typeMatch.None? ==> o.articleType == "") && (innovationMatch.None? ==> o.coreInnovation == "")
      && (analogyMatch.None? ==> o.analogyTheme == "")
      && IsStripped(o.articleType) && IsStripped(o.coreInnovation) && IsStripped(o.analogyTheme)
  {
  }

  const DefaultArticleType: string := "技术创新"
  const DefaultAnalogyTheme: string := "日常生活"

  /**
   * `_parse_outline`: a decoded answer (`decoded`, `None` when decoding
   * failed) gives the outline with its missing keys defaulted; otherwise the
   * text fallback is used.
   */
  function ParseOutline(decoded: Option<OutlineData>, typeMatch: Option<string>, innovationMatch: Option<string>,
                        analogyMatch: Option<string>): (o: ArticleOutline)
  {
    match decoded
    case Some(d) =>
      ArticleOutline(d.articleType.GetOr(DefaultArticleType), d.coreInnovation.GetOr(""),
        d.analogyTheme.GetOr(DefaultAnalogyTheme), d.sections.GetOr([]))
    case None => OutlineFromText(typeMatch, innovationMatch, analogyMatch)
  }

  /** A decoded answer keeps every key it has and fills each missing one with its default. */
  lemma ParseOutlineDefaults(d: OutlineData, typeMatch: Option<string>, innovationMatch: Option<string>, analogyMatch: Option<string>)
    ensures var o := ParseOutline(Some(d), typeMatch, innovationMatch, analogyMatch);
      && (d.articleType.Some? ==> o.articleType == d.articleType.value) && (d.articleType.None? ==> o.articleType == DefaultArticleType)
      && (d.coreInnovation.Some? ==> o.coreInnovation == d.coreInnovation.value) && (d.coreInnovation.None? ==> o.coreInnovation == "")
      && (d.analogyTheme.Some? ==> o.analogyTheme == d.analogyTheme.value) && (d.analogyTheme.None? ==> o.analogyTheme == DefaultAnalogyTheme)
      && (d.sections.Some? ==> o.sections == d.sections.value) && (d.sections.None? ==> o.sections == [])
  {
  }

  // ---------------------------------------------------------------- _generate_illustration_prompts

  /** The picture a prompt asks for; the prompt's English wording is fixed per kind apart from these fields. */
  datatype Picture =
    | ArchitectureDiagram(titleHead: string)
    | ProblemScenario
    | AlgorithmFlowchart(topic: string)
    | ComparisonChart
    | ApplicationDiagram

  datatype IllustrationPrompt = IllustrationPrompt(section: string, picture: Picture, style: string, negativePrompt: string)

  const DefaultNegativePrompt: string := "文字、字母、数字、水印、杂乱背景"
  const HeroStyle: string := "技术架构图，扁平设计，中文标签"
  const IntroStyle: string := "问题场景图，信息图表，中文标签"
  const MethodStyle: string := "算法流程图，标准符号，中文标签"
  const ComparisonStyle: string := "对比图表，数据可视化，中文标签"
  const ConclusionStyle: string := "科幻未来感插画，温馨 optimistic"
  /** How much of the paper title the hero diagram is given. */
  const HeroTitleLength: nat := 50
  const DefaultTopic: string := "核心方法"
  const ConceptSeparator: string := "、"

  /** Some section of the outline has type `t`. */
  predicate Found(sections: seq<OutlineSection>, t: string) {
    exists i :: 0 <= i < |sections| && sections[i].sectionType == Some(t)
  }

  /** `next((s for s in sections if s.get("type") == t), None)`. */
  function FirstOfType(sections: seq<OutlineSection>, t: string): (r: Option<OutlineSection>)
  {
    if |sections| == 0 then None
    else if sections[0].sectionType == Some(t) then Some(sections[0])
    else FirstOfType(sections[1..], t)
  }

  /** The search finds a section exactly when one has the type, and then the first such one. */
  lemma {:induction false} FirstOfTypeSpec(sections: seq<OutlineSection>, t: string)
    ensures FirstOfType(sections, t).Some? <==> Found(sections, t)
    ensures FirstOfType(sections, t).Some? ==> exists i :: (
      0 <= i < |sections| && sections[i] == FirstOfType(sections, t).value && sections[i].sectionType == Some(t)
      && forall j :: 0 <= j < i ==> sections[j].sectionType != Some(t))
    decreases |sections|
  {
    if |sections| > 0 && sections[0].sectionType != Some(t) {
      FirstOfTypeSpec(sections[1..], t);
      if Found(sections, t) {
        var i :| 0 <= i < |sections| && sections[i].sectionType == Some(t);
        assert sections[1..][i - 1] == sections[i];
      }
      if FirstOfType(sections, t).Some? {
        var i :| (0 <= i < |sections[1..]| && sections[1..][i] == FirstOfType(sections, t).value
          && sections[1..][i].sectionType == Some(t)
          && forall j :: 0 <= j < i ==> sections[1..][j].sectionType != Some(t));
        assert forall j :: 0 < j < i + 1 ==> sections[j] == sections[1..][j - 1];
        assert sections[i + 1] == sections[1..][i];
      }
    } else if |sections| > 0 {
      assert sections[0].sectionType == Some(t);
    }
  }

  method FindFirst(sections: seq<OutlineSection>, t: string) returns (r: Option<OutlineSection>)
    ensures r == FirstOfType(sections, t)
  {
    var i := 0;
    while i < |sections|
      invariant i <= |sections|
      invariant FirstOfType(sections[i..], t) == FirstOfType(sections, t)
    {
      if sections[i].sectionType == Some(t) {
        return Some(sections[i]);
      }
      assert sections[i..][1..] == sections[i + 1..];
      i := i + 1;
    }
    return None;
  }

  /** The topic of the method flowchart: the first two key concepts joined, or the default topic when there are none. */
  function MethodTopic(method_: OutlineSection): string {
    var concepts := method_.keyConcepts.GetOr([]);
    if |concepts| > 0 then Join(Prefix(concepts, 2), ConceptSeparator) else DefaultTopic
  }

  function HeroPrompt(paperTitle: string): IllustrationPrompt {
    IllustrationPrompt("hero", ArchitectureDiagram(Prefix(paperTitle, HeroTitleLength)), HeroStyle, DefaultNegativePrompt)
  }

  const IntroPrompt: IllustrationPrompt := IllustrationPrompt("intro", ProblemScenario, IntroStyle, DefaultNegativePrompt)
  const ComparisonPrompt: IllustrationPrompt :=
    IllustrationPrompt("comparison", ComparisonChart, ComparisonStyle, DefaultNegativePrompt)
  const ConclusionPrompt: IllustrationPrompt :=
    IllustrationPrompt("conclusion", ApplicationDiagram, ConclusionStyle, DefaultNegativePrompt)

  function MethodPrompt(method_: OutlineSection): IllustrationPrompt {
    IllustrationPrompt("method", AlgorithmFlowchart(MethodTopic(method_)), MethodStyle, DefaultNegativePrompt)
  }

  /** The prompt for the first section of type `t`, when there is one. */
  function PromptIf(sections: seq<OutlineSection>, t: string, p: IllustrationPrompt): seq<IllustrationPrompt> {
    if FirstOfType(sections, t).Some? then [p] else []
  }

  /** What `_generate_illustration_prompts(outline, paper_content)` returns, given the paper's title. */
  function IllustrationPrompts(outline: ArticleOutline, paperTitle: string): seq<IllustrationPrompt> {
    var s := outline.sections;
    var methodPrompt := match FirstOfType(s, "method")
      case Some(m) => [MethodPrompt(m)]
      case None => [];
    [HeroPrompt(paperTitle)] + PromptIf(s, "intro", IntroPrompt) + methodPrompt
    + PromptIf(s, "problem", ComparisonPrompt) + PromptIf(s, "conclusion", ConclusionPrompt)
  }

  method GenerateIllustrationPrompts(outline: ArticleOutline, paperContent: Extractor.PaperContent)
    returns (prompts: seq<IllustrationPrompt>)
    ensures prompts == IllustrationPrompts(outline, paperContent.title)
  {
    prompts := [];
    prompts := prompts + [HeroPrompt(paperContent.title)];
    var intro := FindFirst(outline.sections, "intro");
    if intro.Some? {
      prompts := prompts + [IntroPrompt];
    }
    var methodSection := FindFirst(outline.sections, "method");
    if methodSection.Some? {
      prompts := prompts + [MethodPrompt(methodSection.value)];
    }
    var problem := FindFirst(outline.sections, "problem");
    if problem.Some? {
      prompts := prompts + [ComparisonPrompt];
    }
    var conclusion := FindFirst(outline.sections, "conclusion");
    if conclusion.Some? {
      prompts := prompts + [ConclusionPrompt];
    }
  }

  /** The place of each prompt's section in the order the prompts are produced. */
  function Rank(section: string): nat {
    if section == "hero" then 0
    else if section == "intro" then 1
    else if section == "method" then 2
    else if section == "comparison" then 3
    else 4
  }

  predicate HasPrompt(prompts: seq<IllustrationPrompt>, section: string) {
    exists i :: 0 <= i < |prompts| && prompts[i].section == section
  }

  /**
   * The hero diagram always comes first and carries the title's first 50
   * characters; each other picture is present exactly when the outline has a
   * section of its type (the comparison for a problem section); at most one
   * prompt per picture, in a fixed order.
   */
  lemma IllustrationPromptsShape(outline: ArticleOutline, paperTitle: string)
    ensures var r := IllustrationPrompts(outline, paperTitle);
      && 1 <= |r| <= 5
      && r[0].section == "hero" && r[0].picture == ArchitectureDiagram(Prefix(paperTitle, HeroTitleLength))
      && |r[0].picture.titleHead| == Min(|paperTitle|, HeroTitleLength)
      && (HasPrompt(r, "intro") <==> Found(outline.sections, "intro"))
      && (HasPrompt(r, "method") <==> Found(outline.sections, "method"))
      && (HasPrompt(r, "comparison") <==> Found(outline.sections, "problem"))
      && (HasPrompt(r, "conclusion") <==> Found(outline.sections, "conclusion"))
      && Ranked(r)
      && (forall i :: 0 <= i < |r| ==> r[i].negativePrompt == DefaultNegativePrompt)
  {
    var s := outline.sections;
    FirstOfTypeSpec(s, "intro");
    FirstOfTypeSpec(s, "method");
    FirstOfTypeSpec(s, "problem");
    FirstOfTypeSpec(s, "conclusion");
    PromptsRanked(outline, paperTitle);
    PromptsNaming(outline, paperTitle, "intro");
    PromptsNaming(outline, paperTitle, "method");
    PromptsNaming(outline, paperTitle, "comparison");
    PromptsNaming(outline, paperTitle, "conclusion");
  }

  /** The prompts come in a fixed order, at most five, the hero first. */
  lemma PromptsRanked(outline: ArticleOutline, paperTitle: string)
    ensures var r := IllustrationPrompts(outline, paperTitle);
      && 1 <= |r| <= 5 && r[0] == HeroPrompt(paperTitle) && Ranked(r)
      && |r| == 1 + |PromptIf(outline.sections, "intro", IntroPrompt)| + (if FirstOfType(outline.sections, "method").Some? then 1 else 0)
        + |PromptIf(outline.sections, "problem", ComparisonPrompt)| + |PromptIf(outline.sections, "conclusion", ConclusionPrompt)|
      && (forall i :: 0 <= i < |r| ==> r[i].negativePrompt == DefaultNegativePrompt)
  {
    var s := outline.sections;
    var methodPrompt := match FirstOfType(s, "method")
      case Some(m) => [MethodPrompt(m)]
      case None => [];
    var r0 := [HeroPrompt(paperTitle)];
    var r1 := r0 + PromptIf(s, "intro", IntroPrompt);
    AppendRanked(r0, PromptIf(s, "intro", IntroPrompt), 1);
    var r2 := r1 + methodPrompt;
    AppendRanked(r1, methodPrompt, 2);
    var r3 := r2 + PromptIf(s, "problem", ComparisonPrompt);
    AppendRanked(r2, PromptIf(s, "problem", ComparisonPrompt), 3);
    var r4 := r3 + PromptIf(s, "conclusion", ConclusionPrompt);
    AppendRanked(r3, PromptIf(s, "conclusion", ConclusionPrompt), 4);
    assert r4 == IllustrationPrompts(outline, paperTitle);
  }

  /** Which sections the prompts name: the hero and one per type the outline has. */
  lemma PromptsNaming(outline: ArticleOutline, paperTitle: string, x: string)
    ensures var s := outline.sections;
      HasPrompt(IllustrationPrompts(outline, paperTitle), x) <==> (
        || x == "hero"
        || (FirstOfType(s, "intro").Some? && x == "intro") || (FirstOfType(s, "method").Some? && x == "method")
        || (FirstOfType(s, "problem").Some? && x == "comparison")
        || (FirstOfType(s, "conclusion").Some? && x == "conclusion"))
  {
    var s := outline.sections;
    var methodPrompt := match FirstOfType(s, "method")
      case Some(m) => [MethodPrompt(m)]
      case None => [];
    var r0 := [HeroPrompt(paperTitle)];
    var r1 := r0 + PromptIf(s, "intro", IntroPrompt);
    var r2 := r1 + methodPrompt;
    var r3 := r2 + PromptIf(s, "problem", ComparisonPrompt);
    var r4 := r3 + PromptIf(s, "conclusion", ConclusionPrompt);
    assert r4 == IllustrationPrompts(outline, paperTitle);
    assert HasPrompt(r0, x) <==> x == "hero" by {
      assert r0[0].section == "hero";
    }
    HasPromptIf(s, "intro", IntroPrompt, x);
    HasPromptIf(s, "problem", ComparisonPrompt, x);
    HasPromptIf(s, "conclusion", ConclusionPrompt, x);
    if FirstOfType(s, "method").Some? {
      assert HasPrompt(methodPrompt, x) <==> x == "method" by {
        assert methodPrompt[0].section == "method";
      }
    }
    HasPromptAppend(r0, PromptIf(s, "intro", IntroPrompt), x);
    HasPromptAppend(r1, methodPrompt, x);
    HasPromptAppend(r2, PromptIf(s, "problem", ComparisonPrompt), x);
    HasPromptAppend(r3, PromptIf(s, "conclusion", ConclusionPrompt), x);
  }

  /** The prompts' sections come in strictly increasing rank. */
  predicate Ranked(r: seq<IllustrationPrompt>) {
    forall i, j :: 0 <= i < j < |r| ==> Rank(r[i].section) < Rank(r[j].section)
  }

  /** Appending at most one prompt of rank `k` after prompts of lower rank keeps the order. */
  lemma AppendRanked(a: seq<IllustrationPrompt>, p: seq<IllustrationPrompt>, k: nat)
    requires Ranked(a) && (forall i :: 0 <= i < |a| ==> Rank(a[i].section) < k)
    requires |p| <= 1 && (forall i :: 0 <= i < |p| ==> Rank(p[i].section) == k)
    ensures Ranked(a + p) && (forall i :: 0 <= i < |a + p| ==> Rank((a + p)[i].section) < k + 1)
  {
  }

  lemma HasPromptAppend(a: seq<IllustrationPrompt>, b: seq<IllustrationPrompt>, x: string)
    ensures HasPrompt(a + b, x) <==> HasPrompt(a, x) || HasPrompt(b, x)
  {
    if HasPrompt(b, x) {
      var i :| 0 <= i < |b| && b[i].section == x;
      assert (a + b)[|a| + i] == b[i];
    }
    if HasPrompt(a, x) {
      var i :| 0 <= i < |a| && a[i].section == x;
      assert (a + b)[i] == a[i];
    }
    if HasPrompt(a + b, x) {
      var i :| 0 <= i < |a + b| && (a + b)[i].section == x;
      if i < |a| {
        assert a[i] == (a + b)[i];
      } else {
        assert b[i - |a|] == (a + b)[i];
      }
    }
  }

  /** The optional prompt names its section exactly when the outline has a section of type `t`. */
  lemma HasPromptIf(s: seq<OutlineSection>, t: string, p: IllustrationPrompt, x: string)
    ensures HasPrompt(PromptIf(s, t, p), x) <==> FirstOfType(s, t).Some? && p.section == x
  {
    if FirstOfType(s, t).Some? && p.section == x {
      assert PromptIf(s, t, p)[0] == p;
    }
  }

  /** The flowchart's topic comes from the first method section: its first two key concepts joined by `、`. */
  lemma MethodTopicFromFirstMethod(outline: ArticleOutline, paperTitle: string)
    requires Found(outline.sections, "method")
    ensures exists i :: (
      0 <= i < |outline.sections| && outline.sections[i].sectionType == Some("method")
      && (forall j :: 0 <= j < i ==> outline.sections[j].sectionType != Some("method"))
      && exists k :: (0 <= k < |IllustrationPrompts(outline, paperTitle)|
        && IllustrationPrompts(outline, paperTitle)[k] == MethodPrompt(outline.sections[i])))
  {
    var s := outline.sections;
    FirstOfTypeSpec(s, "method");
    var i :| (0 <= i < |s| && s[i] == FirstOfType(s, "method").value && s[i].sectionType == Some("method")
      && forall j :: 0 <= j < i ==> s[j].sectionType != Some("method"));
    var r := IllustrationPrompts(outline, paperTitle);
    var k := |[HeroPrompt(paperTitle)] + PromptIf(s, "intro", IntroPrompt)|;
    assert r[k] == MethodPrompt(s[i]);
  }

  /** With at least two key concepts the topic is the first two joined by `、`; with none it is the default. */
  lemma MethodTopicSpec(method_: OutlineSection)
    ensures method_.keyConcepts.Some? && |method_.keyConcepts.value| >= 2 ==>
      MethodTopic(method_) == method_.keyConcepts.value[0] + ConceptSeparator + method_.keyConcepts.value[1]
    ensures method_.keyConcepts.Some? && |method_.keyConcepts.value| == 1 ==>
      MethodTopic(method_) == method_.keyConcepts.value[0]
    ensures method_.keyConcepts.None? || method_.keyConcepts.value == [] ==> MethodTopic(method_) == DefaultTopic
  {
    if method_.keyConcepts.Some? && |method_.keyConcepts.value| >= 2 {
      var c := method_.keyConcepts.value;
      assert Min(2, |c|) == 2;
      assert Prefix(c, 2) == c[..2] == [c[0], c[1]];
      assert Join([c[1]], ConceptSeparator) == c[1];
      assert [c[0], c[1]][1..] == [c[1]];
    }
  }

  // ---------------------------------------------------------------- _get_default_outline and analyze

  /** An analysis result: the outline and its illustration prompts. */
  datatype Analysis = Analysis(outline: ArticleOutline, prompts: seq<IllustrationPrompt>)

  const DefaultTitle: string := "论文解读"

  function DefaultOutline(paperContent: Extractor.PaperContent): ArticleOutline {
    var title := if paperContent.title != "" then paperContent.title else DefaultTitle;
    ArticleOutline(DefaultArticleType, "本文介绍了" + title + "的核心思想", DefaultAnalogyTheme, [
      Plain("hero", title).(subtitle := Some("「一项值得关注的技术进展」")),
      Plain("intro", "从生活谈起").(detail := Some("这项技术与我们的日常生活有着密切的联系")),
      Plain("problem", "问题的提出").(detail := Some("现有方法面临效率和准确性的挑战")),
      Plain("method", "解决方案").(keyConcepts := Some(["核心方法", "关键技术"])),
      Plain("results", "实验结果").(metrics := Some([])),
      Plain("impact", "意义与影响").(implications := Some(["提升效率", "改善体验"])),
      Plain("conclusion", "总结与展望").(detail := Some("这项技术将如何改变我们的未来？"))
    ])
  }

  /** `_get_default_outline`: the default outline and its prompts. */
  function DefaultAnalysis(paperContent: Extractor.PaperContent): Analysis {
    var outline := DefaultOutline(paperContent);
    Analysis(outline, IllustrationPrompts(outline, paperContent.title))
  }

  /** The model's answer, as far as the outline parser sees it. */
  datatype Answer = Answer(decoded: Option<OutlineData>, typeMatch: Option<string>, innovationMatch: Option<string>,
                           analogyMatch: Option<string>)

  /**
   * `analyze`: `answer` is `None` when the model call or the parsing raised;
   * the default analysis is returned then.
   */
  function Analyze(paperContent: Extractor.PaperContent, answer: Option<Answer>): Analysis {
    match answer
    case None => DefaultAnalysis(paperContent)
    case Some(a) =>
      var outline := ParseOutline(a.decoded, a.typeMatch, a.innovationMatch, a.analogyMatch);
      Analysis(outline, IllustrationPrompts(outline, paperContent.title))
  }

  /** Every section type of the article order is present in an outline in that order. */
  lemma FoundAll(sections: seq<OutlineSection>)
    requires Types(sections) == InOrder(ArticleOrder)
    ensures Found(sections, "intro") && Found(sections, "method")
    ensures Found(sections, "problem") && Found(sections, "conclusion")
  {
    assert sections[1].sectionType == Some("intro");
    assert sections[2].sectionType == Some("problem");
    assert sections[3].sectionType == Some("method");
    assert sections[6].sectionType == Some("conclusion");
  }

  /**
   * The default analysis has the seven sections in article order, the hero
   * titled with the paper's title (or the default one), and all five
   * illustration prompts; its flowchart topic is the two default concepts.
   */
  lemma DefaultAnalysisShape(paperContent: Extractor.PaperContent)
    ensures var a := DefaultAnalysis(paperContent);
      && Types(a.outline.sections) == InOrder(ArticleOrder)
      && a.outline.sections[0].title == Some(if paperContent.title == "" then DefaultTitle else paperContent.title)
      && |a.prompts| == 5
      && a.prompts[2].picture == AlgorithmFlowchart("核心方法" + ConceptSeparator + "关键技术")
  {
    var a := DefaultAnalysis(paperContent);
    DefaultOutlineTypes(paperContent);
    AllPictures(a.outline, paperContent.title);
    MethodTopicSpec(a.outline.sections[3]);
  }

  /** An outline with the seven sections in article order gets all five pictures, the flowchart third. */
  lemma AllPictures(outline: ArticleOutline, paperTitle: string)
    requires Types(outline.sections) == InOrder(ArticleOrder)
    ensures |IllustrationPrompts(outline, paperTitle)| == 5
    ensures IllustrationPrompts(outline, paperTitle)[2] == MethodPrompt(outline.sections[3])
  {
    var s := outline.sections;
    FoundAll(s);
    PromptsRanked(outline, paperTitle);
    FirstOfTypeSpec(s, "intro");
    FirstOfTypeSpec(s, "method");
    FirstOfTypeSpec(s, "problem");
    FirstOfTypeSpec(s, "conclusion");
    assert FirstOfType(s, "method") == Some(s[3]) by {
      assert s[0].sectionType == Some("hero") && s[1].sectionType == Some("intro") && s[2].sectionType == Some("problem");
    }
  }

  lemma DefaultOutlineTypes(paperContent: Extractor.PaperContent)
    ensures Types(DefaultOutline(paperContent).sections) == InOrder(ArticleOrder)
  {
  }

  /** A failed analysis, and an answer that cannot be decoded, still give all five prompts with the hero first. */
  lemma AnalyzeShape(paperContent: Extractor.PaperContent, answer: Option<Answer>)
    ensures var a := Analyze(paperContent, answer);
      && 1 <= |a.prompts| <= 5 && a.prompts[0].section == "hero"
      && (answer.None? || answer.value.decoded.None? ==> |a.prompts| == 5)
  {
    var a := Analyze(paperContent, answer);
    IllustrationPromptsShape(a.outline, paperContent.title);
    if answer.None? {
      DefaultAnalysisShape(paperContent);
    } else if answer.value.decoded.None? {
      OutlineFromTextShape(answer.value.typeMatch, answer.value.innovationMatch, answer.value.analogyMatch);
      AllPictures(a.outline, paperContent.title);
    }
  }
}
