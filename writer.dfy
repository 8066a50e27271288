/**
 * The article writer: the illustration map, the assembly of article
 * sections in outline order, the metrics scraped from the paper text, the
 * results fallback text, the paper-info section and the final clean-up of
 * generated text.
 */
module Writer {
  import opened Wrappers
  import opened Text
  import Extractor
  import Analyzer

  datatype ArticleSection = ArticleSection(sectionType: string, title: string, content: string, imagePath: Option<string>)

  type Metric = Analyzer.Metric

  /** One outline section, as the analyser produced it. */
  type OutlineEntry = Analyzer.OutlineSection

  /** The section's `type`, "" when missing. */
  function TypeOf(entry: OutlineEntry): string {
    entry.sectionType.GetOr("")
  }

  /** One illustration result; `filepath` is "" when missing. */
  datatype Illustration = Illustration(section: string, success: bool, filepath: string)

  // ---------------------------------------------------------------- the illustration map

  predicate Usable(ill: Illustration) {
    ill.success && ill.filepath != ""
  }

  /** The map from section type to image file: usable illustrations only, a later one overwriting an earlier one. */
  function ImageMap(ills: seq<Illustration>): map<string, string>
    decreases |ills|
  {
    if ills == [] then map[]
    else
      var m := ImageMap(ills[..|ills| - 1]);
      var ill := ills[|ills| - 1];
      if Usable(ill) then m[ill.section := ill.filepath] else m
  }

  method BuildImageMap(ills: seq<Illustration>) returns (m: map<string, string>)
    ensures m == ImageMap(ills)
  {
    m := map[];
    for i := 0 to |ills|
      invariant m == ImageMap(ills[..i])
    {
      assert ills[..i + 1][..i] == ills[..i];
      if ills[i].success && ills[i].filepath != "" {
        m := m[ills[i].section := ills[i].filepath];
      }
    }
    assert ills[..|ills|] == ills;
  }

  /**
   * A section has an image exactly when some usable illustration names it,
   * and the image is that of the last such illustration.
   */
  lemma {:induction false} ImageMapSpec(ills: seq<Illustration>, section: string)
    ensures section in ImageMap(ills) <==>
      exists i :: 0 <= i < |ills| && Usable(ills[i]) && ills[i].section == section
    ensures forall i ::
      (0 <= i < |ills| && Usable(ills[i]) && ills[i].section == section
       && (forall j :: i < j < |ills| ==> !(Usable(ills[j]) && ills[j].section == section)))
      ==> section in ImageMap(ills) && ImageMap(ills)[section] == ills[i].filepath
    decreases |ills|
  {
    if ills != [] {
      var front := ills[..|ills| - 1];
      var last := |ills| - 1;
      ImageMapSpec(front, section);
      assert forall i :: 0 <= i < |front| ==> front[i] == ills[i];
      if section in ImageMap(ills) && !(Usable(ills[last]) && ills[last].section == section) {
        var i :| 0 <= i < |front| && Usable(front[i]) && front[i].section == section;
        assert ills[i] == front[i];
      }
    }
  }

  // ---------------------------------------------------------------- section assembly

  /** The section types the writer knows, in the order its dispatch tests them. */
  const SectionKinds: seq<string> := ["hero", "intro", "problem", "method", "results", "impact", "conclusion"]

  /** The title a section gets when the outline gives none. */
  function DefaultTitle(sectionType: string, paperTitle: string): string {
    if sectionType == "hero" then (if paperTitle != "" then paperTitle else "论文解读")
    else if sectionType == "intro" then "从生活谈起"
    else if sectionType == "problem" then "问题的提出"
    else if sectionType == "method" then "解决方案"
    else if sectionType == "results" then "结果：数字说话"
    else if sectionType == "impact" then "意义：这对我们有什么影响？"
    else "总结与展望"
  }

  const DefaultSubtitle: string := "「一项值得关注的技术」"

  function OrDefault(s: string, default: string): string {
    if s != "" then s else default
  }

  /** The hero content: title, blank line, subtitle, blank line, then the author, institution, date and arXiv lines. */
  function HeroContent(title: string, subtitle: string, pc: Extractor.PaperContent): string {
    title + "\n\n" + subtitle + "\n\n" + HeroDetails(pc)
  }

  function HeroDetails(pc: Extractor.PaperContent): string {
    "**作者**: " + (if pc.authors != [] then Join(pc.authors, ", ") else "未知作者") + "\n"
    + "**机构**: " + OrDefault(pc.institution, "未知机构") + "\n"
    + "**发表时间**: " + OrDefault(pc.publicationDate, "未知日期") + "\n"
    + "**arXiv ID**: " + OrDefault(pc.arxivId, "N/A") + "\n"
  }

  /**
   * The section generated for a known type. Generated text other than the
   * hero's is `llm(entry)` after clean-up, or, when that call raised, the
   * results fallback or `template(entry)` for the other types.
   */
  function SectionFor(entry: OutlineEntry, pc: Extractor.PaperContent, llm: OutlineEntry -> Option<string>,
                      template: OutlineEntry -> string, extracted: seq<Metric>): ArticleSection
  {
    var title := entry.title.GetOr(DefaultTitle(TypeOf(entry), pc.title));
    var content :=
      if TypeOf(entry) == "hero" then HeroContent(title, entry.subtitle.GetOr(DefaultSubtitle), pc)
      else if llm(entry).Some? then CleanGenerated(llm(entry).value)
      else if TypeOf(entry) == "results" then DefaultResults(entry.metrics.GetOr([]) + extracted)
      else template(entry);
    ArticleSection(TypeOf(entry), title, content, None)
  }

  /** The outline entries of a known type, in order. */
  function Recognised(entries: seq<OutlineEntry>): (r: seq<OutlineEntry>)
    ensures |r| <= |entries|
    ensures forall i :: 0 <= i < |r| ==> TypeOf(r[i]) in SectionKinds
    decreases |entries|
  {
    if entries == [] then []
    else
      var e := entries[|entries| - 1];
      Recognised(entries[..|entries| - 1]) + (if TypeOf(e) in SectionKinds then [e] else [])
  }

  /** A generated section with the image its type maps to, if any. */
  function WithImage(s: ArticleSection, images: map<string, string>): ArticleSection {
    if s.sectionType in images then s.(imagePath := Some(images[s.sectionType])) else s
  }

  function Sections(entries: seq<OutlineEntry>, pc: Extractor.PaperContent, images: map<string, string>,
                    llm: OutlineEntry -> Option<string>, template: OutlineEntry -> string, extracted: seq<Metric>)
    : (r: seq<ArticleSection>)
    ensures |r| == |Recognised(entries)|
    ensures forall i :: 0 <= i < |r| ==> r[i] == WithImage(SectionFor(Recognised(entries)[i], pc, llm, template, extracted), images)
    decreases |entries|
  {
    if entries == [] then []
    else
      var e := entries[|entries| - 1];
      var front := Sections(entries[..|entries| - 1], pc, images, llm, template, extracted);
      if TypeOf(e) in SectionKinds then front + [WithImage(SectionFor(e, pc, llm, template, extracted), images)]
      else front
  }

  /** `write`: the sections of known type in outline order, each with its image, then the paper-info section. */
  function Written(pc: Extractor.PaperContent, entries: seq<OutlineEntry>, ills: seq<Illustration>,
                   llm: OutlineEntry -> Option<string>, template: OutlineEntry -> string,
                   findAll: (MetricPattern, string) -> seq<string>): seq<ArticleSection>
  {
    Sections(entries, pc, ImageMap(ills), llm, template, ExtractedMetrics(pc.rawText, findAll)) + [PaperInfoSection(pc)]
  }

  method Write(pc: Extractor.PaperContent, entries: seq<OutlineEntry>, ills: seq<Illustration>,
               llm: OutlineEntry -> Option<string>, template: OutlineEntry -> string,
               findAll: (MetricPattern, string) -> seq<string>) returns (sections: seq<ArticleSection>)
    ensures sections == Written(pc, entries, ills, llm, template, findAll)
  {
    var images := BuildImageMap(ills);
    var extracted := ExtractMetrics(pc.rawText, findAll);
    sections := [];
    for i := 0 to |entries|
      invariant sections == Sections(entries[..i], pc, images, llm, template, extracted)
    {
      assert entries[..i + 1][..i] == entries[..i];
      var entry := entries[i];
      if TypeOf(entry) in SectionKinds {
        var section := SectionFor(entry, pc, llm, template, extracted);
        if TypeOf(entry) in images {
          section := section.(imagePath := Some(images[TypeOf(entry)]));
        }
        sections := sections + [section];
      }
    }
    assert entries[..|entries|] == entries;
    sections := sections + [PaperInfoSection(pc)];
  }

  /**
   * The article has one section per outline entry of known type, in outline
   * order, then the paper-info section; a section has an image exactly when
   * its type is in the image map, and then it is the mapped file.
   */
  lemma WrittenShape(pc: Extractor.PaperContent, entries: seq<OutlineEntry>, ills: seq<Illustration>,
                     llm: OutlineEntry -> Option<string>, template: OutlineEntry -> string,
                     findAll: (MetricPattern, string) -> seq<string>)
    ensures var r := Written(pc, entries, ills, llm, template, findAll);
      var known := Recognised(entries);
      var images := ImageMap(ills);
      && |r| == |known| + 1
      && r[|r| - 1] == PaperInfoSection(pc)
      && forall i :: 0 <= i < |known| ==>
           && r[i].sectionType == TypeOf(known[i])
           && (r[i].imagePath.Some? <==> TypeOf(known[i]) in images)
           && (r[i].imagePath.Some? ==> r[i].imagePath.value == images[TypeOf(known[i])])
  {
  }

  /** Entries of unknown type produce no section. */
  lemma {:induction false} UnknownTypesSkipped(entries: seq<OutlineEntry>)
    requires forall i :: 0 <= i < |entries| ==> TypeOf(entries[i]) !in SectionKinds
    ensures Recognised(entries) == []
    decreases |entries|
  {
    if entries != [] {
      UnknownTypesSkipped(entries[..|entries| - 1]);
    }
  }

  // ---------------------------------------------------------------- metrics

  /** The four metric patterns, scanned in this order. */
  datatype MetricPattern = FasterPattern | AccuracyPattern | MemoryPattern | TimePattern

  const MetricPatterns: seq<(MetricPattern, string)> :=
    [(FasterPattern, "速度提升"), (AccuracyPattern, "准确率"), (MemoryPattern, "内存占用"), (TimePattern, "处理时间")]

  const MetricScan: nat := 5000
  const MatchesPerPattern: nat := 2

  function PatternMetric(meaning: string, value: string): Metric {
    Analyzer.Metric(Some(meaning), Some(value), Some("论文中提到的" + meaning))
  }

  /** The metrics one pattern contributes: its first two matches in `text`. */
  function PatternMetrics(p: (MetricPattern, string), text: string, findAll: (MetricPattern, string) -> seq<string>)
    : seq<Metric>
  {
    var matches := Prefix(findAll(p.0, text), MatchesPerPattern);
    seq(|matches|, i requires 0 <= i < |matches| => PatternMetric(p.1, matches[i]))
  }

  function MetricsOf(ps: seq<(MetricPattern, string)>, text: string, findAll: (MetricPattern, string) -> seq<string>)
    : seq<Metric>
    decreases |ps|
  {
    if ps == [] then []
    else MetricsOf(ps[..|ps| - 1], text, findAll) + PatternMetrics(ps[|ps| - 1], text, findAll)
  }

  /**
   * `_extract_metrics_from_paper`: `findAll(p, text)` is what `re.findall`
   * returns for pattern `p` on the first 5000 characters of the raw text.
   */
  function ExtractedMetrics(rawText: string, findAll: (MetricPattern, string) -> seq<string>): seq<Metric> {
    MetricsOf(MetricPatterns, Prefix(rawText, MetricScan), findAll)
  }

  method ExtractMetrics(rawText: string, findAll: (MetricPattern, string) -> seq<string>) returns (metrics: seq<Metric>)
    ensures metrics == ExtractedMetrics(rawText, findAll)
  {
    var text := Prefix(rawText, MetricScan);
    metrics := [];
    for k := 0 to |MetricPatterns|
      invariant metrics == MetricsOf(MetricPatterns[..k], text, findAll)
    {
      assert MetricPatterns[..k + 1][..k] == MetricPatterns[..k];
      var pattern := MetricPatterns[k].0;
      var meaning := MetricPatterns[k].1;
      var matches := Prefix(findAll(pattern, text), MatchesPerPattern);
      ghost var before := metrics;
      for j := 0 to |matches|
        invariant metrics == before + PatternMetrics(MetricPatterns[k], text, findAll)[..j]
      {
        metrics := metrics + [PatternMetric(meaning, matches[j])];
      }
    }
    assert MetricPatterns[..|MetricPatterns|] == MetricPatterns;
  }

  /** Each pattern contributes at most two metrics, named after the pattern. */
  lemma {:induction false} MetricsOfBound(ps: seq<(MetricPattern, string)>, text: string, findAll: (MetricPattern, string) -> seq<string>)
    ensures |MetricsOf(ps, text, findAll)| <= MatchesPerPattern * |ps|
    ensures forall m :: m in MetricsOf(ps, text, findAll) ==> exists p :: p in ps && m.name == Some(p.1)
    decreases |ps|
  {
    if ps != [] {
      var front := ps[..|ps| - 1];
      MetricsOfBound(front, text, findAll);
      forall m | m in MetricsOf(ps, text, findAll)
        ensures exists p :: p in ps && m.name == Some(p.1)
      {
        if m in MetricsOf(front, text, findAll) {
          var p :| p in front && m.name == Some(p.1);
          assert p in ps;
        } else {
          assert ps[|ps| - 1] in ps;
        }
      }
    }
  }

  /** At most eight metrics come from the paper, each named after one of the four patterns, and only the first 5000 characters matter. */
  lemma ExtractedMetricsBound(rawText: string, findAll: (MetricPattern, string) -> seq<string>)
    ensures |ExtractedMetrics(rawText, findAll)| <= 8
    ensures forall m :: m in ExtractedMetrics(rawText, findAll) ==>
      m.name in [Some("速度提升"), Some("准确率"), Some("内存占用"), Some("处理时间")]
    ensures forall other :: Prefix(other, MetricScan) == Prefix(rawText, MetricScan) ==>
      ExtractedMetrics(other, findAll) == ExtractedMetrics(rawText, findAll)
  {
    MetricsOfBound(MetricPatterns, Prefix(rawText, MetricScan), findAll);
  }

  // ---------------------------------------------------------------- the results text

  /** `str(x)` of an optional value: `None` prints as "None". */
  function PyStr(o: Option<string>): string {
    o.GetOr("None")
  }

  /** One line of the metrics list handed to the generator, with its defaults. */
  function MetricLine(m: Metric): string {
    "- **" + m.name.GetOr("指标") + "**: " + m.value.GetOr("") + " (" + m.meaning.GetOr("") + ")"
  }

  /** The metrics list of `_generate_results`: one line for each of the first five metrics. */
  function MetricLines(metrics: seq<Metric>): (r: seq<string>)
    ensures |r| == Min(|metrics|, 5)
    ensures forall i :: 0 <= i < |r| ==> r[i] == MetricLine(metrics[i])
  {
    var listed := Prefix(metrics, 5);
    seq(|listed|, i requires 0 <= i < |listed| => MetricLine(listed[i]))
  }

  function MetricMention(m: Metric): string {
    PyStr(m.name) + "达到" + PyStr(m.value)
  }

  /** The metrics the fallback text mentions: the first three. */
  function MetricMentions(metrics: seq<Metric>): (r: seq<string>)
    ensures |r| == Min(|metrics|, 3)
    ensures forall i :: 0 <= i < |r| ==> r[i] == MetricMention(metrics[i])
  {
    var mentioned := Prefix(metrics, 3);
    seq(|mentioned|, i requires 0 <= i < |mentioned| => MetricMention(mentioned[i]))
  }

  const ResultsLead: string := "实验结果显示，新方法在各项关键指标上都有显著提升。具体数字说明了这一点："
  const ResultsClose: string := "。这些数据充分证明了该方法的有效性。"
  const ResultsGeneric: string := "实验结果表明，新方法相比现有方案有着明显的优势。无论是在处理速度还是准确性方面，都取得了令人满意的结果。这些数字背后，是研究团队的辛勤付出和巧妙设计。"

  /** `_get_default_results`. */
  function DefaultResults(metrics: seq<Metric>): string {
    if metrics != [] then ResultsLead + Join(MetricMentions(metrics), "；") + ResultsClose else ResultsGeneric
  }

  /** The results fallback mentions the first three metrics, in order, and stands alone when there are none. */
  lemma DefaultResultsMentions(metrics: seq<Metric>)
    ensures metrics == [] ==> DefaultResults(metrics) == ResultsGeneric
    ensures metrics != [] ==> StartsWith(DefaultResults(metrics), ResultsLead) && EndsWith(DefaultResults(metrics), ResultsClose)
    ensures |metrics| >= 3 ==> MetricMentions(metrics) == MetricMentions(metrics[..3])
  {
    var r := DefaultResults(metrics);
    if metrics != [] {
      var mid := Join(MetricMentions(metrics), "；");
      assert r == ResultsLead + (mid + ResultsClose);
      assert r[..|ResultsLead|] == ResultsLead;
      assert r[|r| - |ResultsClose|..] == ResultsClose;
    }
  }

  // ---------------------------------------------------------------- the paper-info section

  const InfoCaptions: seq<string> := ["原文标题", "作者", "机构", "发表日期", "arXiv ID", "DOI", "原文链接"]
  const ArxivAbsPrefix: string := "https://arxiv.org/abs/"
  const NotAvailable: string := "N/A"

  /** The value of each paper-info row, in caption order; a missing field reads "N/A". */
  function InfoValues(pc: Extractor.PaperContent): (r: seq<string>)
    ensures |r| == |InfoCaptions|
  {
    [ OrDefault(pc.title, NotAvailable),
      if pc.authors != [] then Join(pc.authors, ", ") else NotAvailable,
      OrDefault(pc.institution, NotAvailable),
      OrDefault(pc.publicationDate, NotAvailable),
      OrDefault(pc.arxivId, NotAvailable),
      OrDefault(pc.doi, NotAvailable),
      if pc.arxivId != "" then ArxivAbsPrefix + pc.arxivId else NotAvailable ]
  }

  /** `**caption**: value`, one row of the paper-info section. */
  function InfoRow(caption: string, value: string): string {
    "**" + caption + "**: " + value
  }

  function InfoRows(pc: Extractor.PaperContent): (r: seq<string>)
    ensures |r| == |InfoCaptions|
  {
    var values := InfoValues(pc);
    seq(|InfoCaptions|, i requires 0 <= i < |InfoCaptions| => InfoRow(InfoCaptions[i], values[i]))
  }

  /** `_generate_paper_info`: the rows separated by blank lines, ending with a newline. */
  function PaperInfoSection(pc: Extractor.PaperContent): ArticleSection {
    ArticleSection("paper_info", "论文信息", Join(InfoRows(pc), "\n\n") + "\n", None)
  }

  /**
   * Every missing field reads "N/A" and every present one reads as itself;
   * the original link is the arXiv abstract page of the listed arXiv ID, and
   * "N/A" exactly when there is no arXiv ID.
   */
  lemma PaperInfoValues(pc: Extractor.PaperContent)
    ensures var v := InfoValues(pc);
      && (pc.title == "" ==> v[0] == NotAvailable) && (pc.title != "" ==> v[0] == pc.title)
      && (pc.authors == [] ==> v[1] == NotAvailable) && (|pc.authors| == 1 ==> v[1] == pc.authors[0])
      && (pc.institution == "" ==> v[2] == NotAvailable) && (pc.institution != "" ==> v[2] == pc.institution)
      && (pc.publicationDate == "" ==> v[3] == NotAvailable) && (pc.publicationDate != "" ==> v[3] == pc.publicationDate)
      && (pc.doi == "" ==> v[5] == NotAvailable) && (pc.doi != "" ==> v[5] == pc.doi)
      && (v[6] == NotAvailable <==> pc.arxivId == "")
      && (pc.arxivId != "" ==> v[4] == pc.arxivId && StartsWith(v[6], ArxivAbsPrefix) && v[6][|ArxivAbsPrefix|..] == v[4])
  {
    var v := InfoValues(pc);
    if pc.arxivId != "" {
      assert v[6][..|ArxivAbsPrefix|] == ArxivAbsPrefix;
      assert v[6] != NotAvailable by {
        assert |v[6]| > |NotAvailable|;
      }
    }
  }

  // ---------------------------------------------------------------- clean-up of generated text

  /** The number of newlines `s` starts with. */
  function LeadingNewlines(s: string): (k: nat)
    ensures k <= |s|
    ensures forall i :: 0 <= i < k ==> s[i] == '\n'
    ensures k == |s| || s[k] != '\n'
    decreases |s|
  {
    if s != [] && s[0] == '\n' then 1 + LeadingNewlines(s[1..]) else 0
  }

  /** `re.sub(r'\n{3,}', '\n\n', s)`: every run of three or more newlines becomes two. */
  function CollapseNewlines(s: string): string
    decreases |s|
  {
    if s == [] then []
    else if s[0] != '\n' then [s[0]] + CollapseNewlines(s[1..])
    else
      var k := LeadingNewlines(s);
      (if k >= 3 then "\n\n" else s[..k]) + CollapseNewlines(s[k..])
  }

  predicate NoTripleNewline(s: string) {
    forall i :: 0 <= i < |s| - 2 ==> !(s[i] == '\n' && s[i + 1] == '\n' && s[i + 2] == '\n')
  }

  lemma {:induction false} CollapseNewlinesSpec(s: string)
    ensures NoTripleNewline(CollapseNewlines(s))
    ensures s != [] && s[0] != '\n' ==> CollapseNewlines(s) != [] && CollapseNewlines(s)[0] == s[0]
    decreases |s|
  {
    if s != [] {
      if s[0] != '\n' {
        CollapseNewlinesSpec(s[1..]);
        assert CollapseNewlines(s) == [s[0]] + CollapseNewlines(s[1..]);
        NoTripleCons(s[0], CollapseNewlines(s[1..]));
      } else {
        var k := LeadingNewlines(s);
        var run := if k >= 3 then "\n\n" else s[..k];
        var rest := CollapseNewlines(s[k..]);
        CollapseNewlinesSpec(s[k..]);
        assert 1 <= |run| <= 2;
        assert rest == [] || rest[0] != '\n';
        NoTripleJoin(run, rest);
      }
    }
  }

  /** A run of at most two characters before a text that has no triple newline and does not open with one keeps that property. */
  lemma NoTripleJoin(run: string, rest: string)
    requires 1 <= |run| <= 2 && NoTripleNewline(rest) && (rest == [] || rest[0] != '\n')
    ensures NoTripleNewline(run + rest)
  {
    var r := run + rest;
    forall i | 0 <= i < |r| - 2
      ensures !(r[i] == '\n' && r[i + 1] == '\n' && r[i + 2] == '\n')
    {
      if i < |run| {
        assert r[|run|] == rest[0];
      } else {
        assert r[i] == rest[i - |run|] && r[i + 1] == rest[i + 1 - |run|] && r[i + 2] == rest[i + 2 - |run|];
      }
    }
  }

  /** A character other than a newline in front keeps a text free of triple newlines. */
  lemma NoTripleCons(c: char, rest: string)
    requires c != '\n' && NoTripleNewline(rest)
    ensures NoTripleNewline([c] + rest)
  {
    var r := [c] + rest;
    forall i | 1 <= i < |r| - 2
      ensures !(r[i] == '\n' && r[i + 1] == '\n' && r[i + 2] == '\n')
    {
      assert r[i] == rest[i - 1] && r[i + 1] == rest[i] && r[i + 2] == rest[i + 1];
    }
  }

  /** Text without three newlines in a row is left alone. */
  lemma {:induction false} CollapseNewlinesKeeps(s: string)
    requires NoTripleNewline(s)
    ensures CollapseNewlines(s) == s
    decreases |s|
  {
    if s != [] {
      var k: nat := 1;
      if s[0] == '\n' {
        k := LeadingNewlines(s);
        assert k < 3 by {
          if |s| >= 3 {
            assert !(s[0] == '\n' && s[1] == '\n' && s[2] == '\n');
          }
        }
      }
      var rest := s[k..];
      NoTripleSuffix(s, k);
      CollapseNewlinesKeeps(rest);
      assert s[..k] + rest == s;
    }
  }

  lemma NoTripleSuffix(s: string, k: nat)
    requires k <= |s| && NoTripleNewline(s)
    ensures NoTripleNewline(s[k..])
  {
    var rest := s[k..];
    assert forall i :: 0 <= i < |rest| ==> rest[i] == s[k + i];
  }

  lemma StripNoTriple(s: string)
    requires NoTripleNewline(s)
    ensures NoTripleNewline(Strip(s))
  {
    var r := Strip(s);
    StripTrims(s);
    var k :| TrimmedAt(s, r, k);
    assert forall i :: 0 <= i < |r| ==> r[i] == s[k + i];
  }

  /** The last two steps of `_clean_llm_output`: collapse newline runs, then strip. */
  function CleanGenerated(text: string): (r: string)
    ensures IsStripped(r) && NoTripleNewline(r)
  {
    CollapseNewlinesSpec(text);
    StripNoTriple(CollapseNewlines(text));
    Strip(CollapseNewlines(text))
  }

  /** Cleaning generated text a second time changes nothing. */
  lemma CleanGeneratedIdempotent(text: string)
    ensures CleanGenerated(CleanGenerated(text)) == CleanGenerated(text)
  {
    var r := CleanGenerated(text);
    CollapseNewlinesKeeps(r);
    StripStripped(r);
  }
}
