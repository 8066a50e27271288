/**
 * `PaperRecommender`: which paper identifier is asked about, what the
 * Semantic Scholar and citation-graph answers become, the keyword search
 * links offered offline, the order in which the sources are tried, and the
 * Markdown block the article shows.
 *
 * The HTTP answers are inputs; `_get_arxiv_recommendations` is reduced to
 * its keyword guard and its final cut, the parsing of the Atom feed and the
 * ranking by string similarity being given as a ranked list.
 */
module Recommender {
  import opened Wrappers
  import opened Text
  import Keywords

  // ---------------------------------------------------------------- values

  const SsSource: string := "Semantic Scholar 智能推荐"
  const CitingSource: string := "引用该论文"
  const ReferenceSource: string := "参考文献"
  const ArxivSource: string := "arXiv 相关推荐"
  const KeywordSource: string := "关键词搜索"

  /** `RelatedPaper`, without the floating-point relevance score. */
  datatype RelatedPaper = RelatedPaper(
    title: string, authors: seq<string>, year: int, abstractText: string, url: string,
    pdfUrl: Option<string>, citationCount: int, source: string, reason: string)

  /** The dictionary `get_recommendations` returns: always these three keys. */
  datatype Recommendations = Recommendations(
    semanticScholar: seq<RelatedPaper>, citations: seq<RelatedPaper>, similarTopics: seq<RelatedPaper>)

  // ---------------------------------------------------------------- _resolve_paper_id

  /** `_resolve_paper_id(arxiv_id, doi, ss_id)`; an absent argument is "". */
  function ResolvePaperId(arxivId: string, doi: string, ssId: string): (r: Option<string>)
    ensures r.None? <==> arxivId == "" && doi == "" && ssId == ""
  {
    if ssId != "" then Some(ssId)
    else if arxivId != "" then Some("arxiv:" + ReplaceAll(arxivId, "arxiv:", ""))
    else if doi != "" then Some("doi:" + doi)
    else None
  }

  /** A Semantic Scholar identifier decides alone; otherwise an arXiv identifier decides over a DOI. */
  lemma ResolvePriority(arxivId: string, doi: string, ssId: string, arxivId': string, doi': string)
    ensures ssId != "" ==> ResolvePaperId(arxivId, doi, ssId) == ResolvePaperId(arxivId', doi', ssId) == Some(ssId)
    ensures arxivId != "" ==> ResolvePaperId(arxivId, doi, "") == ResolvePaperId(arxivId, doi', "")
    ensures arxivId != "" ==> StartsWith(ResolvePaperId(arxivId, doi, "").value, "arxiv:")
  {
  }

  /** `X` and `arxiv:X` name the same paper. */
  lemma ArxivPrefixIgnored(x: string, doi: string)
    requires x != ""
    ensures ResolvePaperId("arxiv:" + x, doi, "") == ResolvePaperId(x, doi, "")
  {
    var s := "arxiv:" + x;
    assert |"arxiv:"| == 6;
    assert s[..6] == "arxiv:" && s[6..] == x;
    assert ReplaceAll(s, "arxiv:", "") == ReplaceAll(x, "arxiv:", "");
    assert s != "";
  }

  // ---------------------------------------------------------------- _truncate_abstract

  /** The last position of a space. */
  function LastSpace(s: string): (r: Option<nat>)
    ensures r.None? ==> ' ' !in s
    ensures r.Some? ==> r.value < |s| && s[r.value] == ' '
    ensures r.Some? ==> forall j :: r.value < j < |s| ==> s[j] != ' '
    decreases |s|
  {
    if |s| == 0 then None
    else if s[|s| - 1] == ' ' then Some(|s| - 1)
    else
      var r := LastSpace(s[..|s| - 1]);
      assert forall j :: 0 <= j < |s| - 1 ==> s[..|s| - 1][j] == s[j];
      r
  }

  /** `s.rsplit(" ", 1)[0]`: the text before the last space, or all of it. */
  function BeforeLastSpace(s: string): (r: string)
    ensures |r| <= |s| && r == s[..|r|]
    ensures ' ' !in s ==> r == s
    ensures ' ' in s ==> |r| < |s| && s[|r|] == ' ' && forall j :: |r| < j < |s| ==> s[j] != ' '
  {
    match LastSpace(s)
    case None => s
    case Some(i) => s[..i]
  }

  /** The abstract on one line: `abstract.replace('\n', ' ').strip()`. */
  function OneLine(a: string): string {
    Strip(ReplaceAll(a, "\n", " "))
  }

  const DefaultAbstractLength: nat := 200

  /** `_truncate_abstract(abstract, max_length)`. */
  function TruncateAbstract(a: string, maxLength: nat): (r: string)
    ensures |r| <= maxLength + 3
  {
    if a == "" then ""
    else
      var t := OneLine(a);
      if |t| <= maxLength then t else BeforeLastSpace(t[..maxLength]) + "..."
  }

  /**
   * A short abstract is returned on one line and stripped; a long one is cut
   * at a word boundary inside the limit and marked with `...`. There is never
   * a line break.
   */
  lemma TruncateAbstractShape(a: string, maxLength: nat)
    ensures var r := TruncateAbstract(a, maxLength);
      && '\n' !in r
      && (|OneLine(a)| <= maxLength ==> r == OneLine(a))
      && (|OneLine(a)| > maxLength ==> EndsWith(r, "...") && StartsWith(OneLine(a), r[..|r| - 3]))
      && (|OneLine(a)| > maxLength ==>
        var t, c := OneLine(a), r[..|r| - 3];
        && (' ' !in t[..maxLength] ==> c == t[..maxLength])
        && (' ' in t[..maxLength] ==>
          |c| < maxLength && t[|c|] == ' ' && forall j :: |c| < j < maxLength ==> t[j] != ' '))
  {
    var r := TruncateAbstract(a, maxLength);
    var t := OneLine(a);
    ReplaceCharRemoves(a, '\n', " ");
    StripKeepsAbsent(ReplaceAll(a, "\n", " "), '\n');
    if a == "" {
      assert ReplaceAll(a, "\n", " ") == "";
      StripEmpty("");
    } else if |t| > maxLength {
      var c := BeforeLastSpace(t[..maxLength]);
      assert r == c + "...";
      assert r[..|r| - 3] == c;
      assert '\n' !in c by {
        assert forall i :: 0 <= i < |c| ==> c[i] == t[i];
      }
    }
  }

  // ---------------------------------------------------------------- Semantic Scholar answers

  /** One entry of `recommendedPapers`; `pdfUrl` is what the `openAccessPdf` lookup yields. */
  datatype SsRecord = SsRecord(title: string, authorNames: seq<string>, year: int, abstractText: string,
                               url: string, pdfUrl: Option<string>, citationCount: int)

  datatype SsAnswer = SsRaised | SsReply(status: int, papers: seq<SsRecord>)

  /** One entry of `citations` or `references` in the citation graph. */
  datatype CiteRecord = CiteRecord(title: string, year: int, paperId: string, citationCount: int)

  datatype GraphAnswer = GraphRaised | GraphReply(status: int, citations: seq<CiteRecord>, references: seq<CiteRecord>)

  /** The statuses `raise_for_status()` raises on. */
  predicate HttpError(status: int) {
    400 <= status < 600
  }

  /** The first three authors, and `et al.` when there were more. */
  function AuthorList(names: seq<string>): seq<string> {
    Prefix(names, 3) + (if |names| > 3 then ["et al."] else [])
  }

  lemma AuthorListCut(names: seq<string>)
    ensures |names| <= 3 ==> AuthorList(names) == names
    ensures |names| > 3 ==> AuthorList(names) == names[..3] + ["et al."]
  {
    assert names[..|names|] == names;
  }

  function Recommended(p: SsRecord): RelatedPaper {
    RelatedPaper(p.title, AuthorList(p.authorNames), p.year, TruncateAbstract(p.abstractText, DefaultAbstractLength),
                 p.url, p.pdfUrl, p.citationCount, SsSource, "基于引用网络和语义相似度的智能推荐")
  }

  /** `_get_ss_recommendations`: every failure, the rate limit (429) included, gives no recommendations. */
  function SsRecommendations(answer: SsAnswer): seq<RelatedPaper> {
    match answer
    case SsRaised => []
    case SsReply(status, papers) =>
      if status == 429 || HttpError(status) then [] else MapSeq(papers, Recommended)
  }

  /** The recommendations are the answer's papers in order, each with at most three authors plus `et al.`. */
  lemma SsRecommendationsShape(answer: SsAnswer)
    ensures var r := SsRecommendations(answer);
      && (answer.SsRaised? || answer.status == 429 || HttpError(answer.status) ==> r == [])
      && (answer.SsReply? && answer.status != 429 && !HttpError(answer.status) ==> |r| == |answer.papers|)
      && forall i :: 0 <= i < |r| ==>
           r[i].source == SsSource && |r[i].authors| <= 4
           && r[i].title == answer.papers[i].title && r[i].url == answer.papers[i].url
           && (|answer.papers[i].authorNames| > 3 <==> |r[i].authors| == 4)
  {
  }

  function PaperPageUrl(paperId: string): string {
    "https://www.semanticscholar.org/paper/" + paperId
  }

  function Citing(c: CiteRecord): RelatedPaper {
    RelatedPaper(c.title, ["查看详情"], c.year, "", PaperPageUrl(c.paperId), None, c.citationCount,
                 CitingSource, "后续研究引用了本文")
  }

  function Referenced(c: CiteRecord): RelatedPaper {
    RelatedPaper(c.title, ["查看详情"], c.year, "", PaperPageUrl(c.paperId), None, c.citationCount,
                 ReferenceSource, "本文引用的前期工作")
  }

  /** `_get_citation_network(paper_id, limit)`: the first `limit` citing papers, then the first `limit` references. */
  function CitationNetwork(answer: GraphAnswer, limit: int): seq<RelatedPaper> {
    match answer
    case GraphRaised => []
    case GraphReply(status, citations, references) =>
      if status == 429 || HttpError(status) then []
      else MapSeq(Prefix(citations, limit), Citing) + MapSeq(Prefix(references, limit), Referenced)
  }

  /** `[c for c in cs if c.source == source]`. */
  function WithSource(cs: seq<RelatedPaper>, source: string): (r: seq<RelatedPaper>)
    ensures |r| <= |cs|
    decreases |cs|
  {
    if |cs| == 0 then []
    else (if cs[0].source == source then [cs[0]] else []) + WithSource(cs[1..], source)
  }

  lemma {:induction false} WithSourceConcat(a: seq<RelatedPaper>, b: seq<RelatedPaper>, source: string)
    ensures WithSource(a + b, source) == WithSource(a, source) + WithSource(b, source)
    decreases |a|
  {
    if |a| == 0 {
      assert a + b == b;
    } else {
      var ab := a + b;
      assert ab[0] == a[0];
      assert ab[1..] == a[1..] + b;
      WithSourceConcat(a[1..], b, source);
      var h := if a[0].source == source then [a[0]] else [];
      assert WithSource(ab, source) == h + WithSource(a[1..] + b, source);
      assert WithSource(a, source) == h + WithSource(a[1..], source);
    }
  }

  lemma {:induction false} WithSourceAll(cs: seq<RelatedPaper>, source: string)
    requires forall i :: 0 <= i < |cs| ==> cs[i].source == source
    ensures WithSource(cs, source) == cs
    decreases |cs|
  {
    if |cs| > 0 {
      WithSourceAll(cs[1..], source);
    }
  }

  lemma {:induction false} WithSourceNone(cs: seq<RelatedPaper>, source: string)
    requires forall i :: 0 <= i < |cs| ==> cs[i].source != source
    ensures WithSource(cs, source) == []
    decreases |cs|
  {
    if |cs| > 0 {
      WithSourceNone(cs[1..], source);
    }
  }

  /**
   * The citation network is empty after an exception, a 429 or another error
   * status; otherwise it is the first `limit` citing papers, in order, then
   * the first `limit` references, in order, and nothing else.
   */
  lemma CitationNetworkContents(answer: GraphAnswer, limit: int)
    ensures var r := CitationNetwork(answer, limit);
      && (answer.GraphRaised? || answer.status == 429 || HttpError(answer.status) ==> r == [])
      && (answer.GraphReply? && answer.status != 429 && !HttpError(answer.status) ==>
            (var nc := |Prefix(answer.citations, limit)|;
             && (limit >= 0 ==> nc == Min(limit, |answer.citations|) && |r| == nc + Min(limit, |answer.references|))
             && (forall i :: 0 <= i < nc ==> r[i] == Citing(answer.citations[i]))
             && (forall j :: 0 <= j < |r| - nc ==> r[nc + j] == Referenced(answer.references[j]))))
  {
  }

  /** Counted by source, the network holds at most `limit` citing papers and at most `limit` references, and nothing else. */
  lemma CitationNetworkShape(answer: GraphAnswer, limit: int)
    ensures var r := CitationNetwork(answer, limit);
      && (forall i :: 0 <= i < |r| ==> r[i].source == CitingSource || r[i].source == ReferenceSource)
      && (limit >= 0 ==> |WithSource(r, CitingSource)| <= limit && |WithSource(r, ReferenceSource)| <= limit)
  {
    if answer.GraphReply? && !(answer.status == 429 || HttpError(answer.status)) {
      var a := MapSeq(Prefix(answer.citations, limit), Citing);
      var b := MapSeq(Prefix(answer.references, limit), Referenced);
      WithSourceConcat(a, b, CitingSource);
      WithSourceConcat(a, b, ReferenceSource);
      WithSourceAll(a, CitingSource);
      WithSourceNone(b, CitingSource);
      WithSourceNone(a, ReferenceSource);
      WithSourceAll(b, ReferenceSource);
    }
  }

  // ---------------------------------------------------------------- offline keyword links

  function SsSearchLink(keywords: seq<string>): RelatedPaper {
    RelatedPaper("在 Semantic Scholar 上搜索相关论文", [], 0, "关键词: " + Join(Prefix(keywords, 5), ", "),
                 SsSearchPrefix + Join(Prefix(keywords, 3), "+") + "&sort=relevance", None, 0,
                 KeywordSource, "基于论文标题和摘要提取的关键词")
  }

  function ScholarSearchLink(keywords: seq<string>): RelatedPaper {
    RelatedPaper("在 Google Scholar 上搜索相关论文", [], 0, "Google Scholar 提供更广泛的学术文献搜索",
                 ScholarSearchPrefix + Join(Prefix(keywords, 3), "+"), None, 0,
                 KeywordSource, "Google Scholar 包含更全面的学术文献")
  }

  function ArxivSearchLink(keywords: seq<string>): RelatedPaper {
    RelatedPaper("在 arXiv 上搜索相关预印本", [], 0, "arXiv 是计算机科学、物理、数学等领域的重要预印本库",
                 ArxivSearchPrefix + Join(Prefix(keywords, 3), "+OR+") + "&searchtype=all", None, 0,
                 KeywordSource, "arXiv 包含最新研究进展")
  }

  const SsSearchPrefix: string := "https://www.semanticscholar.org/search?q="
  const ScholarSearchPrefix: string := "https://scholar.google.com/scholar?q="
  const ArxivSearchPrefix: string := "https://arxiv.org/search/?query="

  /** The keywords of a paper: those of its title and abstract. */
  function PaperKeywords(title: string, abstractText: string): seq<string> {
    Keywords.Keywords(title + " " + abstractText, 5)
  }

  /** `_get_local_keyword_recommendations(title, abstract, limit)`. */
  function LocalLinks(title: string, abstractText: string, limit: int): seq<RelatedPaper> {
    var keywords := PaperKeywords(title, abstractText);
    if keywords == [] then []
    else Prefix([SsSearchLink(keywords), ScholarSearchLink(keywords), ArxivSearchLink(keywords)], limit)
  }

  method LocalKeywordRecommendations(title: string, abstractText: string, limit: int) returns (r: seq<RelatedPaper>)
    ensures r == LocalLinks(title, abstractText, limit)
  {
    var keywords := Keywords.ExtractKeywords(title + " " + abstractText, 5);
    var results: seq<RelatedPaper> := [];
    if keywords != [] {
      results := results + [SsSearchLink(keywords)];
    }
    if keywords != [] {
      results := results + [ScholarSearchLink(keywords)];
    }
    if keywords != [] {
      results := results + [ArxivSearchLink(keywords)];
    }
    r := Prefix(results, limit);
  }

  lemma StartsWithConcat(a: string, b: string)
    ensures StartsWith(a + b, a)
  {
    assert (a + b)[..|a|] == a;
  }

  /**
   * No keywords, no links; otherwise the three keyword searches cut to `limit`
   * as a Python slice `[:limit]` cuts them, a negative limit counting from the end.
   */
  lemma LocalLinksCount(title: string, abstractText: string, limit: int)
    ensures var r := LocalLinks(title, abstractText, limit);
      && (PaperKeywords(title, abstractText) == [] ==> r == [])
      && |r| <= 3
      && (PaperKeywords(title, abstractText) != [] && limit >= 0 ==> |r| == Min(limit, 3))
      && (PaperKeywords(title, abstractText) != [] && limit < 0 ==> |r| == Max(0, 3 + limit))
      && (forall i :: 0 <= i < |r| ==> r[i].source == KeywordSource)
  {
  }

  lemma SearchLinksOrder(keywords: seq<string>, limit: int)
    ensures var r := Prefix([SsSearchLink(keywords), ScholarSearchLink(keywords), ArxivSearchLink(keywords)], limit);
      && (|r| > 0 ==> StartsWith(r[0].url, SsSearchPrefix))
      && (|r| > 1 ==> StartsWith(r[1].url, ScholarSearchPrefix))
      && (|r| > 2 ==> StartsWith(r[2].url, ArxivSearchPrefix))
  {
    var query := Join(Prefix(keywords, 3), "+");
    StartsWithConcat(SsSearchPrefix, query + "&sort=relevance");
    assert SsSearchLink(keywords).url == SsSearchPrefix + (query + "&sort=relevance");
    StartsWithConcat(ScholarSearchPrefix, query);
    var anyOf := Join(Prefix(keywords, 3), "+OR+");
    StartsWithConcat(ArxivSearchPrefix, anyOf + "&searchtype=all");
    assert ArxivSearchLink(keywords).url == ArxivSearchPrefix + (anyOf + "&searchtype=all");
  }

  /** The links come in the order Semantic Scholar, Google Scholar, arXiv. */
  lemma LocalLinksOrder(title: string, abstractText: string, limit: int)
    ensures var r := LocalLinks(title, abstractText, limit);
      && (|r| > 0 ==> StartsWith(r[0].url, SsSearchPrefix))
      && (|r| > 1 ==> StartsWith(r[1].url, ScholarSearchPrefix))
      && (|r| > 2 ==> StartsWith(r[2].url, ArxivSearchPrefix))
  {
    SearchLinksOrder(PaperKeywords(title, abstractText), limit);
  }

  // ---------------------------------------------------------------- get_recommendations

  /** The arguments of `get_recommendations`; an absent identifier is "". */
  datatype Query = Query(title: string, abstractText: string, arxivId: string, doi: string, ssId: string, limit: int)

  /** `_get_arxiv_recommendations`: nothing without title keywords, else the ranked entries cut to `limit`. */
  function ArxivRecommendations(title: string, limit: int, ranked: seq<RelatedPaper>): seq<RelatedPaper> {
    if Keywords.Keywords(title, 5) == [] then [] else Prefix(ranked, limit)
  }

  /** What `get_recommendations` returns, given the answers of the services it asks. */
  function RecommendationsOf(q: Query, ss: SsAnswer, graph: GraphAnswer, arxivRanked: seq<RelatedPaper>): Recommendations {
    var id := ResolvePaperId(q.arxivId, q.doi, q.ssId);
    var fromSs := if id.Some? then SsRecommendations(ss) else [];
    var citations := if id.Some? then CitationNetwork(graph, q.limit / 2) else [];
    var primary := if fromSs == [] && q.arxivId != "" then ArxivRecommendations(q.title, q.limit, arxivRanked) else fromSs;
    var similar := if primary == [] && q.title != "" then LocalLinks(q.title, q.abstractText, q.limit) else [];
    Recommendations(primary, citations, similar)
  }

  method GetRecommendations(q: Query, ss: SsAnswer, graph: GraphAnswer, arxivRanked: seq<RelatedPaper>)
      returns (result: Recommendations)
    ensures result == RecommendationsOf(q, ss, graph, arxivRanked)
  {
    result := Recommendations([], [], []);
    var id := ResolvePaperId(q.arxivId, q.doi, q.ssId);
    if id.Some? {
      result := result.(semanticScholar := SsRecommendations(ss));
      result := result.(citations := CitationNetwork(graph, q.limit / 2));
    }
    if result.semanticScholar == [] && q.arxivId != "" {
      result := result.(semanticScholar := ArxivRecommendations(q.title, q.limit, arxivRanked));
    }
    if result.semanticScholar == [] && q.title != "" {
      var local := LocalKeywordRecommendations(q.title, q.abstractText, q.limit);
      result := result.(similarTopics := local);
    }
    RecommendationsOfFields(q, ss, graph, arxivRanked);
  }

  /** `RecommendationsOf` field by field, each from the one before. */
  lemma RecommendationsOfFields(q: Query, ss: SsAnswer, graph: GraphAnswer, arxivRanked: seq<RelatedPaper>)
    ensures var r := RecommendationsOf(q, ss, graph, arxivRanked);
      var id := ResolvePaperId(q.arxivId, q.doi, q.ssId);
      var fromSs := if id.Some? then SsRecommendations(ss) else [];
      && r.citations == (if id.Some? then CitationNetwork(graph, q.limit / 2) else [])
      && r.semanticScholar == (if fromSs == [] && q.arxivId != "" then ArxivRecommendations(q.title, q.limit, arxivRanked) else fromSs)
      && r.similarTopics == (if r.semanticScholar == [] && q.title != "" then LocalLinks(q.title, q.abstractText, q.limit) else [])
  {
  }

  /**
   * The sources are tried in order: Semantic Scholar when an identifier is
   * known, arXiv only when that gave nothing and an arXiv identifier is
   * known, and the offline links only when both gave nothing and there is a
   * title.
   */
  lemma FallbackOrder(q: Query, ss: SsAnswer, graph: GraphAnswer, arxivRanked: seq<RelatedPaper>)
    ensures var r := RecommendationsOf(q, ss, graph, arxivRanked);
      var fromSs := if ResolvePaperId(q.arxivId, q.doi, q.ssId).Some? then SsRecommendations(ss) else [];
      && (fromSs != [] ==> r.semanticScholar == fromSs)
      && (fromSs == [] && q.arxivId != "" ==> r.semanticScholar == ArxivRecommendations(q.title, q.limit, arxivRanked))
      && (fromSs == [] && q.arxivId == "" ==> r.semanticScholar == [])
      && (r.similarTopics != [] ==> r.semanticScholar == [] && q.title != "")
      && (r.semanticScholar == [] && q.title != "" ==> r.similarTopics == LocalLinks(q.title, q.abstractText, q.limit))
      && (ResolvePaperId(q.arxivId, q.doi, q.ssId).None? ==> r.citations == [])
  {
  }

  /** Each kind of citation is capped at half the limit, rounded down. */
  lemma CitationsCapped(q: Query, ss: SsAnswer, graph: GraphAnswer, arxivRanked: seq<RelatedPaper>)
    ensures var r := RecommendationsOf(q, ss, graph, arxivRanked);
      && (q.limit >= 0 ==>
            |WithSource(r.citations, CitingSource)| <= q.limit / 2
            && |WithSource(r.citations, ReferenceSource)| <= q.limit / 2)
  {
    CitationNetworkShape(graph, q.limit / 2);
  }

  // ---------------------------------------------------------------- format_for_article

  const IntroFound: string := "基于学术论文引用网络和语义相似度分析，为您推荐以下相关研究："
  const IntroNone: string := "抱歉，暂时无法获取自动推荐。您可以尝试以下方式探索相关研究："
  const SearchHeading: string := "### " + "🔍 相关论文搜索"
  const PapersHeading: string := "### " + "🔬 相关论文推荐"
  const CitationHeading: string := "### " + "📚 引用网络"
  const ManualHeading: string := "### " + "💡 手动探索建议"
  const CitingHeading: string := "**引用该论文的研究：**"
  const ReferencedHeading: string := "**该论文引用的前期工作：**"
  const ManualSteps: seq<string> := [
    "1. **Semantic Scholar**: 访问 semanticscholar.org 搜索论文标题",
    "2. **Google Scholar**: 使用 scholar.google.com 查找引用网络",
    "3. **arXiv**: 如果是计算机科学论文，在 arxiv.org 查找相关预印本",
    "4. **查看参考文献**: 阅读原文的参考文献章节，了解研究背景"]

  datatype Section = SearchResults | PaperResults | CitationSection | ManualAdvice

  /**
   * One line `format_for_article` appends, by the form it has; `Render`
   * gives its text.
   */
  datatype Line =
    | Intro(found: bool)
    | Blank
    | Heading(section: Section)
    | SearchTitle(index: nat, title: string, url: string)
    | SearchKeywords(text: string)
    | SearchNote(text: string)
    | PaperTitle(index: nat, title: string, year: int)
    | Authors(names: seq<string>)
    | CitationCount(count: int)
    | Summary(text: string)
    | DetailsLink(url: string)
    | ReadButton(url: string)
    | PdfLink(url: string)
    | Reason(text: string)
    | CitedGroup(citing: bool)
    | Cited(title: string, url: string, year: int)
    | Step(text: string)
    | Rule

  function SectionHeading(s: Section): string {
    match s
    case SearchResults => SearchHeading
    case PaperResults => PapersHeading
    case CitationSection => CitationHeading
    case ManualAdvice => ManualHeading
  }

  function Render(l: Line): string {
    match l
    case Intro(found) => if found then IntroFound else IntroNone
    case Blank => ""
    case Heading(s) => SectionHeading(s)
    case SearchTitle(i, title, url) => "**" + NatToString(i) + ". [" + title + "](" + url + ")**"
    case SearchKeywords(text) => "- **关键词**: " + text
    case SearchNote(text) => "- **说明**: " + text
    case PaperTitle(i, title, year) => "**" + NatToString(i) + ". " + title + "** (" + IntToString(year) + ")"
    case Authors(names) => "**作者**: " + Join(names, ", ")
    case CitationCount(count) => "**被引次数**: " + IntToString(count)
    case Summary(text) => "**简介**: " + text
    case DetailsLink(url) => "**链接**: [点击查看详情](" + url + ")"
    case ReadButton(url) => "**[📄 一键解读这篇论文](" + url + ")**"
    case PdfLink(url) => "**PDF**: [免费下载](" + url + ")"
    case Reason(text) => "**推荐理由**: " + text
    case CitedGroup(citing) => if citing then CitingHeading else ReferencedHeading
    case Cited(title, url, year) => "- [" + title + "](" + url + ") (" + IntToString(year) + ")"
    case Step(text) => text
    case Rule => "---"
  }

  /** Whether any of the three lists is non-empty. */
  predicate HasRecommendations(r: Recommendations) {
    r.semanticScholar != [] || r.citations != [] || r.similarTopics != []
  }

  /** The lines an `if` adds. */
  function When(c: bool, lines: seq<Line>): seq<Line> {
    if c then lines else []
  }

  /** A keyword-search entry: the numbered link, then its keywords and note when present. */
  function SearchEntryLines(i: nat, p: RelatedPaper): seq<Line> {
    [SearchTitle(i, p.title, p.url)]
    + When(p.abstractText != "", [SearchKeywords(p.abstractText)])
    + When(p.reason != "", [SearchNote(p.reason)])
  }

  function PdfLines(pdfUrl: Option<string>): seq<Line> {
    if pdfUrl.Some? && pdfUrl.value != "" then [PdfLink(pdfUrl.value), Blank] else []
  }

  /** A paper entry: the numbered title and year, then each detail that is present. */
  function PaperEntryLines(i: nat, p: RelatedPaper): seq<Line> {
    [PaperTitle(i, p.title, p.year), Blank]
    + When(p.authors != [], [Authors(p.authors), Blank])
    + When(p.citationCount != 0, [CitationCount(p.citationCount), Blank])
    + When(p.abstractText != "", [Summary(p.abstractText), Blank])
    + When(p.url != "", [DetailsLink(p.url), Blank, ReadButton(p.url), Blank])
    + PdfLines(p.pdfUrl)
    + When(p.reason != "", [Reason(p.reason), Blank])
  }

  /** The lines of the `i`-th entry. */
  function EntryLines(i: nat, p: RelatedPaper): seq<Line> {
    if p.source == KeywordSource then SearchEntryLines(i, p) else PaperEntryLines(i, p)
  }

  /** An entry and the blank line after it. */
  function EntryBlock(i: nat, p: RelatedPaper): seq<Line> {
    EntryLines(i, p) + [Blank]
  }

  /** The blocks of `ps[0]` to `ps[k - 1]`, numbered from 1 as `enumerate(ps, 1)` does. */
  function Numbered(ps: seq<RelatedPaper>, k: nat, block: (nat, RelatedPaper) -> seq<Line>): seq<Line>
    requires k <= |ps|
  {
    if k == 0 then [] else Numbered(ps, k - 1, block) + block(k, ps[k - 1])
  }

  /** The entries numbered 1 to `k`, each followed by a blank line. */
  function EntriesUpTo(ps: seq<RelatedPaper>, k: nat): seq<Line>
    requires k <= |ps|
  {
    Numbered(ps, k, EntryBlock)
  }

  /** The block of Semantic Scholar or arXiv recommendations: a heading and the first five entries. */
  function PrimaryLines(ss: seq<RelatedPaper>): seq<Line> {
    if ss == [] then []
    else
      var shown := Prefix(ss, 5);
      [Heading(if ss[0].source == KeywordSource then SearchResults else PaperResults), Blank]
      + EntriesUpTo(shown, |shown|)
  }

  function CitedLine(p: RelatedPaper): Line {
    Cited(p.title, p.url, p.year)
  }

  /** A group heading and the first three papers of one kind, or nothing when there are none. */
  function CitedBlock(citing: bool, ps: seq<RelatedPaper>): seq<Line> {
    if ps == [] then [] else [CitedGroup(citing)] + MapSeq(Prefix(ps, 3), CitedLine) + [Blank]
  }

  function CitationLines(cs: seq<RelatedPaper>): seq<Line> {
    if cs == [] then []
    else
      [Heading(CitationSection), Blank]
      + CitedBlock(true, WithSource(cs, CitingSource))
      + CitedBlock(false, WithSource(cs, ReferenceSource))
  }

  function ManualLines(): seq<Line> {
    [Heading(ManualAdvice), Blank] + MapSeq(ManualSteps, t => Step(t)) + [Blank]
  }

  /** The lines before the closing rule. */
  function FormatBody(r: Recommendations): seq<Line> {
    var has := HasRecommendations(r);
    [Intro(has), Blank]
    + PrimaryLines(r.semanticScholar)
    + CitationLines(r.citations)
    + When(!has, ManualLines())
  }

  /** The lines `format_for_article` collects. */
  function FormatLines(r: Recommendations): seq<Line> {
    FormatBody(r) + [Rule, Blank]
  }

  /** What `format_for_article` returns: the rendered lines joined by line breaks. */
  function FormatText(r: Recommendations): string {
    Join(MapSeq(FormatLines(r), Render), "\n")
  }

  lemma AppendAssoc<T>(a: seq<T>, b: seq<T>, c: seq<T>)
    ensures (a + b) + c == a + (b + c)
  {
  }

  method AppendEntries(lines: seq<Line>, ps: seq<RelatedPaper>) returns (out: seq<Line>)
    ensures out == lines + EntriesUpTo(ps, |ps|)
  {
    out := lines;
    for i := 0 to |ps|
      invariant out == lines + EntriesUpTo(ps, i)
    {
      var entry := EntryBlock(i + 1, ps[i]);
      AppendAssoc(lines, EntriesUpTo(ps, i), entry);
      out := out + entry;
    }
  }

  method AppendPrimary(lines: seq<Line>, ss: seq<RelatedPaper>) returns (out: seq<Line>)
    ensures out == lines + PrimaryLines(ss)
  {
    out := lines;
    if ss != [] {
      var heading := Heading(if ss[0].source == KeywordSource then SearchResults else PaperResults);
      out := out + [heading];
      out := out + [Blank];
      assert out == lines + [heading, Blank];
      var shown := Prefix(ss, 5);
      out := AppendEntries(out, shown);
      AppendAssoc(lines, [heading, Blank], EntriesUpTo(shown, |shown|));
    }
  }

  method AppendCited(lines: seq<Line>, ps: seq<RelatedPaper>) returns (out: seq<Line>)
    ensures out == lines + MapSeq(ps, CitedLine)
  {
    out := lines;
    for i := 0 to |ps|
      invariant out == lines + MapSeq(ps[..i], CitedLine)
    {
      assert ps[..i + 1] == ps[..i] + [ps[i]];
      MapSeqConcat(ps[..i], [ps[i]], CitedLine);
      out := out + [CitedLine(ps[i])];
    }
    assert ps[..|ps|] == ps;
  }

  method AppendCitedBlock(lines: seq<Line>, citing: bool, ps: seq<RelatedPaper>) returns (out: seq<Line>)
    ensures out == lines + CitedBlock(citing, ps)
  {
    out := lines;
    if ps != [] {
      var cited := MapSeq(Prefix(ps, 3), CitedLine);
      out := out + [CitedGroup(citing)];
      out := AppendCited(out, Prefix(ps, 3));
      out := out + [Blank];
      assert out == lines + ([CitedGroup(citing)] + cited + [Blank]);
    }
  }

  method AppendCitations(lines: seq<Line>, cs: seq<RelatedPaper>) returns (out: seq<Line>)
    ensures out == lines + CitationLines(cs)
  {
    out := lines;
    if cs != [] {
      out := out + [Heading(CitationSection), Blank];
      var citing := WithSource(cs, CitingSource);
      var referenced := WithSource(cs, ReferenceSource);
      out := AppendCitedBlock(out, true, citing);
      out := AppendCitedBlock(out, false, referenced);
      ghost var head := [Heading(CitationSection), Blank];
      ghost var first := CitedBlock(true, citing);
      AppendAssoc(lines, head, first);
      AppendAssoc(lines, head + first, CitedBlock(false, referenced));
    }
  }

  method FormatForArticle(r: Recommendations) returns (text: string)
    ensures text == FormatText(r)
  {
    var lines: seq<Line> := [];
    var has := HasRecommendations(r);
    if has {
      lines := lines + [Intro(true)];
    } else {
      lines := lines + [Intro(false)];
    }
    lines := lines + [Blank];
    assert lines == [Intro(has), Blank];
    lines := AppendPrimary(lines, r.semanticScholar);
    lines := AppendCitations(lines, r.citations);
    ghost var body := lines;
    if !has {
      lines := lines + ManualLines();
    }
    assert lines == body + When(!has, ManualLines());
    lines := lines + [Rule, Blank];
    text := Join(MapSeq(lines, Render), "\n");
  }

  // ---------------------------------------------------------------- what the article shows

  /** Only the first five primary recommendations reach the article. */
  lemma FormatShowsFirstFive(r: Recommendations)
    ensures FormatLines(r) == FormatLines(r.(semanticScholar := Prefix(r.semanticScholar, 5)))
  {
    var ss := r.semanticScholar;
    var ss5 := Prefix(ss, 5);
    if ss != [] {
      assert ss5[0] == ss[0];
      assert Prefix(ss5, 5) == ss5;
    }
  }

  /** Every paper kept by `WithSource` has that source. */
  lemma {:induction false} WithSourceHas(cs: seq<RelatedPaper>, source: string)
    ensures forall i :: 0 <= i < |WithSource(cs, source)| ==> WithSource(cs, source)[i].source == source
    decreases |cs|
  {
    if |cs| > 0 {
      WithSourceHas(cs[1..], source);
    }
  }

  /** When every paper has one of the two sources, a non-empty list keeps some paper of one of them. */
  lemma WithSourceSomeKind(cs: seq<RelatedPaper>)
    requires cs != []
    requires forall i :: 0 <= i < |cs| ==> cs[i].source == CitingSource || cs[i].source == ReferenceSource
    ensures WithSource(cs, CitingSource) != [] || WithSource(cs, ReferenceSource) != []
  {
  }

  lemma CitedBlockFirstThree(citing: bool, ps: seq<RelatedPaper>)
    ensures CitedBlock(citing, ps) == CitedBlock(citing, Prefix(ps, 3))
  {
    if ps != [] {
      assert Prefix(ps, 3) != [];
      assert Prefix(Prefix(ps, 3), 3) == Prefix(ps, 3);
    }
  }

  /** Keeping the first three of each kind, citing papers first, keeps each kind's first three. */
  lemma FirstThreeOfEach(cs: seq<RelatedPaper>)
    ensures var a := Prefix(WithSource(cs, CitingSource), 3);
      var b := Prefix(WithSource(cs, ReferenceSource), 3);
      WithSource(a + b, CitingSource) == a && WithSource(a + b, ReferenceSource) == b
  {
    var a := Prefix(WithSource(cs, CitingSource), 3);
    var b := Prefix(WithSource(cs, ReferenceSource), 3);
    WithSourceHas(cs, CitingSource);
    WithSourceHas(cs, ReferenceSource);
    assert forall i :: 0 <= i < |a| ==> a[i].source == CitingSource;
    assert forall i :: 0 <= i < |b| ==> b[i].source == ReferenceSource;
    WithSourceConcat(a, b, CitingSource);
    WithSourceConcat(a, b, ReferenceSource);
    WithSourceAll(a, CitingSource);
    WithSourceNone(b, CitingSource);
    WithSourceNone(a, ReferenceSource);
    WithSourceAll(b, ReferenceSource);
  }

  /**
   * Of a citation network, only the first three citing papers and the first
   * three references reach the article.
   */
  lemma FormatShowsFirstThreeCitations(r: Recommendations)
    requires forall i :: 0 <= i < |r.citations| ==>
      r.citations[i].source == CitingSource || r.citations[i].source == ReferenceSource
    ensures var cs := r.citations;
      FormatLines(r) == FormatLines(r.(citations :=
        Prefix(WithSource(cs, CitingSource), 3) + Prefix(WithSource(cs, ReferenceSource), 3)))
  {
    var cs := r.citations;
    var a := Prefix(WithSource(cs, CitingSource), 3);
    var b := Prefix(WithSource(cs, ReferenceSource), 3);
    FirstThreeOfEach(cs);
    CitedBlockFirstThree(true, WithSource(cs, CitingSource));
    CitedBlockFirstThree(false, WithSource(cs, ReferenceSource));
    if cs != [] {
      WithSourceSomeKind(cs);
      assert a + b != [];
    } else {
      assert a + b == [];
    }
    assert CitationLines(cs) == CitationLines(a + b);
  }

  /** Lines that end with the rule and a blank line join into text ending in `\n---\n`. */
  lemma JoinEndsWithRule(body: seq<Line>)
    requires |body| > 0
    ensures EndsWith(Join(MapSeq(body + [Rule, Blank], Render), "\n"), "\n---\n")
  {
    var rendered := MapSeq(body, Render);
    MapSeqConcat(body, [Rule, Blank], Render);
    assert MapSeq([Rule, Blank], Render) == ["---", ""];
    assert MapSeq(body + [Rule, Blank], Render) == rendered + ["---"] + [""];
    JoinAppend(rendered + ["---"], "", "\n");
    JoinAppend(rendered, "---", "\n");
  }

  /** The article block always closes with a horizontal rule and a line break. */
  lemma FormatEndsWithRule(r: Recommendations)
    ensures EndsWith(FormatText(r), "\n---\n")
  {
    JoinEndsWithRule(FormatBody(r));
  }

  /** The lines that are neither the manual-advice heading nor one of its steps. */
  predicate Ordinary(l: Line) {
    !l.Step? && l != Heading(ManualAdvice)
  }

  /** No other line reads like the manual-advice heading. */
  lemma OrdinaryIsNotManual(l: Line)
    requires Ordinary(l)
    ensures Render(l) != ManualHeading
  {
    assert ManualHeading[0] == '#' && ManualHeading[4] == '💡';
    match l {
      case Intro(found) =>
        assert IntroFound[0] != '#' && IntroNone[0] != '#';
      case Heading(s) =>
        assert SearchHeading[4] != '💡' && PapersHeading[4] != '💡' && CitationHeading[4] != '💡';
      case SearchTitle(i, title, url) =>
        assert Render(l)[0] == '*';
      case SearchKeywords(text) =>
        assert Render(l)[0] == '-';
      case SearchNote(text) =>
        assert Render(l)[0] == '-';
      case PaperTitle(i, title, year) =>
        assert Render(l)[0] == '*';
      case Authors(names) =>
        assert Render(l)[0] == '*';
      case CitationCount(count) =>
        assert Render(l)[0] == '*';
      case Summary(text) =>
        assert Render(l)[0] == '*';
      case DetailsLink(url) =>
        assert Render(l)[0] == '*';
      case ReadButton(url) =>
        assert Render(l)[0] == '*';
      case PdfLink(url) =>
        assert Render(l)[0] == '*';
      case Reason(text) =>
        assert Render(l)[0] == '*';
      case CitedGroup(citing) =>
        assert CitingHeading[0] == '*' && ReferencedHeading[0] == '*';
      case Cited(title, url, year) =>
        assert Render(l)[0] == '-';
      case Blank =>
      case Rule =>
    }
  }

  lemma {:induction false} NumberedOrdinary(ps: seq<RelatedPaper>, k: nat, block: (nat, RelatedPaper) -> seq<Line>)
    requires k <= |ps|
    requires forall i, p :: AllOrdinary(block(i, p))
    ensures AllOrdinary(Numbered(ps, k, block))
    decreases k
  {
    if k > 0 {
      NumberedOrdinary(ps, k - 1, block);
      assert AllOrdinary(block(k, ps[k - 1]));
    }
  }

  lemma EntriesOrdinary(ps: seq<RelatedPaper>, k: nat)
    requires k <= |ps|
    ensures AllOrdinary(EntriesUpTo(ps, k))
  {
    forall i, p
      ensures AllOrdinary(EntryBlock(i, p))
    {
      EntryLinesOrdinary(i, p);
    }
    NumberedOrdinary(ps, k, EntryBlock);
  }

  predicate AllOrdinary(lines: seq<Line>) {
    forall l :: l in lines ==> Ordinary(l)
  }

  lemma PaperDetailsOrdinary(p: RelatedPaper)
    ensures AllOrdinary(When(p.authors != [], [Authors(p.authors), Blank]))
    ensures AllOrdinary(When(p.citationCount != 0, [CitationCount(p.citationCount), Blank]))
    ensures AllOrdinary(When(p.abstractText != "", [Summary(p.abstractText), Blank]))
    ensures AllOrdinary(When(p.url != "", [DetailsLink(p.url), Blank, ReadButton(p.url), Blank]))
    ensures AllOrdinary(PdfLines(p.pdfUrl))
    ensures AllOrdinary(When(p.reason != "", [Reason(p.reason), Blank]))
  {
  }

  lemma EntryLinesOrdinary(i: nat, p: RelatedPaper)
    ensures AllOrdinary(EntryLines(i, p))
  {
    if p.source == KeywordSource {
      assert AllOrdinary(When(p.abstractText != "", [SearchKeywords(p.abstractText)]));
      assert AllOrdinary(When(p.reason != "", [SearchNote(p.reason)]));
    } else {
      PaperDetailsOrdinary(p);
    }
  }

  lemma PrimaryOrdinary(ss: seq<RelatedPaper>)
    ensures AllOrdinary(PrimaryLines(ss))
  {
    if ss != [] {
      var shown := Prefix(ss, 5);
      EntriesOrdinary(shown, |shown|);
    }
  }

  lemma CitedBlockOrdinary(citing: bool, ps: seq<RelatedPaper>)
    ensures AllOrdinary(CitedBlock(citing, ps))
  {
    if ps != [] {
      var cited := MapSeq(Prefix(ps, 3), CitedLine);
      assert forall i :: 0 <= i < |cited| ==> cited[i].Cited?;
      assert AllOrdinary(cited);
      assert CitedBlock(citing, ps) == [CitedGroup(citing)] + cited + [Blank];
    }
  }

  lemma CitationOrdinary(cs: seq<RelatedPaper>)
    ensures AllOrdinary(CitationLines(cs))
  {
    if cs != [] {
      var citing := CitedBlock(true, WithSource(cs, CitingSource));
      var referenced := CitedBlock(false, WithSource(cs, ReferenceSource));
      CitedBlockOrdinary(true, WithSource(cs, CitingSource));
      CitedBlockOrdinary(false, WithSource(cs, ReferenceSource));
      assert CitationLines(cs) == [Heading(CitationSection), Blank] + citing + referenced;
    }
  }

  /** With something to recommend, every line is ordinary. */
  lemma BodyOrdinary(r: Recommendations)
    requires HasRecommendations(r)
    ensures AllOrdinary(FormatLines(r))
  {
    PrimaryOrdinary(r.semanticScholar);
    CitationOrdinary(r.citations);
    var primary := PrimaryLines(r.semanticScholar);
    var citations := CitationLines(r.citations);
    assert FormatLines(r) == [Intro(true), Blank] + primary + citations + [] + [Rule, Blank];
  }

  /** The manual exploration advice appears exactly when there is nothing to recommend. */
  lemma ManualAdviceIffEmpty(r: Recommendations)
    ensures ManualHeading in MapSeq(FormatLines(r), Render) <==> !HasRecommendations(r)
  {
    var lines := FormatLines(r);
    var text := MapSeq(lines, Render);
    if HasRecommendations(r) {
      BodyOrdinary(r);
      forall i | 0 <= i < |text|
        ensures text[i] != ManualHeading
      {
        OrdinaryIsNotManual(lines[i]);
      }
    } else {
      assert lines[2] == Heading(ManualAdvice);
      assert text[2] == ManualHeading;
    }
  }

  // ---------------------------------------------------------------- the offline links are never shown

  /**
   * With no identifier and a title that has keywords, `get_recommendations`
   * offers search links, yet the article shows only the introduction and the
   * rule: `format_for_article` never reads `similar_topics`.
   */
  lemma OfflineLinksNotShown(q: Query, ss: SsAnswer, graph: GraphAnswer, arxivRanked: seq<RelatedPaper>)
    requires q.arxivId == "" && q.doi == "" && q.ssId == "" && q.title != ""
    requires PaperKeywords(q.title, q.abstractText) != [] && q.limit > 0
    ensures var r := RecommendationsOf(q, ss, graph, arxivRanked);
      r.similarTopics != [] && FormatLines(r) == [Intro(true), Blank, Rule, Blank]
  {
    var r := RecommendationsOf(q, ss, graph, arxivRanked);
    RecommendationsOfFields(q, ss, graph, arxivRanked);
    LocalLinksCount(q.title, q.abstractText, q.limit);
    assert r.semanticScholar == [] && r.citations == [];
    assert r.similarTopics == LocalLinks(q.title, q.abstractText, q.limit);
    OnlySimilarTopicsShowsNothing(r);
  }

  /** Offline links alone produce the introduction that promises recommendations, then the rule. */
  lemma OnlySimilarTopicsShowsNothing(r: Recommendations)
    requires r.semanticScholar == [] && r.citations == [] && r.similarTopics != []
    ensures FormatLines(r) == [Intro(true), Blank, Rule, Blank]
  {
  }

  /** The corrected block: when the primary list is empty, the offline links take its place. */
  function FormatIntendedLines(r: Recommendations): seq<Line> {
    FormatLines(r.(semanticScholar := if r.semanticScholar != [] then r.semanticScholar else r.similarTopics))
  }

  function FormatIntendedText(r: Recommendations): string {
    Join(MapSeq(FormatIntendedLines(r), Render), "\n")
  }

  /** The first block's first line is among the first `k` blocks. */
  lemma {:induction false} FirstBlockListed(ps: seq<RelatedPaper>, k: nat, block: (nat, RelatedPaper) -> seq<Line>)
    requires 1 <= k <= |ps| && |block(1, ps[0])| > 0
    ensures block(1, ps[0])[0] in Numbered(ps, k, block)
    decreases k
  {
    if k > 1 {
      FirstBlockListed(ps, k - 1, block);
    } else {
      assert Numbered(ps, 1, block) == [] + block(1, ps[0]);
    }
  }

  /** In the corrected block the offline links are listed, under the search heading when they are search links. */
  lemma SimilarTopicsShown(r: Recommendations)
    requires r.semanticScholar == [] && r.similarTopics != []
    ensures var lines := FormatIntendedLines(r);
      && lines[0] == Intro(true)
      && (r.similarTopics[0].source == KeywordSource ==> lines[2] == Heading(SearchResults))
      && EntryLines(1, r.similarTopics[0])[0] in lines
  {
    var sim := r.similarTopics;
    IntendedLinesShape(r);
    PrimaryListsFirstEntry(sim);
  }

  lemma IntendedLinesShape(r: Recommendations)
    requires r.semanticScholar == [] && r.similarTopics != []
    ensures FormatIntendedLines(r) == [Intro(true), Blank] + PrimaryLines(r.similarTopics) + CitationLines(r.citations) + [Rule, Blank]
  {
    var r' := r.(semanticScholar := r.similarTopics);
    assert HasRecommendations(r');
    assert FormatBody(r') == [Intro(true), Blank] + PrimaryLines(r.similarTopics) + CitationLines(r.citations) + [];
  }

  /** A non-empty primary list starts with its heading, and its first entry is listed. */
  lemma PrimaryListsFirstEntry(ps: seq<RelatedPaper>)
    requires ps != []
    ensures var primary := PrimaryLines(ps);
      && |primary| > 0
      && primary[0] == Heading(if ps[0].source == KeywordSource then SearchResults else PaperResults)
      && EntryLines(1, ps[0])[0] in primary
  {
    var shown := Prefix(ps, 5);
    assert shown[0] == ps[0];
    assert EntryBlock(1, ps[0])[0] == EntryLines(1, ps[0])[0];
    FirstBlockListed(shown, |shown|, EntryBlock);
  }

  /** For the query of `OfflineLinksNotShown`, the corrected block shows the Semantic Scholar search link. */
  lemma OfflineLinksShownWhenCorrected(q: Query, ss: SsAnswer, graph: GraphAnswer, arxivRanked: seq<RelatedPaper>)
    requires q.arxivId == "" && q.doi == "" && q.ssId == "" && q.title != ""
    requires PaperKeywords(q.title, q.abstractText) != [] && q.limit > 0
    ensures var r := RecommendationsOf(q, ss, graph, arxivRanked);
      var link := SsSearchLink(PaperKeywords(q.title, q.abstractText));
      && Heading(SearchResults) in FormatIntendedLines(r)
      && SearchTitle(1, link.title, link.url) in FormatIntendedLines(r)
  {
    var r := RecommendationsOf(q, ss, graph, arxivRanked);
    OfflineLinksNotShown(q, ss, graph, arxivRanked);
    RecommendationsOfFields(q, ss, graph, arxivRanked);
    assert r.similarTopics == LocalLinks(q.title, q.abstractText, q.limit);
    assert r.similarTopics[0] == SsSearchLink(PaperKeywords(q.title, q.abstractText));
    SimilarTopicsShown(r);
  }
}
