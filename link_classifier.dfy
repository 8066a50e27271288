/**
 * Classification of a user-supplied paper reference (`_detect_link_type`):
 * the reference is lower-cased and the first matching rule decides.
 */
module LinkClassifier {
  import opened Text

  datatype LinkType = ArXiv | Doi | OpenReview | SemanticScholar | GoogleScholar | PdfDirect | Generic

  /** The rules in the order they are tried, on an already lower-cased reference. */
  predicate ArxivRule(u: string) {
    Contains(u, "arxiv.org")
  }

  predicate DoiRule(u: string) {
    Contains(u, "doi.org") || StartsWith(u, "10.")
  }

  predicate OpenReviewRule(u: string) {
    Contains(u, "openreview.net")
  }

  predicate SemanticScholarRule(u: string) {
    Contains(u, "semanticscholar.org")
  }

  predicate GoogleScholarRule(u: string) {
    Contains(u, "scholar.google.com") || Contains(u, "google.com/scholar")
  }

  predicate PdfRule(u: string) {
    EndsWith(u, ".pdf")
  }

  function DetectLinkType(url: string): (t: LinkType)
    ensures t == ArXiv <==> ArxivRule(Lower(url))
    ensures t == Doi <==> !ArxivRule(Lower(url)) && DoiRule(Lower(url))
    ensures t == OpenReview <==> !ArxivRule(Lower(url)) && !DoiRule(Lower(url)) && OpenReviewRule(Lower(url))
    ensures t == SemanticScholar <==>
      !ArxivRule(Lower(url)) && !DoiRule(Lower(url)) && !OpenReviewRule(Lower(url)) && SemanticScholarRule(Lower(url))
    ensures t == GoogleScholar <==>
      !ArxivRule(Lower(url)) && !DoiRule(Lower(url)) && !OpenReviewRule(Lower(url))
      && !SemanticScholarRule(Lower(url)) && GoogleScholarRule(Lower(url))
    ensures t == PdfDirect <==>
      !ArxivRule(Lower(url)) && !DoiRule(Lower(url)) && !OpenReviewRule(Lower(url))
      && !SemanticScholarRule(Lower(url)) && !GoogleScholarRule(Lower(url)) && PdfRule(Lower(url))
    ensures t == Generic <==>
      !ArxivRule(Lower(url)) && !DoiRule(Lower(url)) && !OpenReviewRule(Lower(url))
      && !SemanticScholarRule(Lower(url)) && !GoogleScholarRule(Lower(url)) && !PdfRule(Lower(url))
  {
    var u := Lower(url);
    if ArxivRule(u) then ArXiv
    else if DoiRule(u) then Doi
    else if OpenReviewRule(u) then OpenReview
    else if SemanticScholarRule(u) then SemanticScholar
    else if GoogleScholarRule(u) then GoogleScholar
    else if PdfRule(u) then PdfDirect
    else Generic
  }

  /** Classification ignores the case of ASCII letters. */
  lemma DetectIgnoresCase(url: string)
    ensures DetectLinkType(Lower(url)) == DetectLinkType(url)
  {
    LowerIsLower(url);
  }

  /** Whatever surrounds it, a host spelled `arxiv.org` in any mix of cases makes the reference an arXiv link. */
  lemma ArxivHostInAnyCase(p: string, host: string, q: string)
    requires Lower(host) == "arxiv.org"
    ensures DetectLinkType(p + host + q) == ArXiv
  {
    LowerConcat(p + host, q);
    LowerConcat(p, host);
    ContainsItself("arxiv.org");
    ContainsSuffix(Lower(p), "arxiv.org", "arxiv.org");
    ContainsPrefix(Lower(p) + "arxiv.org", Lower(q), "arxiv.org");
  }

  /** A bare DOI (`10.` followed by anything) that mentions no arXiv host is a DOI reference. */
  lemma BareDoiIsDoi(url: string)
    requires StartsWith(url, "10.") && !ArxivRule(Lower(url))
    ensures DetectLinkType(url) == Doi
  {
    assert Lower(url)[..3] == Lower(url[..3]);
  }

  /** A `.pdf` link on no known host is `PdfDirect`; any other suffix on no known host is `Generic`. */
  lemma PdfSuffixDecides(url: string)
    requires !ArxivRule(Lower(url)) && !DoiRule(Lower(url)) && !OpenReviewRule(Lower(url))
    requires !SemanticScholarRule(Lower(url)) && !GoogleScholarRule(Lower(url))
    ensures DetectLinkType(url) == PdfDirect <==> EndsWith(Lower(url), ".pdf")
    ensures DetectLinkType(url) == Generic <==> !EndsWith(Lower(url), ".pdf")
  {
  }
}
