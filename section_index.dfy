/**
 * The section index of one document (extract_toc_and_sections): a map from
 * section title to its level, its one-based page and the full text of that
 * page. It is seeded from the document's outline and then completed with the
 * headers detected on each page. The PDF library is replaced by its results:
 * the text of every page, in page order, and the outline as a sequence of
 * (level, title, page) entries.
 */
module SectionIndex {
  import opened HeaderScan

  /** One entry of the declared outline; its page is one-based. */
  datatype TocEntry = TocEntry(level: int, title: string, page: int)

  /** What the index records for a section title. */
  datatype Section = Section(level: int, page: int, text: string)

  /** Every outline entry names a page of the document. */
  predicate PagesInRange(pages: seq<string>, toc: seq<TocEntry>) {
    forall k :: 0 <= k < |toc| ==> 1 <= toc[k].page <= |pages|
  }

  /** The titles of the first n outline entries. */
  function TitlesBefore(toc: seq<TocEntry>, n: nat): set<string>
    requires n <= |toc|
  {
    set k | 0 <= k < n :: toc[k].title
  }

  /** The titles of the whole outline. */
  function TocTitles(toc: seq<TocEntry>): set<string> {
    TitlesBefore(toc, |toc|)
  }

  /** The headers find_section_headers reports for each page, in page order. */
  function PageHeaders(pages: seq<string>): (found: seq<seq<string>>)
    ensures |found| == |pages|
  {
    if pages == [] then [] else [FindSectionHeaders(pages[0])] + PageHeaders(pages[1..])
  }

  /** The headers in the first n of the per-page header lists found. */
  function HeadersBefore(found: seq<seq<string>>, n: nat): set<string>
    requires n <= |found|
  {
    set q, h | 0 <= q < n && h in found[q] :: h
  }

  /** The headers detected on any page. */
  function DetectedHeaders(pages: seq<string>): set<string> {
    HeadersBefore(PageHeaders(pages), |pages|)
  }

  /** No entry among the first n after entry k carries the same title. */
  predicate LastWithTitleBefore(toc: seq<TocEntry>, k: nat, n: nat)
    requires k < n <= |toc|
  {
    forall k' :: k < k' < n ==> toc[k'].title != toc[k].title
  }

  /** Entry k is the last outline entry with its title. */
  predicate LastWithTitle(toc: seq<TocEntry>, k: nat)
    requires k < |toc|
  {
    LastWithTitleBefore(toc, k, |toc|)
  }

  /** List p of found is the first that holds header h. */
  predicate FirstListWith(found: seq<seq<string>>, p: nat, h: string)
    requires p < |found|
  {
    h in found[p] && h !in HeadersBefore(found, p)
  }

  /** Page p (zero-based) is the first page on which header h is detected. */
  predicate FirstPageWith(pages: seq<string>, p: nat, h: string)
    requires p < |pages|
  {
    FirstListWith(PageHeaders(pages), p, h)
  }

  /** The record an outline entry produces: the text of the one-based page it names. */
  function OutlineSection(pages: seq<string>, entry: TocEntry): Section
    requires 1 <= entry.page <= |pages|
  {
    Section(entry.level, entry.page, pages[entry.page - 1])
  }

  /** The record a header detected on page p (zero-based) produces: its level is
      one more than its number of dots. */
  function HeaderSection(pages: seq<string>, p: nat, h: string): Section
    requires p < |pages|
  {
    Section(DotCount(h) + 1, p + 1, pages[p])
  }

  /** extract_toc_and_sections. The outline pass writes every entry, so a title
      repeated in the outline keeps its last entry; the header pass inserts a
      detected header only when its title is not yet a key, so outline entries
      are never replaced and a header keeps the first page it was detected on. */
  method ExtractTocAndSections(pages: seq<string>, toc: seq<TocEntry>)
    returns (sections: map<string, Section>)
    requires PagesInRange(pages, toc)
    ensures sections.Keys == TocTitles(toc) + DetectedHeaders(pages)
    ensures forall k :: 0 <= k < |toc| && LastWithTitle(toc, k) ==>
              sections[toc[k].title] == OutlineSection(pages, toc[k])
    ensures forall p, h :: 0 <= p < |pages| && FirstPageWith(pages, p, h) && h !in TocTitles(toc) ==>
              sections[h] == HeaderSection(pages, p, h)
    ensures forall h :: h in sections && h !in TocTitles(toc) ==>
              sections[h].level == DotCount(h) + 1 && 2 <= sections[h].level <= 6
    ensures sections == map[] <==> toc == [] && DetectedHeaders(pages) == {}
  {
    sections := map[];

    // Outline pass.
    var k := 0;
    while k < |toc|
      invariant 0 <= k <= |toc|
      invariant sections.Keys == TitlesBefore(toc, k)
      invariant forall j :: 0 <= j < k && LastWithTitleBefore(toc, j, k) ==>
                  sections[toc[j].title] == OutlineSection(pages, toc[j])
    {
      var entry := toc[k];
      sections := sections[entry.title := Section(entry.level, entry.page, pages[entry.page - 1])];
      k := k + 1;
    }
    ghost var outline := sections;
    assert outline.Keys == TocTitles(toc);

    // Header pass, page by page.
    ghost var found := PageHeaders(pages);
    var p := 0;
    while p < |pages|
      invariant 0 <= p <= |pages|
      invariant HeaderPassDone(pages, found, outline, sections, p)
    {
      var text := pages[p];
      var headers := FindSectionHeaders(text);
      PageHeadersAt(pages, p);
      ghost var before := sections;
      sections := InsertNewHeaders(sections, headers, p, text);
      HeaderPassStep(pages, found, outline, before, sections, p);
      p := p + 1;
    }
    PageHeaderLevels(pages);
    HeaderLevels(pages, found, outline, sections);
    EmptyIndex(toc, DetectedHeaders(pages), sections);
  }

  /** The inner loop of the header pass over page p (zero-based): each header
      that is not yet a key is inserted with its level, the one-based page and
      the page's text; every existing key keeps its record. */
  method InsertNewHeaders(sections0: map<string, Section>, headers: seq<string>, p: nat, text: string)
    returns (sections: map<string, Section>)
    ensures sections.Keys == sections0.Keys + set h | h in headers
    ensures forall t :: t in sections0 ==> sections[t] == sections0[t]
    ensures forall h :: h in headers && h !in sections0 ==>
              sections[h] == Section(DotCount(h) + 1, p + 1, text)
  {
    sections := sections0;
    var n := 0;
    while n < |headers|
      invariant 0 <= n <= |headers|
      invariant sections.Keys == sections0.Keys + set h | h in headers[..n]
      invariant forall t :: t in sections0 ==> sections[t] == sections0[t]
      invariant forall h :: h in headers[..n] && h !in sections0 ==>
                  sections[h] == Section(DotCount(h) + 1, p + 1, text)
    {
      var header := headers[n];
      if header !in sections {
        sections := sections[header := Section(DotCount(header) + 1, p + 1, text)];
      }
      assert headers[..n + 1] == headers[..n] + [header];
      n := n + 1;
    }
    assert headers[..n] == headers;
  }

  /** What the header pass has established after the first p pages, on top of
      the outline records: a key for every header detected so far, outline
      records untouched, each new header recorded from the first page it was
      detected on, with one more level than it has dots. */
  ghost predicate HeaderPassDone(pages: seq<string>, found: seq<seq<string>>, outline: map<string, Section>,
                                 sections: map<string, Section>, p: nat)
    requires p <= |pages| == |found|
  {
    && sections.Keys == outline.Keys + HeadersBefore(found, p)
    && (forall t :: t in outline ==> sections[t] == outline[t])
    && (forall q, h :: 0 <= q < p && FirstListWith(found, q, h) && h !in outline ==>
          sections[h] == HeaderSection(pages, q, h))
    && (forall h :: h in sections && h !in outline ==> sections[h].level == DotCount(h) + 1)
  }

  /** Entry p of PageHeaders is what find_section_headers reports for page p. */
  lemma {:induction false} PageHeadersAt(pages: seq<string>, p: nat)
    requires p < |pages|
    ensures PageHeaders(pages)[p] == FindSectionHeaders(pages[p])
  {
    if p > 0 {
      PageHeadersAt(pages[1..], p - 1);
    }
  }

  /** The headers of the first p + 1 pages are those of the first p pages and those of page p. */
  lemma HeadersBeforeNext(found: seq<seq<string>>, p: nat)
    requires p < |found|
    ensures HeadersBefore(found, p + 1) == HeadersBefore(found, p) + set h | h in found[p]
  {
  }

  /** Scanning page p with the inner loop extends what the header pass has
      established from p pages to p + 1. */
  lemma HeaderPassStep(pages: seq<string>, found: seq<seq<string>>, outline: map<string, Section>,
                       before: map<string, Section>, after: map<string, Section>, p: nat)
    requires p < |pages| == |found|
    requires HeaderPassDone(pages, found, outline, before, p)
    requires after.Keys == before.Keys + set h | h in found[p]
    requires forall t :: t in before ==> after[t] == before[t]
    requires forall h :: h in found[p] && h !in before ==>
               after[h] == Section(DotCount(h) + 1, p + 1, pages[p])
    ensures HeaderPassDone(pages, found, outline, after, p + 1)
  {
    HeadersBeforeNext(found, p);
    forall q, h | 0 <= q < p + 1 && FirstListWith(found, q, h) && h !in outline
      ensures after[h] == HeaderSection(pages, q, h)
    {
      if q < p {
        assert h in HeadersBefore(found, p);
      }
    }
  }

  /** Every record the header pass adds has a level between 2 and 6, when
      every header found has between one and five dots. */
  lemma HeaderLevels(pages: seq<string>, found: seq<seq<string>>, outline: map<string, Section>,
                     sections: map<string, Section>)
    requires |pages| == |found|
    requires HeaderPassDone(pages, found, outline, sections, |pages|)
    requires forall q, h :: 0 <= q < |found| && h in found[q] ==> 2 <= DotCount(h) + 1 <= 6
    ensures forall h :: h in sections && h !in outline ==>
              sections[h].level == DotCount(h) + 1 && 2 <= sections[h].level <= 6
  {
    forall h | h in sections && h !in outline
      ensures sections[h].level == DotCount(h) + 1 && 2 <= sections[h].level <= 6
    {
      var q :| 0 <= q < |found| && h in found[q];
    }
  }

  /** Every header detected on any page has between one and five dots, so the
      level its record gets lies between 2 and 6. */
  lemma PageHeaderLevels(pages: seq<string>)
    ensures forall q, h :: 0 <= q < |pages| && h in PageHeaders(pages)[q] ==>
              IsHeaderShape(h) && 2 <= DotCount(h) + 1 <= 6
  {
    forall q, h | 0 <= q < |pages| && h in PageHeaders(pages)[q]
      ensures IsHeaderShape(h) && 2 <= DotCount(h) + 1 <= 6
    {
      DetectedHeaderLevel(pages, q, h);
    }
  }

  /** A header detected on page q has the pattern's shape and a level between 2 and 6. */
  lemma DetectedHeaderLevel(pages: seq<string>, q: nat, h: string)
    requires q < |pages| && h in PageHeaders(pages)[q]
    ensures IsHeaderShape(h) && 2 <= DotCount(h) + 1 <= 6
  {
    PageHeadersAt(pages, q);
    HeaderLevelBounds(pages[q], h);
  }

  /** No header is detected anywhere exactly when no page has a boundary-delimited
      header; with an empty outline, that is when the index comes out empty. */
  lemma NoDetectedHeaders(pages: seq<string>)
    ensures DetectedHeaders(pages) == {} <==>
              forall q, i, e :: 0 <= q < |pages| ==> !HeaderAt(pages[q], i, e)
  {
    HeadersBeforeEmpty(PageHeaders(pages), |pages|);
    forall q | 0 <= q < |pages|
      ensures (PageHeaders(pages)[q] == []) == (forall i, e :: !HeaderAt(pages[q], i, e))
    {
      PageWithoutHeaders(pages, q);
    }
  }

  /** Page q reports no header exactly when it has no boundary-delimited header. */
  lemma PageWithoutHeaders(pages: seq<string>, q: nat)
    requires q < |pages|
    ensures PageHeaders(pages)[q] == [] <==> forall i, e :: !HeaderAt(pages[q], i, e)
  {
    PageHeadersAt(pages, q);
    NoHeadersIff(pages[q]);
  }

  /** The first n lists hold no header exactly when each of them is empty. */
  lemma HeadersBeforeEmpty(found: seq<seq<string>>, n: nat)
    requires n <= |found|
    ensures HeadersBefore(found, n) == {} <==> forall q :: 0 <= q < n ==> found[q] == []
  {
    if forall q :: 0 <= q < n ==> found[q] == [] {
      assert forall h :: h !in HeadersBefore(found, n);
    }
    forall q | 0 <= q < n && found[q] != []
      ensures HeadersBefore(found, n) != {}
    {
      InHeadersBefore(found, n, q, found[q][0]);
    }
  }

  /** A header in one of the first n lists is among the headers of those lists. */
  lemma InHeadersBefore(found: seq<seq<string>>, n: nat, q: nat, h: string)
    requires q < n <= |found| && h in found[q]
    ensures h in HeadersBefore(found, n)
  {
  }

  /** An index keyed by the outline titles and the detected headers is empty
      exactly when the outline is empty and no header is detected. */
  lemma EmptyIndex(toc: seq<TocEntry>, detected: set<string>, sections: map<string, Section>)
    requires sections.Keys == TocTitles(toc) + detected
    ensures sections == map[] <==> toc == [] && detected == {}
  {
    if toc != [] {
      assert toc[0].title in sections;
    }
    if sections.Keys == {} {
      assert sections == map[];
    }
  }

  /** FirstPageWith unfolded for the detector's header lists: page p is the first
      page with header h exactly when h is detected on page p and on no earlier
      page. */
  lemma FirstPageIsLowest(pages: seq<string>, p: nat, h: string)
    requires p < |pages|
    ensures FirstPageWith(pages, p, h) <==>
              h in PageHeaders(pages)[p] && forall q :: 0 <= q < p ==> h !in PageHeaders(pages)[q]
  {
    FirstListIsLowest(PageHeaders(pages), p, h);
  }

  /** Every detected header has a first page, and only one. */
  lemma DetectedHasFirstPage(pages: seq<string>, h: string)
    requires h in DetectedHeaders(pages)
    ensures exists p :: 0 <= p < |pages| && FirstPageWith(pages, p, h)
    ensures forall p, p' ::
              0 <= p < |pages| && 0 <= p' < |pages| && FirstPageWith(pages, p, h) && FirstPageWith(pages, p', h)
              ==> p == p'
  {
    FirstListExists(PageHeaders(pages), |pages|, h);
    var first :| 0 <= first < |pages| && FirstListWith(PageHeaders(pages), first, h);
    assert FirstPageWith(pages, first, h);
    forall p, p' | 0 <= p < |pages| && 0 <= p' < |pages| &&
                   FirstPageWith(pages, p, h) && FirstPageWith(pages, p', h)
      ensures p == p'
    {
      FirstListIsLowest(PageHeaders(pages), p, h);
      FirstListIsLowest(PageHeaders(pages), p', h);
    }
  }

  /** List p is the first holding h exactly when no earlier list holds it. */
  lemma FirstListIsLowest(found: seq<seq<string>>, p: nat, h: string)
    requires p < |found|
    ensures FirstListWith(found, p, h) <==>
              h in found[p] && forall q :: 0 <= q < p ==> h !in found[q]
  {
    forall q | 0 <= q < p && h in found[q]
      ensures h in HeadersBefore(found, p)
    {
      InHeadersBefore(found, p, q, h);
    }
  }

  /** A header held by one of the first n lists is held first by one of them. */
  lemma {:induction false} FirstListExists(found: seq<seq<string>>, n: nat, h: string)
    requires n <= |found| && h in HeadersBefore(found, n)
    ensures exists p :: 0 <= p < n && FirstListWith(found, p, h)
  {
    var q :| 0 <= q < n && h in found[q];
    HeadersBeforeNext(found, n - 1);
    if h in HeadersBefore(found, n - 1) {
      FirstListExists(found, n - 1, h);
    } else {
      assert FirstListWith(found, n - 1, h);
    }
  }
}
