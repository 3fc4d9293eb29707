/**
 * Paper discovery (`lib/discovery.py`): the arXiv query string, the
 * extraction of an arXiv id from a result's entry URL, the Semantic Scholar
 * enrichment step with the web service as an oracle, the keyword and
 * citation filter, and the fallbacks of `discover_papers`.
 */
module Discovery {
  import opened Wrappers
  import opened Text
  import opened Seqs
  import opened Models
  import opened Utils

  // ---------------------------------------------------------------------------
  // The arXiv query

  /** `[f"cat:{cat}" for cat in categories]`. */
  function CatParts(categories: seq<string>): (r: seq<string>)
    ensures |r| == |categories|
    ensures forall i :: 0 <= i < |r| ==> r[i] == "cat:" + categories[i]
  {
    seq(|categories|, i requires 0 <= i < |categories| => "cat:" + categories[i])
  }

  /** The query sent to arXiv: the plain query, narrowed to the categories when there are any. */
  function FullQuery(query: string, categories: seq<string>): string {
    if categories == [] then query
    else query + " AND (" + Join(" OR ", CatParts(categories)) + ")"
  }

  /**
   * Without categories the query goes out unchanged; with them it is followed
   * by " AND (", the first category, ..., the last category and ")".
   */
  lemma FullQueryShape(query: string, categories: seq<string>)
    ensures categories == [] ==> FullQuery(query, categories) == query
    ensures categories != [] ==>
      StartsWith(FullQuery(query, categories), query + " AND (cat:" + categories[0]) &&
      EndsWith(FullQuery(query, categories), "cat:" + categories[|categories| - 1] + ")")
    ensures |categories| == 1 ==> FullQuery(query, categories) == query + " AND (cat:" + categories[0] + ")"
  {
    if categories != [] {
      var parts := CatParts(categories);
      var j := Join(" OR ", parts);
      JoinEnds(" OR ", parts);
      var first := parts[0];
      var last := parts[|parts| - 1];
      var q := query + " AND (" + j + ")";
      assert q[..|query + " AND (" + first|] == query + " AND (" + j[..|first|];
      assert q[|q| - |last + ")"|..] == j[|j| - |last|..] + ")";
      assert query + " AND (" + first == query + " AND (cat:" + categories[0];
    }
  }

  // ---------------------------------------------------------------------------
  // arXiv ids

  /** The characters of an old-style archive name, `[a-z-]`. */
  predicate IsArchiveChar(c: char) {
    'a' <= c <= 'z' || c == '-'
  }

  /** Number of archive-name characters at the end of `s`. */
  function TrailingArchive(s: string): (n: nat)
    ensures n <= |s|
    ensures forall i :: |s| - n <= i < |s| ==> IsArchiveChar(s[i])
    ensures n < |s| ==> !IsArchiveChar(s[|s| - n - 1])
  {
    if s != [] && IsArchiveChar(s[|s| - 1]) then TrailingArchive(s[..|s| - 1]) + 1 else 0
  }

  /** Length of a version suffix `v\d+` at the end of `s`, or 0 when there is none. */
  function VersionLength(s: string): (n: nat)
    ensures n <= |s|
  {
    var d := TrailingDigits(s);
    if 0 < d < |s| && s[|s| - d - 1] == 'v' then d + 1 else 0
  }

  /** Length of a new-style id `\d{4}\.\d{4,5}` ending `s`, or 0 when there is none. */
  function NewStyleLength(s: string): (n: nat)
    ensures n <= |s|
  {
    var d := TrailingDigits(s);
    if (d == 4 || d == 5) && |s| >= d + 5 && s[|s| - d - 1] == '.' && AllDigits(s[|s| - d - 5..|s| - d - 1])
    then d + 5 else 0
  }

  /**
   * Length of an old-style id `[a-z-]+/\d{7}` ending `s`, or 0. A regular
   * expression search starts at the leftmost position that matches, so the
   * archive name takes in every archive character before the '/'.
   */
  function OldStyleLength(s: string): (n: nat)
    ensures n <= |s|
  {
    var d := TrailingDigits(s);
    if d == 7 && |s| >= 8 && s[|s| - 8] == '/' then
      var a := TrailingArchive(s[..|s| - 8]);
      if a > 0 then a + 8 else 0
    else 0
  }

  /**
   * `_extract_arxiv_id`: the new-style id at the end of the entry URL, with an
   * optional version suffix dropped; failing that the old-style id; else None.
   */
  function ExtractArxivId(entryId: string): Option<string> {
    var base := entryId[..|entryId| - VersionLength(entryId)];
    var n := NewStyleLength(base);
    if n > 0 then Some(base[|base| - n..])
    else
      var m := OldStyleLength(base);
      if m > 0 then Some(base[|base| - m..]) else None
  }

  /** A new-style arXiv id: four digits, a dot, four or five digits. */
  predicate IsNewStyleId(x: string) {
    (|x| == 9 || |x| == 10) && x[4] == '.' && AllDigits(x[..4]) && AllDigits(x[5..])
  }

  /** An old-style arXiv id: an archive name, a slash, seven digits. */
  predicate IsOldStyleId(x: string) {
    |x| >= 9 && x[|x| - 8] == '/' && AllDigits(x[|x| - 7..]) &&
    forall i :: 0 <= i < |x| - 8 ==> IsArchiveChar(x[i])
  }

  predicate IsArxivId(x: string) {
    IsNewStyleId(x) || IsOldStyleId(x)
  }

  /** An optional version suffix: nothing, or "v" and at least one digit. */
  predicate IsVersion(v: string) {
    v == "" || (|v| >= 2 && v[0] == 'v' && AllDigits(v[1..]))
  }

  lemma VersionSuffixIsVersion(s: string)
    ensures IsVersion(s[|s| - VersionLength(s)..])
  {
    var k := VersionLength(s);
    if k > 0 {
      assert s[|s| - k..][1..] == s[|s| - TrailingDigits(s)..];
    }
  }

  lemma NewStyleSound(s: string)
    requires NewStyleLength(s) > 0
    ensures IsNewStyleId(s[|s| - NewStyleLength(s)..])
  {
    var d := TrailingDigits(s);
    var x := s[|s| - NewStyleLength(s)..];
    assert x[..4] == s[|s| - d - 5..|s| - d - 1];
    assert x[5..] == s[|s| - d..];
  }

  lemma OldStyleSound(s: string)
    requires OldStyleLength(s) > 0
    ensures IsOldStyleId(s[|s| - OldStyleLength(s)..])
  {
    var head := s[..|s| - 8];
    var a := TrailingArchive(head);
    var x := s[|s| - OldStyleLength(s)..];
    assert x[|x| - 7..] == s[|s| - 7..];
    assert forall i :: 0 <= i < |x| - 8 ==> x[i] == head[|head| - a + i];
  }

  /** The extracted id is the tail of the URL with its version suffix removed. */
  lemma ExtractedTail(entryId: string)
    ensures var base := entryId[..|entryId| - VersionLength(entryId)];
      ExtractArxivId(entryId).Some? ==>
        (NewStyleLength(base) > 0 && ExtractArxivId(entryId).value == base[|base| - NewStyleLength(base)..]) ||
        (OldStyleLength(base) > 0 && ExtractArxivId(entryId).value == base[|base| - OldStyleLength(base)..])
  {
  }

  lemma EndsWithBoth(b: string, x: string, v: string)
    requires EndsWith(b, x)
    ensures EndsWith(b + v, x + v)
  {
    assert (b + v)[|b + v| - |x + v|..] == b[|b| - |x|..] + v;
  }

  /** Whatever is extracted is an arXiv id that ends the entry URL, possibly followed by a version. */
  lemma ExtractSound(entryId: string)
    ensures ExtractArxivId(entryId).Some? ==>
      IsArxivId(ExtractArxivId(entryId).value) &&
      exists v :: IsVersion(v) && EndsWith(entryId, ExtractArxivId(entryId).value + v)
  {
    var k := VersionLength(entryId);
    var base := entryId[..|entryId| - k];
    var v := entryId[|entryId| - k..];
    assert entryId == base + v;
    VersionSuffixIsVersion(entryId);
    ExtractedTail(entryId);
    var r := ExtractArxivId(entryId);
    if r.Some? {
      var x := r.value;
      if NewStyleLength(base) > 0 {
        NewStyleSound(base);
      } else {
        OldStyleSound(base);
      }
      assert EndsWith(base, x);
      EndsWithBoth(base, x, v);
    }
  }

  /** An id that ends in a digit run not preceded by 'v' gains exactly the version it is given. */
  lemma VersionAfter(b: string, v: string)
    requires VersionLength(b) == 0
    requires b != [] && IsDigit(b[|b| - 1])
    requires IsVersion(v)
    ensures VersionLength(b + v) == |v|
    ensures (b + v)[..|b + v| - |v|] == b
  {
    if v != "" {
      TrailingDigitsAfter(b + "v", v[1..]);
      assert b + v == b + "v" + v[1..];
    } else {
      assert b + v == b;
    }
  }

  lemma NewStyleAt(prefix: string, id: string)
    requires IsNewStyleId(id)
    ensures VersionLength(prefix + id) == 0
    ensures NewStyleLength(prefix + id) == |id|
  {
    var s := prefix + id;
    var b := prefix + id[..5];
    var d := id[5..];
    assert s == b + d;
    TrailingDigitsAfter(b, d);
    assert s[|s| - |d| - 5..|s| - |d| - 1] == id[..4];
  }

  /** Seven digits after a '/' end the URL: the digit run and the archive name before the '/'. */
  lemma OldStyleDigits(prefix: string, id: string)
    requires IsOldStyleId(id)
    ensures var s := prefix + id;
      |s| >= 9 && TrailingDigits(s) == 7 && s[|s| - 8] == '/' && s[..|s| - 8] == prefix + id[..|id| - 8]
  {
    var s := prefix + id;
    var b := prefix + id[..|id| - 7];
    var d := id[|id| - 7..];
    assert s == b + d;
    assert b[|b| - 1] == '/';
    TrailingDigitsAfter(b, d);
    assert s[|s| - 8] == '/';
    assert s[..|s| - 8] == prefix + id[..|id| - 8];
  }

  lemma OldStyleAt(prefix: string, id: string)
    requires IsOldStyleId(id)
    requires prefix == [] || !IsArchiveChar(prefix[|prefix| - 1])
    ensures VersionLength(prefix + id) == 0
    ensures NewStyleLength(prefix + id) == 0
    ensures OldStyleLength(prefix + id) == |id|
  {
    var s := prefix + id;
    OldStyleDigits(prefix, id);
    assert s[|s| - 7 - 1] != 'v';
    var name := id[..|id| - 8];
    assert forall i :: 0 <= i < |name| ==> IsArchiveChar(name[i]);
    ArchiveNameAfter(prefix, name);
    assert TrailingArchive(s[..|s| - 8]) == |name|;
  }

  /** An archive name after a character outside the name's alphabet is taken whole. */
  lemma ArchiveNameAfter(prefix: string, name: string)
    requires forall i :: 0 <= i < |name| ==> IsArchiveChar(name[i])
    requires prefix == [] || !IsArchiveChar(prefix[|prefix| - 1])
    ensures TrailingArchive(prefix + name) == |name|
  {
    var s := prefix + name;
    assert forall i :: |s| - |name| <= i < |s| ==> s[i] == name[i - |prefix|];
    assert prefix != [] ==> s[|prefix| - 1] == prefix[|prefix| - 1];
    TrailingArchiveExact(s, |name|);
  }

  lemma TrailingArchiveExact(s: string, k: nat)
    requires k <= |s|
    requires forall i :: |s| - k <= i < |s| ==> IsArchiveChar(s[i])
    requires k == |s| || !IsArchiveChar(s[|s| - k - 1])
    ensures TrailingArchive(s) == k
  {
  }

  /** A new-style id at the end of the URL is found, with or without a version, whatever precedes it. */
  lemma ExtractNewStyle(prefix: string, id: string, v: string)
    requires IsNewStyleId(id) && IsVersion(v)
    ensures ExtractArxivId(prefix + id + v) == Some(id)
  {
    NewStyleAt(prefix, id);
    VersionAfter(prefix + id, v);
    var b := prefix + id;
    assert b[|b| - |id|..] == id;
  }

  /** Extraction works on the URL with its version suffix removed. */
  lemma ExtractOfOldBase(s: string, b: string, id: string)
    requires s[..|s| - VersionLength(s)] == b
    requires |id| <= |b| && b[|b| - |id|..] == id && id != []
    requires NewStyleLength(b) == 0 && OldStyleLength(b) == |id|
    ensures ExtractArxivId(s) == Some(id)
  {
  }

  /**
   * An old-style id at the end of the URL is found, with or without a
   * version, when what precedes it does not extend its archive name.
   */
  lemma ExtractOldStyle(prefix: string, id: string, v: string)
    requires IsOldStyleId(id) && IsVersion(v)
    requires prefix == [] || !IsArchiveChar(prefix[|prefix| - 1])
    ensures ExtractArxivId(prefix + id + v) == Some(id)
  {
    var b := prefix + id;
    OldStyleAt(prefix, id);
    assert IsDigit(b[|b| - 1]) by {
      assert b[|b| - 1] == id[|id| - 7..][6];
    }
    VersionAfter(b, v);
    assert b[|b| - |id|..] == id;
    ExtractOfOldBase(b + v, b, id);
  }

  /** An arXiv id has no version suffix, so the URL formatters keep it whole. */
  lemma IdHasNoVersion(id: string)
    requires IsArxivId(id)
    ensures StripVersionSuffix(id) == id
    ensures FormatArxivUrl(id) == AbsBase + id
    ensures FormatArxivPdfUrl(id) == PdfBase + id
  {
    if IsNewStyleId(id) {
      NewStyleAt([], id);
    } else {
      OldStyleAt([], id);
    }
    assert [] + id == id;
  }

  /** The id is recovered from the abstract-page URL built for any version of it. */
  lemma ExtractFromArxivUrl(id: string, v: string)
    requires IsArxivId(id) && IsVersion(v)
    ensures ExtractArxivId(FormatArxivUrl(id + v)) == Some(id)
  {
    if v == "" {
      assert id + v == id;
      IdHasNoVersion(id);
    } else {
      assert id + v == id + "v" + v[1..];
      StripVersionOf(id, v[1..]);
    }
    assert AbsBase + id == AbsBase + id + "";
    if IsNewStyleId(id) {
      ExtractNewStyle(AbsBase, id, "");
    } else {
      ExtractOldStyle(AbsBase, id, "");
    }
  }

  // ---------------------------------------------------------------------------
  // Search results

  /** One result of the arXiv client: the fields `search_arxiv` reads. */
  datatype ArxivResult = ArxivResult(
    entryId: string,
    title: string,
    authors: seq<string>,
    summary: string,
    categories: seq<string>,
    published: Option<string>,
    doi: Option<string>)

  /** `text.strip().replace("\n", " ")`. */
  function OneLine(s: string): (r: string)
    ensures |r| == |Strip(s)|
    ensures forall i :: 0 <= i < |r| ==> r[i] != '\n'
  {
    ReplaceChar(Strip(s), '\n', ' ')
  }

  function PaperOf(r: ArxivResult, id: string): Paper {
    Paper(id, OneLine(r.title), r.authors, OneLine(r.summary), FormatArxivUrl(id), FormatArxivPdfUrl(id),
          r.categories, r.published, r.doi, None, None, None)
  }

  predicate HasArxivId(r: ArxivResult) {
    ExtractArxivId(r.entryId).Some?
  }

  /** The papers made from the results, in order, skipping results without an id. */
  function Converted(results: seq<ArxivResult>): (papers: seq<Paper>)
    ensures |papers| <= |results|
  {
    if results == [] then []
    else
      var last := results[|results| - 1];
      Converted(results[..|results| - 1]) +
        (match ExtractArxivId(last.entryId)
         case None => []
         case Some(id) => [PaperOf(last, id)])
  }

  /** What every paper made by the search satisfies. */
  predicate WellFormed(p: Paper) {
    IsArxivId(p.paperId) && p.arxivUrl == AbsBase + p.paperId && p.pdfUrl == PdfBase + p.paperId &&
    (forall i :: 0 <= i < |p.title| ==> p.title[i] != '\n') &&
    (forall i :: 0 <= i < |p.summary| ==> p.summary[i] != '\n')
  }

  /**
   * Exactly one paper per result with an id; each has a version-less arXiv id,
   * abstract and PDF URLs built from it, single-line text, and no citation data yet.
   */
  lemma ConvertedPapers(results: seq<ArxivResult>)
    ensures |Converted(results)| == CountWhere(results, HasArxivId)
    ensures forall p :: p in Converted(results) ==> WellFormed(p) && p.citationCount.None?
  {
    ConvertedCount(results);
    ConvertedWellFormed(results);
  }

  lemma {:induction false} ConvertedCount(results: seq<ArxivResult>)
    ensures |Converted(results)| == CountWhere(results, HasArxivId)
  {
    if results != [] {
      ConvertedCount(results[..|results| - 1]);
    }
  }

  predicate AsFound(p: Paper) {
    WellFormed(p) && p.citationCount.None?
  }

  lemma {:induction false} ConvertedWellFormed(results: seq<ArxivResult>)
    ensures forall p :: p in Converted(results) ==> AsFound(p)
  {
    if results != [] {
      var init := results[..|results| - 1];
      ConvertedWellFormed(init);
      var last := results[|results| - 1];
      var id := ExtractArxivId(last.entryId);
      if id.Some? {
        PaperOfWellFormed(last, id.value);
        assert Converted(results) == Converted(init) + [PaperOf(last, id.value)];
      } else {
        assert Converted(results) == Converted(init);
      }
    }
  }

  lemma PaperOfWellFormed(r: ArxivResult, id: string)
    requires ExtractArxivId(r.entryId) == Some(id)
    ensures WellFormed(PaperOf(r, id)) && PaperOf(r, id).citationCount.None?
  {
    ExtractSound(r.entryId);
    IdHasNoVersion(id);
  }

  lemma ConvertedStep(results: seq<ArxivResult>, i: nat)
    requires i < |results|
    ensures Converted(results[..i + 1]) == Converted(results[..i]) +
      (match ExtractArxivId(results[i].entryId)
       case None => []
       case Some(id) => [PaperOf(results[i], id)])
  {
    assert results[..i + 1][..i] == results[..i];
  }

  /** `search_arxiv`: the client's results for the full query, turned into papers. */
  method SearchArxiv(query: string, maxResults: int, categories: seq<string>,
                     client: (string, int) -> seq<ArxivResult>)
    returns (papers: seq<Paper>)
    ensures papers == Converted(client(FullQuery(query, categories), maxResults))
  {
    var catFilter := "";
    if categories != [] {
      catFilter := " AND (" + Join(" OR ", CatParts(categories)) + ")";
    }
    var fullQuery := query + catFilter;
    assert fullQuery == FullQuery(query, categories);
    var results := client(fullQuery, maxResults);
    papers := [];
    var i := 0;
    while i < |results|
      invariant 0 <= i <= |results|
      invariant papers == Converted(results[..i])
    {
      ConvertedStep(results, i);
      var id := ExtractArxivId(results[i].entryId);
      if id.Some? {
        papers := papers + [PaperOf(results[i], id.value)];
      }
      i := i + 1;
    }
    assert results[..i] == results;
  }

  // ---------------------------------------------------------------------------
  // Semantic Scholar enrichment

  /**
   * The fields of a Semantic Scholar reply that are read. `tldr` is None when
   * the reply has no truthy "tldr" object, else the object's "text" (which may be absent).
   */
  datatype S2Data = S2Data(citationCount: Option<int>, influentialCitationCount: Option<int>, tldr: Option<Option<string>>)

  /** An HTTP reply, or a request that raised. */
  datatype S2Reply = Reply(status: int, data: S2Data) | RequestFailed

  /**
   * `enrich_with_semantic_scholar`: look the version-less id up (request 0),
   * asking once more (request 1) after a 429; only a 200 reply changes the paper.
   */
  function Enriched(p: Paper, s2: (string, nat) -> S2Reply): (q: Paper)
    ensures q.(citationCount := p.citationCount, influentialCitationCount := p.influentialCitationCount,
               tldr := p.tldr) == p
  {
    var id := StripVersionSuffix(p.paperId);
    var first := s2(id, 0);
    var reply := if first.Reply? && first.status == 429 then s2(id, 1) else first;
    if reply.Reply? && reply.status == 200 then
      p.(citationCount := reply.data.citationCount,
         influentialCitationCount := reply.data.influentialCitationCount,
         tldr := if reply.data.tldr.Some? then reply.data.tldr.value else p.tldr)
    else p
  }

  /** Only a final 200 reply changes the paper: it takes the reply's citation counts and, when present, its tldr. */
  lemma EnrichedOutcome(p: Paper, s2: (string, nat) -> S2Reply)
    ensures var id := StripVersionSuffix(p.paperId);
      var first := s2(id, 0);
      var reply := if first.Reply? && first.status == 429 then s2(id, 1) else first;
      (reply.Reply? && reply.status == 200 ==>
         Enriched(p, s2).citationCount == reply.data.citationCount &&
         Enriched(p, s2).influentialCitationCount == reply.data.influentialCitationCount &&
         Enriched(p, s2).tldr == (if reply.data.tldr.Some? then reply.data.tldr.value else p.tldr)) &&
      (!(reply.Reply? && reply.status == 200) ==> Enriched(p, s2) == p)
  {
  }

  function EnrichAll(papers: seq<Paper>, s2: (string, nat) -> S2Reply): (r: seq<Paper>)
    ensures |r| == |papers|
    ensures forall i :: 0 <= i < |papers| ==> r[i] == Enriched(papers[i], s2)
  {
    seq(|papers|, i requires 0 <= i < |papers| => Enriched(papers[i], s2))
  }

  // ---------------------------------------------------------------------------
  // The candidate filter

  const Keywords: seq<string> :=
    ["benchmark", "evaluation", "eval", "dataset", "leaderboard", "test suite", "scoring", "rubric"]

  /** The lower-cased "title abstract" text searched for keywords. */
  function SearchText(p: Paper): string {
    Lower(p.title + " " + p.summary)
  }

  predicate MentionsBenchmark(p: Paper) {
    exists k :: 0 <= k < |Keywords| && Contains(SearchText(p), Keywords[k])
  }

  /** The citation threshold drops a paper only when it is on and the count is known. */
  predicate TooFewCitations(p: Paper, minCitations: int) {
    minCitations > 0 && p.citationCount.Some? && p.citationCount.value < minCitations
  }

  predicate Kept(minCitations: int, p: Paper) {
    !TooFewCitations(p, minCitations) && MentionsBenchmark(p)
  }

  function Keep(minCitations: int): Paper -> bool {
    (p: Paper) => Kept(minCitations, p)
  }

  /** `filter_candidates`. */
  method FilterCandidates(papers: seq<Paper>, minCitations: int) returns (filtered: seq<Paper>)
    ensures filtered == Filter(papers, Keep(minCitations))
  {
    filtered := [];
    var i := 0;
    while i < |papers|
      invariant 0 <= i <= |papers|
      invariant filtered == Filter(papers[..i], Keep(minCitations))
    {
      FilterStep(papers, i, Keep(minCitations));
      var paper := papers[i];
      var skip := minCitations > 0 && paper.citationCount.Some? && paper.citationCount.value < minCitations;
      if !skip {
        var text := Lower(paper.title + " " + paper.summary);
        var found := exists k :: 0 <= k < |Keywords| && Contains(text, Keywords[k]);
        if found {
          filtered := filtered + [paper];
        }
      }
      i := i + 1;
    }
    assert papers[..i] == papers;
  }

  /**
   * The candidates are the input papers that mention a keyword and are not
   * below a known citation threshold, kept in their input order.
   */
  lemma CandidatesSpec(papers: seq<Paper>, minCitations: int)
    ensures IsSubsequence(Filter(papers, Keep(minCitations)), papers)
    ensures forall p :: p in Filter(papers, Keep(minCitations)) <==>
      p in papers && MentionsBenchmark(p) && !TooFewCitations(p, minCitations)
  {
    FilterIsSubsequence(papers, Keep(minCitations));
    forall p
      ensures p in Filter(papers, Keep(minCitations)) <==>
        p in papers && MentionsBenchmark(p) && !TooFewCitations(p, minCitations)
    {
      FilterMembership(papers, Keep(minCitations), p);
    }
  }

  /**
   * A paper whose citation count is unknown, or any paper when the threshold
   * is not positive, is never dropped for citations: it is kept exactly when
   * it mentions a keyword.
   */
  lemma UnknownCountsNeverDropped(papers: seq<Paper>, minCitations: int, p: Paper)
    requires p in papers
    requires p.citationCount.None? || minCitations <= 0
    ensures p in Filter(papers, Keep(minCitations)) <==> MentionsBenchmark(p)
  {
    FilterMembership(papers, Keep(minCitations), p);
  }

  /** A keyword anywhere in the title, in any letter case, qualifies the paper. */
  lemma KeywordInTitle(p: Paper, k: nat)
    requires k < |Keywords|
    requires Contains(Lower(p.title), Keywords[k])
    ensures MentionsBenchmark(p)
  {
    LowerAppend(p.title, " " + p.summary);
    assert p.title + " " + p.summary == p.title + (" " + p.summary);
    ContainsInLeft(Lower(p.title), Lower(" " + p.summary), Keywords[k]);
  }

  /** "evaluation" is redundant in the keyword list: every text that contains it contains "eval". */
  lemma EvaluationImpliesEval(s: string)
    requires Contains(s, "evaluation")
    ensures Contains(s, "eval")
  {
    assert "evaluation" == "eval" + "uation";
    ContainsPrefixOfSub(s, "eval", "uation");
  }

  // ---------------------------------------------------------------------------
  // discover_papers

  /** `query or (config.queries[0] if config.queries else "LLM benchmark evaluation")`. */
  function ChooseQuery(query: Option<string>, config: PipelineConfig): (q: string)
    ensures q != "" || (config.queries != [] && config.queries[0] == "")
  {
    if query.Some? && query.value != "" then query.value
    else if config.queries != [] then config.queries[0]
    else "LLM benchmark evaluation"
  }

  /** `max_results or config.default_max_results`. */
  function ChooseMaxResults(maxResults: Option<int>, config: PipelineConfig): (n: int)
    ensures n != 0 || config.defaultMaxResults == 0
  {
    if maxResults.Some? && maxResults.value != 0 then maxResults.value else config.defaultMaxResults
  }

  /** The fallbacks: an explicit query or limit wins; otherwise the configured one, then the built-in query. */
  lemma FallbacksSpec(query: Option<string>, maxResults: Option<int>, config: PipelineConfig)
    ensures (query.None? || query.value == "") && config.queries == [] ==>
      ChooseQuery(query, config) == "LLM benchmark evaluation"
    ensures (query.None? || query.value == "") && config.queries != [] ==>
      ChooseQuery(query, config) == config.queries[0]
    ensures query.Some? && query.value != "" ==> ChooseQuery(query, config) == query.value
    ensures ChooseMaxResults(maxResults, config) ==
      if maxResults.Some? && maxResults.value != 0 then maxResults.value else config.defaultMaxResults
  {
  }

  /** What `discover_papers` returns: search, enrich, filter. */
  function Discovered(config: PipelineConfig, query: Option<string>, maxResults: Option<int>,
                      client: (string, int) -> seq<ArxivResult>, s2: (string, nat) -> S2Reply): seq<Paper>
  {
    var found := Converted(client(FullQuery(ChooseQuery(query, config), config.defaultCategories),
                                  ChooseMaxResults(maxResults, config)));
    Filter(EnrichAll(found, s2), Keep(config.minCitations))
  }

  /** `discover_papers`; the enrichment loop replaces each paper in place. */
  method DiscoverPapers(config: PipelineConfig, query: Option<string>, maxResults: Option<int>,
                        client: (string, int) -> seq<ArxivResult>, s2: (string, nat) -> S2Reply)
    returns (papers: seq<Paper>)
    ensures papers == Discovered(config, query, maxResults, client, s2)
  {
    var q := ChooseQuery(query, config);
    var n := ChooseMaxResults(maxResults, config);
    papers := SearchArxiv(q, n, config.defaultCategories, client);
    ghost var found := papers;
    var i := 0;
    while i < |papers|
      invariant 0 <= i <= |papers| == |found|
      invariant forall j :: 0 <= j < i ==> papers[j] == Enriched(found[j], s2)
      invariant forall j :: i <= j < |papers| ==> papers[j] == found[j]
    {
      papers := papers[i := Enriched(papers[i], s2)];
      i := i + 1;
    }
    assert papers == EnrichAll(found, s2);
    papers := FilterCandidates(papers, config.minCitations);
  }

  /**
   * Every discovered paper has a version-less arXiv id with URLs built from it,
   * mentions a keyword and clears any known citation threshold; enrichment
   * changes citation data only, so discovery never invents or renames a paper.
   */
  lemma DiscoveredSpec(config: PipelineConfig, query: Option<string>, maxResults: Option<int>,
                       client: (string, int) -> seq<ArxivResult>, s2: (string, nat) -> S2Reply)
    ensures forall p :: p in Discovered(config, query, maxResults, client, s2) ==>
      WellFormed(p) && MentionsBenchmark(p) && !TooFewCitations(p, config.minCitations)
    ensures |Discovered(config, query, maxResults, client, s2)| <=
      |client(FullQuery(ChooseQuery(query, config), config.defaultCategories), ChooseMaxResults(maxResults, config))|
  {
    var results := client(FullQuery(ChooseQuery(query, config), config.defaultCategories),
                          ChooseMaxResults(maxResults, config));
    var found := Converted(results);
    var enriched := EnrichAll(found, s2);
    ConvertedPapers(results);
    forall p | p in Discovered(config, query, maxResults, client, s2)
      ensures WellFormed(p) && MentionsBenchmark(p) && !TooFewCitations(p, config.minCitations)
    {
      FilterMembership(enriched, Keep(config.minCitations), p);
      var k :| 0 <= k < |enriched| && enriched[k] == p;
      assert found[k] in found;
    }
  }
}
