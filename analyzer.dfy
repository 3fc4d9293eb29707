/**
 * Paper analysis (`lib/analyzer.py`): how `analyze_paper` turns the
 * sufficiency verdict and the extracted methodology into a `PaperAnalysis`,
 * and the file name under which an analysis is saved and loaded. The two
 * Gemini passes are inputs; the directory of saved analyses is a map from
 * file name to analysis.
 */
module Analyzer {
  import opened Wrappers
  import opened Text
  import opened Models

  /**
   * One prompt object of the extracted methodology. A field is None when
   * its key is absent (or, for the optional fields, null).
   */
  datatype RawPrompt = RawPrompt(
    id: Option<string>,
    promptText: Option<string>,
    systemPrompt: Option<string>,
    idealResponse: Option<string>,
    scoringCriteria: Option<seq<string>>,
    category: Option<string>,
    sourceSection: Option<string>)

  /** The extracted methodology object, with the same reading of None. */
  datatype Methodology = Methodology(
    prompts: Option<seq<RawPrompt>>,
    benchmarkName: Option<string>,
    description: Option<string>,
    evaluationType: Option<string>,
    metrics: Option<seq<string>>,
    systemPrompt: Option<string>,
    scoringMethodology: Option<string>,
    tags: Option<seq<string>>)

  function GetOr<T>(o: Option<T>, default: T): T {
    if o.Some? then o.value else default
  }

  /** An `ExtractedPrompt` from one prompt object, each absent key taking its default. */
  function PromptOf(p: RawPrompt): (e: ExtractedPrompt)
    ensures e.id == (if p.id.Some? then p.id.value else "")
    ensures e.promptText == (if p.promptText.Some? then p.promptText.value else "")
    ensures e.scoringCriteria == (if p.scoringCriteria.Some? then p.scoringCriteria.value else [])
    ensures e.systemPrompt == p.systemPrompt && e.idealResponse == p.idealResponse
    ensures e.category == p.category && e.sourceSection == p.sourceSection
  {
    ExtractedPrompt(GetOr(p.id, ""), GetOr(p.promptText, ""), p.systemPrompt, p.idealResponse,
                    GetOr(p.scoringCriteria, []), p.category, p.sourceSection)
  }

  /** The prompts of the methodology, converted one by one in order. */
  function PromptsOf(raw: seq<RawPrompt>): (ps: seq<ExtractedPrompt>)
    ensures |ps| == |raw|
  {
    if raw == [] then [] else PromptsOf(raw[..|raw| - 1]) + [PromptOf(raw[|raw| - 1])]
  }

  /** The analysis of an insufficient paper: only the id, the name and the verdict. */
  function InsufficientAnalysis(paperId: string, sufficiency: SufficiencyResult): PaperAnalysis {
    PaperAnalysis(paperId, GetOr(sufficiency.benchmarkName, ""), "", "", [], [], None, "", sufficiency, [])
  }

  /** What `analyze_paper` returns for the given verdict and methodology. */
  function Analysis(paperId: string, sufficiency: SufficiencyResult, m: Methodology): PaperAnalysis {
    if !sufficiency.isSufficient then InsufficientAnalysis(paperId, sufficiency)
    else
      PaperAnalysis(paperId, GetOr(m.benchmarkName, ""), GetOr(m.description, ""),
                    GetOr(m.evaluationType, ""), GetOr(m.metrics, []),
                    PromptsOf(GetOr(m.prompts, [])), m.systemPrompt,
                    GetOr(m.scoringMethodology, ""), sufficiency, GetOr(m.tags, []))
  }

  lemma PromptsStep(raw: seq<RawPrompt>, i: nat)
    requires i < |raw|
    ensures PromptsOf(raw[..i + 1]) == PromptsOf(raw[..i]) + [PromptOf(raw[i])]
  {
    assert raw[..i + 1][..i] == raw[..i];
  }

  /**
   * `analyze_paper`: `extracted` tells whether the methodology pass was
   * asked for, which happens exactly when the paper is sufficient.
   */
  method AnalyzePaper(paperId: string, sufficiency: SufficiencyResult, methodology: Methodology)
    returns (analysis: PaperAnalysis, extracted: bool)
    ensures analysis == Analysis(paperId, sufficiency, methodology)
    ensures extracted == sufficiency.isSufficient
  {
    if !sufficiency.isSufficient {
      var name := if sufficiency.benchmarkName.Some? then sufficiency.benchmarkName.value else "";
      return PaperAnalysis(paperId, name, "", "", [], [], None, "", sufficiency, []), false;
    }
    var raw := if methodology.prompts.Some? then methodology.prompts.value else [];
    var prompts: seq<ExtractedPrompt> := [];
    var i := 0;
    while i < |raw|
      invariant 0 <= i <= |raw|
      invariant prompts == PromptsOf(raw[..i])
    {
      PromptsStep(raw, i);
      prompts := prompts + [PromptOf(raw[i])];
      i := i + 1;
    }
    assert raw[..i] == raw;
    analysis := PaperAnalysis(
      paperId,
      GetOr(methodology.benchmarkName, ""),
      GetOr(methodology.description, ""),
      GetOr(methodology.evaluationType, ""),
      GetOr(methodology.metrics, []),
      prompts,
      methodology.systemPrompt,
      GetOr(methodology.scoringMethodology, ""),
      sufficiency,
      GetOr(methodology.tags, []));
    extracted := true;
  }

  /** The i-th extracted prompt comes from the i-th prompt object. */
  lemma {:induction false} PromptsOfAt(raw: seq<RawPrompt>, i: nat)
    requires i < |raw|
    ensures PromptsOf(raw)[i] == PromptOf(raw[i])
  {
    if i < |raw| - 1 {
      PromptsOfAt(raw[..|raw| - 1], i);
    }
  }

  /**
   * An insufficient paper gets an analysis with no prompts and every
   * methodology field at its default; the name falls back to "".
   */
  lemma InsufficientSpec(paperId: string, sufficiency: SufficiencyResult, m: Methodology)
    requires !sufficiency.isSufficient
    ensures var a := Analysis(paperId, sufficiency, m);
      a.paperId == paperId && a.sufficiency == sufficiency && a.prompts == [] &&
      a.benchmarkName == (if sufficiency.benchmarkName.Some? then sufficiency.benchmarkName.value else "") &&
      a.description == "" && a.evaluationType == "" && a.metrics == [] && a.systemPrompt == None &&
      a.scoringMethodology == "" && a.tags == []
    ensures forall m' :: Analysis(paperId, sufficiency, m') == Analysis(paperId, sufficiency, m)
  {
  }

  /**
   * A sufficient paper gets one prompt per prompt object, in order; absent
   * top-level fields take "" or [], and the verdict is carried unchanged.
   */
  lemma SufficientSpec(paperId: string, sufficiency: SufficiencyResult, m: Methodology)
    requires sufficiency.isSufficient
    ensures var a := Analysis(paperId, sufficiency, m);
      var raw := if m.prompts.Some? then m.prompts.value else [];
      a.paperId == paperId && a.sufficiency == sufficiency &&
      |a.prompts| == |raw| && (forall i :: 0 <= i < |raw| ==> a.prompts[i] == PromptOf(raw[i])) &&
      a.benchmarkName == (if m.benchmarkName.Some? then m.benchmarkName.value else "") &&
      a.description == (if m.description.Some? then m.description.value else "") &&
      a.evaluationType == (if m.evaluationType.Some? then m.evaluationType.value else "") &&
      a.metrics == (if m.metrics.Some? then m.metrics.value else []) &&
      a.scoringMethodology == (if m.scoringMethodology.Some? then m.scoringMethodology.value else "") &&
      a.tags == (if m.tags.Some? then m.tags.value else []) &&
      a.systemPrompt == m.systemPrompt
  {
    var raw := if m.prompts.Some? then m.prompts.value else [];
    forall i | 0 <= i < |raw|
      ensures Analysis(paperId, sufficiency, m).prompts[i] == PromptOf(raw[i])
    {
      PromptsOfAt(raw, i);
    }
  }

  // ---------------------------------------------------------------------------
  // Saved analyses

  /** `f"{paper_id.replace('/', '_')}.json"`. */
  function AnalysisFilename(paperId: string): (f: string)
    ensures EndsWith(f, ".json") && |f| == |paperId| + 5
    ensures forall i :: 0 <= i < |paperId| ==> f[i] == if paperId[i] == '/' then '_' else paperId[i]
  {
    ReplaceChar(paperId, '/', '_') + ".json"
  }

  /** The directory of saved analyses, by file name. */
  type AnalysisStore = map<string, PaperAnalysis>

  function SaveAnalysis(store: AnalysisStore, a: PaperAnalysis): AnalysisStore {
    store[AnalysisFilename(a.paperId) := a]
  }

  /** The analysis saved under the id's file name, or None when there is no such file. */
  function LoadAnalysis(store: AnalysisStore, paperId: string): Option<PaperAnalysis> {
    var f := AnalysisFilename(paperId);
    if f in store then Some(store[f]) else None
  }

  /** Save and load agree on the file: what was saved for an id is what loads for it. */
  lemma SaveThenLoad(store: AnalysisStore, a: PaperAnalysis)
    ensures LoadAnalysis(SaveAnalysis(store, a), a.paperId) == Some(a)
  {
  }

  /** Ids without '_' get distinct file names, so saving one never hides another. */
  lemma FilenameInjective(x: string, y: string)
    requires '_' !in x && '_' !in y
    requires AnalysisFilename(x) == AnalysisFilename(y)
    ensures x == y
  {
    assert |x| == |y|;
    forall i | 0 <= i < |x| ensures x[i] == y[i] {
      assert AnalysisFilename(x)[i] == AnalysisFilename(y)[i];
      assert x[i] != '_' && y[i] != '_';
    }
  }

  /** Saving one paper's analysis leaves every other '_'-free id's load unchanged. */
  lemma SaveKeepsOthers(store: AnalysisStore, a: PaperAnalysis, other: string)
    requires '_' !in a.paperId && '_' !in other && other != a.paperId
    ensures LoadAnalysis(SaveAnalysis(store, a), other) == LoadAnalysis(store, other)
  {
    if AnalysisFilename(other) == AnalysisFilename(a.paperId) {
      FilenameInjective(other, a.paperId);
    }
  }

  /** An old-style id and its '_' spelling share a file: "hep-ph/9905221" and "hep-ph_9905221". */
  lemma SlashAndUnderscoreCollide()
    ensures AnalysisFilename("hep-ph/9905221") == AnalysisFilename("hep-ph_9905221")
  {
  }
}
