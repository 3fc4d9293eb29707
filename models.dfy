/** The records of the pipeline and their defaults. Timestamps are opaque strings supplied by the caller. */
module Models {
  import opened Wrappers

  /** The pipeline stage of a tracked paper (`PaperStatus`). */
  datatype Stage =
    | Discovered
    | Downloading
    | Downloaded
    | Analyzing
    | Analyzed
    | InsufficientData
    | Converting
    | ReadyForReview
    | Approved
    | PrCreated
    | Uploaded
    | Denied
    | Skipped

  /** The value each stage is stored and reported under. */
  function StageName(s: Stage): string {
    match s
    case Discovered => "discovered"
    case Downloading => "downloading"
    case Downloaded => "downloaded"
    case Analyzing => "analyzing"
    case Analyzed => "analyzed"
    case InsufficientData => "insufficient_data"
    case Converting => "converting"
    case ReadyForReview => "ready_for_review"
    case Approved => "approved"
    case PrCreated => "pr_created"
    case Uploaded => "uploaded"
    case Denied => "denied"
    case Skipped => "skipped"
  }

  /** The stages in declaration order. */
  function AllStages(): seq<Stage> {
    [Discovered, Downloading, Downloaded, Analyzing, Analyzed, InsufficientData, Converting,
     ReadyForReview, Approved, PrCreated, Uploaded, Denied, Skipped]
  }

  function StageIndex(s: Stage): nat {
    match s
    case Discovered => 0
    case Downloading => 1
    case Downloaded => 2
    case Analyzing => 3
    case Analyzed => 4
    case InsufficientData => 5
    case Converting => 6
    case ReadyForReview => 7
    case Approved => 8
    case PrCreated => 9
    case Uploaded => 10
    case Denied => 11
    case Skipped => 12
  }

  /** There are exactly thirteen stages, listed once each, under thirteen distinct names. */
  lemma ThirteenStages()
    ensures |AllStages()| == 13
    ensures forall s: Stage :: s in AllStages()
    ensures forall i, j :: 0 <= i < j < 13 ==> AllStages()[i] != AllStages()[j]
    ensures forall s, t :: StageName(s) == StageName(t) ==> s == t
  {
    forall s: Stage ensures s in AllStages() {
      assert AllStages()[StageIndex(s)] == s;
    }
  }

  /** A paper as returned by discovery (`Paper`); `summary` is its abstract. */
  datatype Paper = Paper(
    paperId: string,
    title: string,
    authors: seq<string>,
    summary: string,
    arxivUrl: string,
    pdfUrl: string,
    categories: seq<string>,
    published: Option<string>,
    doi: Option<string>,
    citationCount: Option<int>,
    influentialCitationCount: Option<int>,
    tldr: Option<string>)

  /** A tracked paper (`TrackingEntry`). */
  datatype Entry = Entry(
    paperId: string,
    title: string,
    authors: seq<string>,
    arxivUrl: string,
    pdfUrl: string,
    doi: Option<string>,
    categories: seq<string>,
    abstractSnippet: string,
    citationCount: Option<int>,
    influentialCitationCount: Option<int>,
    status: Stage,
    reason: string,
    analysisPath: Option<string>,
    blueprintFilename: Option<string>,
    blueprintPath: Option<string>,
    prUrl: Option<string>,
    discoveryDate: string,
    lastUpdated: string,
    promptCount: Option<int>,
    hasExplicitRubric: Option<bool>)

  /** A `TrackingEntry` built from its required fields; every other field takes its default. */
  function DefaultEntry(paperId: string, title: string, arxivUrl: string, now: string): (e: Entry)
    ensures e.paperId == paperId && e.title == title && e.arxivUrl == arxivUrl
    ensures e.status == Discovered && e.reason == ""
    ensures e.analysisPath == None && e.blueprintFilename == None
    ensures e.blueprintPath == None && e.prUrl == None
    ensures e.discoveryDate == now && e.lastUpdated == now
  {
    Entry(paperId, title, [], arxivUrl, "", None, [], "", None, None,
          Discovered, "", None, None, None, None, now, now, None, None)
  }

  /** The stored file (`TrackingDatabase`). */
  datatype TrackingDatabase = TrackingDatabase(version: int, lastUpdated: string, papers: seq<Entry>)

  function EmptyDatabase(now: string): (db: TrackingDatabase)
    ensures db.version == 1 && db.papers == [] && db.lastUpdated == now
  {
    TrackingDatabase(1, now, [])
  }

  /** The sufficiency verdict (`SufficiencyResult`); the float `confidence` is not modelled. */
  datatype SufficiencyResult = SufficiencyResult(
    isSufficient: bool,
    hasExplicitPrompts: bool,
    hasScoringCriteria: bool,
    hasMetrics: bool,
    hasGoldAnswers: bool,
    benchmarkName: Option<string>,
    reason: string)

  /** One evaluation prompt found in a paper (`ExtractedPrompt`). */
  datatype ExtractedPrompt = ExtractedPrompt(
    id: string,
    promptText: string,
    systemPrompt: Option<string>,
    idealResponse: Option<string>,
    scoringCriteria: seq<string>,
    category: Option<string>,
    sourceSection: Option<string>)

  /** An `ExtractedPrompt` given only its required `prompt_text`. */
  function DefaultPrompt(promptText: string): (p: ExtractedPrompt)
    ensures p.promptText == promptText && p.id == "" && p.scoringCriteria == []
    ensures p.systemPrompt == None && p.idealResponse == None && p.category == None
  {
    ExtractedPrompt("", promptText, None, None, [], None, None)
  }

  /** The analysis of a paper's evaluation method (`PaperAnalysis`). */
  datatype PaperAnalysis = PaperAnalysis(
    paperId: string,
    benchmarkName: string,
    description: string,
    evaluationType: string,
    metrics: seq<string>,
    prompts: seq<ExtractedPrompt>,
    systemPrompt: Option<string>,
    scoringMethodology: string,
    sufficiency: SufficiencyResult,
    tags: seq<string>)

  /** The settings the modelled logic reads (`PipelineConfig`); the float temperature is not modelled. */
  datatype PipelineConfig = PipelineConfig(
    defaultMaxResults: int,
    defaultCategories: seq<string>,
    minCitations: int,
    queries: seq<string>,
    retryMaxAttempts: int,
    retryBaseDelaySeconds: int,
    analysesDir: string,
    outputDir: string,
    defaultModels: seq<string>,
    defaultTags: seq<string>)

  function DefaultConfig(): (c: PipelineConfig)
    ensures c.defaultMaxResults == 50 && c.minCitations == 5 && c.queries == []
    ensures c.defaultCategories == ["cs.CL", "cs.AI", "cs.LG"]
    ensures c.retryMaxAttempts == 5 && c.retryBaseDelaySeconds == 2
    ensures c.defaultModels == ["CORE"]
    ensures c.defaultTags == ["benchmark", "automated-extraction"]
  {
    PipelineConfig(50, ["cs.CL", "cs.AI", "cs.LG"], 5, [], 5, 2,
                   "data/analyses", "output/blueprints",
                   ["CORE"], ["benchmark", "automated-extraction"])
  }
}
