# Benchmark pipeline: a verified model of its stage logic

`scripts/benchmark-pipeline` turns research papers into Weval Blueprints. It finds candidate papers on arXiv and downloads their PDFs. Gemini then judges whether a paper describes a usable evaluation and, if so, extracts its prompts and scoring criteria. Those become a Blueprint YAML file, which is validated and finally submitted as a pull request. A YAML tracking file records every paper's stage.

This project models the ordinary logic around the network, filesystem and LLM calls, and proves properties of it:

- **Validators** (`validators.dfy`): `validate_blueprint_yaml` over already-parsed YAML blocks.
  - It detects the four layouts and checks each item's content and rubric keys.
  - The result is an ordered list of defects, rendered to the exact source messages.
  - A parse failure is an input variant.
- **Tracking** (`tracker.dfy`): the class `Tracker` over a `seq<Entry>`, with the invariant that each paper id occurs at most once.
  - It has lookup, add-if-absent, status update with keyword-field merge, filtering by stage and per-stage counts.
  - `get_all_papers` is the field `papers` itself.
- **BlueprintGenerator** (`generator.dfy`): the deterministic generator and its helpers.
  - The helpers are the header, the items, the `should` items, the tag list, the description, the file name and the `.yml` suffix rule.
  - Its main theorem is that the generated blocks always validate with no defect.
- **Utils** (`utils.dfy`): `slugify`, `truncate`, `format_authors_short` / `_last_name` and the arXiv URL builders, over ASCII.
- **Discovery** (`discovery.py`'s logic, `discovery.dfy`):
  - `_extract_arxiv_id` (both regular expressions written out by hand);
  - the category query string;
  - the conversion of search results;
  - Semantic Scholar enrichment, with the HTTP exchange as an oracle;
  - `filter_candidates`;
  - the fallbacks of `discover_papers`.
- **Gemini** (`gemini.dfy`): the retry/classification loop of `_call_with_retry`, with the SDK call as an oracle indexed by attempt, and `parse_json_response`'s fence stripping.
- **Analyzer** (`analyzer.dfy`):
  - the insufficient and sufficient branches of `analyze_paper`, including record defaulting, with the two Gemini passes as inputs;
  - the analysis file name shared by `save_analysis` and `load_analysis`, with the analyses directory as a map from file name to analysis.
- **Models** (`models.dfy`): `PaperStatus` (13 stages), `Paper`, `TrackingEntry`, `TrackingDatabase`, `SufficiencyResult`, `ExtractedPrompt`, `PaperAnalysis` and `PipelineConfig`, with their defaults.
- **Pipeline** (`pipeline.dfy`): the drivers `cmd_discover`, `cmd_download`, `cmd_analyze`, `cmd_generate`, `cmd_retry`, `cmd_submit` and `cmd_run`.
  - Each is a method that loops over the selected entries and calls `Tracker.UpdateStatus`.
  - External outcomes are function parameters: download success, PDF present, the analysis or the exception raised, Gemini's text or exception, the YAML parser, Blueprint file present, and the PR URL.
  - Each driver is proved against a specification function `Run`, which folds the entry's list of status updates over the store. Lemmas then say what the run leaves in every entry.
- **Stages** (`stages.dfy`): the stage transitions scattered across those `update_status` calls, gathered into an explicit relation `Move(command, from, to)`.
  - It includes the rollback targets and the reset map of `cmd_retry`.
  - Each driver's updates are proved to be a path in that relation.

Supporting modules:
- `Text`: string helpers such as strip, split/join, lower-case and fence stripping.
- `Seqs`: filter, count and subsequence.
- `Values`: the JSON/YAML value datatype.
- `Wrappers`: `Option` and `Result`.

Quirks of the code are kept as written:
- There are six rubric keys.
- The header+list layout ignores any further blocks.
- A `--paper-id` selection bypasses the stage filter, and in `cmd_retry` it selects the entry at whatever stage it is.
- An analysis file name maps '/' to '_', so `hep-ph/9905221` and `hep-ph_9905221` share a file (`Analyzer.SlashAndUnderscoreCollide`).
- The validator's "at least one prompt or config header" defect can never be reported, because dropping the falsy blocks first leaves either a non-empty header or a non-empty list (`Validators.NoContentUnreachable`).

## Model

| member | source | states |
|---|---|---|
| Models.ThirteenStages | scripts/benchmark-pipeline/lib/models.py:12-25 | There are exactly 13 stages, all distinct, and their stored names are pairwise distinct. |
| Models.DefaultEntry | scripts/benchmark-pipeline/lib/models.py:45-76 | A new tracking entry starts DISCOVERED with an empty reason, with no analysis path, Blueprint file name, Blueprint path or PR URL, and with both timestamps set to the creation time. |
| Models.EmptyDatabase | scripts/benchmark-pipeline/lib/models.py:79-86 | A new tracking database has version 1 and no papers. |
| Models.DefaultPrompt | scripts/benchmark-pipeline/lib/models.py:102-111 | An extracted prompt needs only its text; its id defaults to "", its criteria to [] and its optional fields to absent. |
| Models.DefaultConfig | scripts/benchmark-pipeline/lib/models.py:129-165 | The configuration defaults: 50 results, 5 citations, categories cs.CL/cs.AI/cs.LG, 5 retries with base delay 2, models ["CORE"], tags ["benchmark", "automated-extraction"]. |
| Stages.ResetTarget | scripts/benchmark-pipeline/pipeline.py:537-542 | The retry reset stage is always DISCOVERED, DOWNLOADED or ANALYZED. |
| Stages.ResetOnMainLine | scripts/benchmark-pipeline/pipeline.py:537-545 | The reset stage is on the main line at or before ANALYZED. It is DISCOVERED when no stage is named, and it differs from DISCOVERED only for "analyze" or "generate". |
| Stages.RollbackTargets | scripts/benchmark-pipeline/pipeline.py:282-290 | Exactly the transient stages DOWNLOADING, ANALYZING and CONVERTING have a rollback, and none rolls back to DISCOVERED. ANALYZING rolls back to DOWNLOADED here, DOWNLOADING to SKIPPED (lines 191-195) and CONVERTING to ANALYZED (lines 377-381, 402-406). Each rollback is a move of its own command and lands on a stage a command selects. |
| Stages.MoveKinds | scripts/benchmark-pipeline/pipeline.py:223-290 | Every move a command makes is one step forward on the main line, the stage's rollback, a move to SKIPPED or INSUFFICIENT_DATA, or a retry reset out of those two. |
| Stages.NoCommandReviews | scripts/benchmark-pipeline/pipeline.py:551-590 | No command moves an entry into APPROVED, UPLOADED or DENIED; those stages are set by review outside the pipeline. |
| Stages.MovesStartAtInputs | scripts/benchmark-pipeline/pipeline.py:158-162 | Every move starts at a stage the command selects, or at a transient stage the same command entered; from a transient stage the command always has a way out. |
| Utils.Hyphenate | scripts/benchmark-pipeline/lib/utils.py:13 | The a-z0-9 characters of the result are exactly those of the input, in order. Its hyphens number exactly the maximal runs of other characters in the input, counted by an independent scan. The result has only slug characters and no doubled hyphen, starts with the input's first alphanumeric or with '-' when the input starts with a run, and is empty exactly for empty input. |
| Utils.HyphenateSplitsAtAlnum | scripts/benchmark-pipeline/lib/utils.py:13 | The substitution works locally: splitting the input right after any a-z0-9 character splits the result there too, so each run of other characters becomes its hyphen exactly where it stood. With Hyphenate's head cases this fixes the whole result. |
| Utils.SlugifyIsSlug | scripts/benchmark-pipeline/lib/utils.py:7-19 | A slug contains only a-z, 0-9 and '-', never starts or ends with '-', never has "--", and is at most max_length long. |
| Utils.SlugifyCutsAtHyphen | scripts/benchmark-pipeline/lib/utils.py:17-18 | An over-long slug is cut at the last '-' within its first max_length characters, or kept at exactly max_length characters when there is no hyphen there. |
| Utils.SlugifyIdempotent | scripts/benchmark-pipeline/lib/utils.py:7-19 | Slugifying a slug again with the same limit changes nothing. |
| Utils.SlugifyOfSlug | scripts/benchmark-pipeline/lib/utils.py:7-19 | A slug that fits the limit is its own slug. |
| Utils.DropOneArticle | scripts/benchmark-pipeline/lib/utils.py:11 | One leading "a", "an" or "the" and the whitespace after it are removed, and nothing more. |
| Utils.Truncate | scripts/benchmark-pipeline/lib/utils.py:40-44 | Text within the limit is returned unchanged. Longer text becomes its first max_length-3 characters plus "...", exactly max_length long (for max_length >= 3). |
| Utils.LastNameIsLastToken | scripts/benchmark-pipeline/lib/utils.py:58-61 | The last name is the last whitespace-separated token of the trimmed name; a name with no token comes back unchanged. |
| Utils.FormatAuthorsShort | scripts/benchmark-pipeline/lib/utils.py:47-55 | No authors gives "Unknown" and one author gives the last name. Two authors give "A & B" and three or more give "A et al.", where A and B are the last names. |
| Utils.FormatArxivUrl | scripts/benchmark-pipeline/lib/utils.py:22-26 | The abs URL is "https://arxiv.org/abs/" followed by the id itself when the id has no version suffix, and by the id up to its final "v"+digits otherwise. |
| Utils.FormatArxivPdfUrl | scripts/benchmark-pipeline/lib/utils.py:29-32 | The PDF URL is "https://arxiv.org/pdf/" followed by the id itself when the id has no version suffix, and by the id up to its final "v"+digits otherwise. |
| Utils.VersionSuffixRule | scripts/benchmark-pipeline/lib/utils.py:25 | Stripping the version changes an id exactly when it ends in "v" followed by one or more digits, and then it removes exactly that suffix. |
| Utils.StripVersionOf | scripts/benchmark-pipeline/lib/utils.py:25 | The version rule removes exactly one trailing "v" followed by digits. |
| Utils.ArxivUrlsDropVersion | scripts/benchmark-pipeline/lib/utils.py:22-32 | For an id with a version suffix, both URLs are the fixed base followed by the version-less id. |
| Text.StripCodeFences | scripts/benchmark-pipeline/lib/blueprint_generator.py:51-59 | Trimmed text that does not start with ``` is returned trimmed and otherwise unchanged. |
| Text.FencedRoundTrip | scripts/benchmark-pipeline/lib/blueprint_generator.py:51-59 | A body wrapped in an opening fence line (with any language tag) and a closing fence line comes back exactly. |
| Text.JoinSplit | scripts/benchmark-pipeline/lib/blueprint_generator.py:54-59 | Joining the lines split at a separator with that separator gives back the text, so the fence rule only ever drops whole lines. |
| Text.SplitAround | scripts/benchmark-pipeline/lib/blueprint_generator.py:54 | Splitting at a separator splits the parts on either side of one occurrence independently. |
| Validators.ValidateBlueprintYaml | scripts/benchmark-pipeline/lib/validators.py:13-112 | The method's defect list is, message for message, the specification `Validate` (layout detection followed by item checks). |
| Validators.CheckPrompts | scripts/benchmark-pipeline/lib/validators.py:72-110 | The prompt-list check gives the "no valid list" defect for a non-list, and otherwise the item defects in item order. |
| Validators.CheckItem | scripts/benchmark-pipeline/lib/validators.py:78-110 | The per-item check gives exactly the item's specified defects. |
| Validators.CheckRubrics | scripts/benchmark-pipeline/lib/validators.py:97-110 | The rubric loop gives one defect per rubric key in key order. |
| Validators.ParseErrorIsOneDefect | scripts/benchmark-pipeline/lib/validators.py:17-20 | A parse failure yields exactly one "Invalid YAML: …" defect. |
| Validators.EmptyIffNoTruthyBlock | scripts/benchmark-pipeline/lib/validators.py:22-26 | The result is exactly ["YAML file is empty."] if and only if every parsed block is falsy. |
| Validators.HeaderThenListIgnoresRest | scripts/benchmark-pipeline/lib/validators.py:33-36 | A mapping followed by a list makes the first the header and the second the items; any later blocks are ignored. |
| Validators.PromptsKeyNotListDefects | scripts/benchmark-pipeline/lib/validators.py:37-42 | A single mapping whose `prompts` value is not a list yields exactly the "'prompts' key must contain a list" and "Could not identify a valid list" defects, in that order. |
| Validators.MappingStream | scripts/benchmark-pipeline/lib/validators.py:46-67 | In a stream of mappings, the first is the header if and only if it has a header key and no prompt key; otherwise every block is an item. |
| Validators.UnrecognizedLayout | scripts/benchmark-pipeline/lib/validators.py:68-70 | Blocks in none of the four layouts yield exactly ["Invalid YAML structure."] with no item checks. |
| Validators.NoContentUnreachable | scripts/benchmark-pipeline/lib/validators.py:75-76 | The "at least one prompt or config header" defect is never produced. |
| Validators.ItemDefectsSpec | scripts/benchmark-pipeline/lib/validators.py:78-95 | A non-mapping item yields exactly one "not a valid object" defect. A mapping yields a content defect if and only if it lacks both a string prompt/promptText and a list `messages`, and that defect comes first. It yields a rubric defect for a key exactly when the key is a rubric key present with a non-list value. Every defect names the item by id or "index-i". |
| Validators.RubricMembership | scripts/benchmark-pipeline/lib/validators.py:97-110 | A rubric defect is reported for a key if and only if it is one of the checked keys, present, and not a list. |
| Validators.ItemDefectsInOrder | scripts/benchmark-pipeline/lib/validators.py:78-110 | The defects of the first n items are a prefix of the defects of all items: defects come in item order. |
| Tracking.Tracker.Open | scripts/benchmark-pipeline/lib/tracker.py:19-38 | A missing or empty tracking file gives an empty version-1 store; otherwise the stored papers are loaded as they are. The invariant holds when stored ids are unique. |
| Tracking.Tracker.GetEntry | scripts/benchmark-pipeline/lib/tracker.py:59-64 | The search loop returns the first entry with the id, or None. |
| Tracking.Tracker.HasPaper | scripts/benchmark-pipeline/lib/tracker.py:66-68 | True exactly when some entry has the id. |
| Tracking.Tracker.AddPaper | scripts/benchmark-pipeline/lib/tracker.py:70-92 | A tracked id leaves the store unchanged and returns the existing entry. A new id appends one DISCOVERED entry and returns it. Ids stay unique. |
| Tracking.Tracker.UpdateStatus | scripts/benchmark-pipeline/lib/tracker.py:94-112 | An unknown id returns None and changes nothing. Otherwise only that entry changes: new stage, new timestamp, and the known keyword fields assigned. Ids stay unique. |
| Tracking.Tracker.GetStatusSummary | scripts/benchmark-pipeline/lib/tracker.py:122-128 | The summary has a key for a stage exactly when some entry is at it, its count is the number of such entries, and it has no other keys. |
| Tracking.IndexOf | scripts/benchmark-pipeline/lib/tracker.py:59-64 | The index found is the first entry carrying the id, or -1 when none does. |
| Tracking.Lookup | scripts/benchmark-pipeline/lib/tracker.py:59-64 | An entry is found exactly when one with that id exists, and what is found is a stored entry with that id. |
| Tracking.LookupIsFirstMatch | scripts/benchmark-pipeline/lib/tracker.py:61-63 | The entry found is the first one with that id. |
| Tracking.NewEntry | scripts/benchmark-pipeline/lib/tracker.py:76-88 | A new entry copies the paper's id, title, authors, both URLs, DOI, categories and both citation counts. Its abstract snippet is the abstract truncated to 200 characters. It starts DISCOVERED with an empty reason, no analysis path, Blueprint file name, Blueprint path, PR URL, prompt count or rubric flag, and both timestamps set to now. |
| Tracking.AddedEntryFound | scripts/benchmark-pipeline/lib/tracker.py:76-92 | After appending a new paper, looking up its id finds the new entry. |
| Tracking.WithPaperKeepsUnique | scripts/benchmark-pipeline/lib/tracker.py:70-92 | Adding a paper keeps ids unique. A tracked id leaves the list unchanged; a new one appends exactly one DISCOVERED entry after the old ones. |
| Tracking.WithPaperIdempotent | scripts/benchmark-pipeline/lib/tracker.py:70-74 | Adding the same paper twice is the same as adding it once. |
| Tracking.StatusUpdatedKeepsIds | scripts/benchmark-pipeline/lib/tracker.py:94-112 | A status update keeps the length, the order and every id, leaves other entries untouched, is a no-op for an unknown id and keeps ids unique. |
| Tracking.UpdatedKeepsIdentity | scripts/benchmark-pipeline/lib/tracker.py:103-108 | The updated entry has the new stage and timestamp and the same identity fields (id, title, authors, URLs, discovery date). |
| Tracking.ApplyKwargsKeepsIdentity | scripts/benchmark-pipeline/lib/tracker.py:106-108 | Assigning keyword fields never changes the identity fields, the stage or the timestamp. |
| Tracking.SetFieldEffect | scripts/benchmark-pipeline/lib/tracker.py:106-108 | An unknown name is ignored. A known name of the right type sets that field and leaves every other field as it was. |
| Tracking.UnnamedFieldKept | scripts/benchmark-pipeline/lib/tracker.py:106-108 | A field no keyword names keeps its value. |
| Tracking.LastKwargWins | scripts/benchmark-pipeline/lib/tracker.py:106-108 | When a field is named more than once, the last value assigned wins. |
| Tracking.PapersByStatusExact | scripts/benchmark-pipeline/lib/tracker.py:114-116 | Filtering by stage keeps exactly the entries at that stage, in stored order, and their number is the stage's count. |
| Tracking.CountsSumToTotal | scripts/benchmark-pipeline/lib/tracker.py:122-128 | The per-stage counts over all 13 stages add up to the number of entries. |
| BlueprintGenerator.ShouldItems | scripts/benchmark-pipeline/lib/blueprint_generator.py:195-213 | There is one `should` item per criterion, in order. |
| BlueprintGenerator.BuildShouldItems | scripts/benchmark-pipeline/lib/blueprint_generator.py:195-213 | The loop builds exactly the specified `should` items. |
| BlueprintGenerator.QuotedCheckCriterion | scripts/benchmark-pipeline/lib/blueprint_generator.py:204-209 | A criterion "P \"t\"" with P one of the four check prefixes becomes {"$icontains": t}: the text after the first colon, trimmed, without its quotes. |
| BlueprintGenerator.PlainCriterionKept | scripts/benchmark-pipeline/lib/blueprint_generator.py:210-212 | A criterion with none of the four prefixes passes through as a plain rubric string. |
| BlueprintGenerator.BuildTags | scripts/benchmark-pipeline/lib/blueprint_generator.py:185-192 | The loop builds exactly the specified tag list. |
| BlueprintGenerator.TagsSpec | scripts/benchmark-pipeline/lib/blueprint_generator.py:185-192 | The default tags are an unchanged prefix. Every non-empty 30-character slug of an analysis tag is present, and every later tag is such a slug. Without duplicates in the defaults there are none at all. |
| BlueprintGenerator.AddNewExtends | scripts/benchmark-pipeline/lib/blueprint_generator.py:188-191 | Adding slugs only appends to the existing tags. |
| BlueprintGenerator.AddNewComplete | scripts/benchmark-pipeline/lib/blueprint_generator.py:188-191 | Every non-empty candidate ends up in the tag list. |
| BlueprintGenerator.AddNewSound | scripts/benchmark-pipeline/lib/blueprint_generator.py:188-191 | Every appended tag is a non-empty candidate. |
| BlueprintGenerator.AddNewNoDuplicates | scripts/benchmark-pipeline/lib/blueprint_generator.py:188-191 | Appending only absent slugs introduces no duplicate. |
| BlueprintGenerator.DescriptionParts | scripts/benchmark-pipeline/lib/blueprint_generator.py:158-182 | The description starts with the analysis description, or "Evaluation based on: <title>" when it is empty, and its last part is the source link. |
| BlueprintGenerator.DescriptionShape | scripts/benchmark-pipeline/lib/blueprint_generator.py:158-182 | The joined description starts with that first part and ends with the "**Source:** [title](url)" line. |
| BlueprintGenerator.Items | scripts/benchmark-pipeline/lib/blueprint_generator.py:86-108 | There is one item per extracted prompt, in order. |
| BlueprintGenerator.BuildItem | scripts/benchmark-pipeline/lib/blueprint_generator.py:88-108 | The method builds exactly the specified item for a prompt. |
| BlueprintGenerator.BuildItems | scripts/benchmark-pipeline/lib/blueprint_generator.py:86-108 | The loop builds exactly the specified item list. |
| BlueprintGenerator.BuildHeader | scripts/benchmark-pipeline/lib/blueprint_generator.py:73-84 | The method builds exactly the specified header. |
| BlueprintGenerator.ItemShape | scripts/benchmark-pipeline/lib/blueprint_generator.py:89-106 | Every item has an id and `prompt` equal to the prompt text, and only the keys id/prompt/ideal/should/system/description. `should` is a non-empty list when present, and `system` appears only when it differs from the analysis-level system prompt. |
| BlueprintGenerator.HeaderShape | scripts/benchmark-pipeline/lib/blueprint_generator.py:74-84 | The header always has `title`, `tags` and `models` (both lists) and only header keys. |
| BlueprintGenerator.HeaderIsNoItem | scripts/benchmark-pipeline/lib/blueprint_generator.py:74-84 | The header has no `prompts` key and is recognised as a header (a header key and no item key). |
| BlueprintGenerator.GeneratedItemsValid | scripts/benchmark-pipeline/lib/blueprint_generator.py:86-108 | The generated items have no defect. |
| BlueprintGenerator.GeneratedBlueprintValid | scripts/benchmark-pipeline/lib/blueprint_generator.py:64-126 | The deterministic Blueprint (header block, then item list) validates with no defect, even when there are no prompts. |
| BlueprintGenerator.GenerateDeterministic | scripts/benchmark-pipeline/lib/blueprint_generator.py:64-126 | The generator returns the header and item blocks, and they validate with no defect. |
| BlueprintGenerator.SuffixRule | scripts/benchmark-pipeline/lib/blueprint_generator.py:138-139 | A written file name always ends in .yml or .yaml, and applying the rule twice changes nothing. |
| BlueprintGenerator.FilenameShape | scripts/benchmark-pipeline/lib/blueprint_generator.py:149-155 | The file name is a slug of at most 60 characters plus ".yml", so writing it adds no second suffix. |
| Discovery.CatParts | scripts/benchmark-pipeline/lib/discovery.py:29 | There is one "cat:" term per category, in order. |
| Discovery.FullQueryShape | scripts/benchmark-pipeline/lib/discovery.py:27-32 | No categories leave the query unchanged. Otherwise " AND (cat:first" follows the query and the string ends with "cat:last)". |
| Discovery.ExtractSound | scripts/benchmark-pipeline/lib/discovery.py:169-178 | Whatever is extracted is a new-style or old-style arXiv id that ends the entry URL, possibly followed by a version. |
| Discovery.ExtractNewStyle | scripts/benchmark-pipeline/lib/discovery.py:171-173 | A URL ending in a new-style id NNNN.NNNN(N) and an optional version yields that id without the version. |
| Discovery.ExtractOldStyle | scripts/benchmark-pipeline/lib/discovery.py:175-177 | A URL ending in an old-style id archive/NNNNNNN and an optional version yields that id without the version. |
| Discovery.IdHasNoVersion | scripts/benchmark-pipeline/lib/discovery.py:54-55 | An extracted id has no version suffix, so both URLs are the base plus the id. |
| Discovery.ExtractFromArxivUrl | scripts/benchmark-pipeline/lib/discovery.py:45-55 | Extracting the id from the abs URL of a versioned id gives the version-less id back. |
| Discovery.OneLine | scripts/benchmark-pipeline/lib/discovery.py:51-53 | A cleaned title or abstract is as long as the trimmed text and has no newline. |
| Discovery.ConvertedPapers | scripts/benchmark-pipeline/lib/discovery.py:42-60 | There is one paper per result with an extractable id. Each has a valid version-less id, URLs built from that id, a one-line title and summary, and no citation data. |
| Discovery.SearchArxiv | scripts/benchmark-pipeline/lib/discovery.py:20-63 | The loop returns the converted results of the client queried with the category-filtered query. |
| Discovery.Enriched | scripts/benchmark-pipeline/lib/discovery.py:66-103 | Enrichment changes only the citation counts and the tldr. |
| Discovery.EnrichedOutcome | scripts/benchmark-pipeline/lib/discovery.py:66-103 | After at most one retry on 429, a final 200 reply sets the citation counts from the reply, and the tldr from its text when the reply has one. Any other outcome leaves the paper unchanged. |
| Discovery.EnrichAll | scripts/benchmark-pipeline/lib/discovery.py:157-161 | Every paper is enriched in place. |
| Discovery.FilterCandidates | scripts/benchmark-pipeline/lib/discovery.py:106-137 | The loop keeps exactly the papers the filter keeps, in order. |
| Discovery.CandidatesSpec | scripts/benchmark-pipeline/lib/discovery.py:122-137 | The output is an order-preserving subsequence of the input. A paper is in it exactly when it mentions a keyword and is not below a known citation threshold. |
| Discovery.UnknownCountsNeverDropped | scripts/benchmark-pipeline/lib/discovery.py:124-127 | With an unknown count, or no positive threshold, a paper is kept exactly when it mentions a keyword. |
| Discovery.KeywordInTitle | scripts/benchmark-pipeline/lib/discovery.py:129-131 | A keyword in the lower-cased title is enough. |
| Discovery.EvaluationImpliesEval | scripts/benchmark-pipeline/lib/discovery.py:111-120 | Any text containing "evaluation" also contains the keyword "eval". |
| Discovery.ChooseQuery | scripts/benchmark-pipeline/lib/discovery.py:147 | The query chosen is never empty unless the first configured query is. |
| Discovery.ChooseMaxResults | scripts/benchmark-pipeline/lib/discovery.py:148 | The limit chosen is never 0 unless the configured default is. |
| Discovery.FallbacksSpec | scripts/benchmark-pipeline/lib/discovery.py:147-148 | A missing or empty query falls back to the first configured query, then to "LLM benchmark evaluation". A missing or zero limit falls back to the configured default. |
| Discovery.DiscoverPapers | scripts/benchmark-pipeline/lib/discovery.py:140-166 | The method returns exactly search, then enrichment in place, then filtering. |
| Discovery.DiscoveredSpec | scripts/benchmark-pipeline/lib/discovery.py:140-166 | Every discovered paper is well formed, mentions a keyword and clears any known citation threshold. There are no more of them than search results. |
| Gemini.AttemptError | scripts/benchmark-pipeline/lib/gemini_client.py:149-156 | A response with text succeeds. A missing text is "Response blocked: <reason>" when there is a finish reason and "Empty response from Gemini" otherwise. |
| Gemini.Backoff | scripts/benchmark-pipeline/lib/gemini_client.py:164 | The delay after attempt i is base_delay * 2^i. |
| Gemini.CallWithRetry | scripts/benchmark-pipeline/lib/gemini_client.py:133-177 | The loop's outcome, number of calls and delays are those of the specification `RetryFrom`. |
| Gemini.AttemptDecides | scripts/benchmark-pipeline/lib/gemini_client.py:142-173 | After retryable failures on attempts 0..k-1, attempt k decides: text is returned, and a non-retryable error is re-raised, each after k+1 calls and k delays. |
| Gemini.AllRetryableExhausts | scripts/benchmark-pipeline/lib/gemini_client.py:175-177 | If every attempt fails retryably, exactly max_retries calls are made, each followed by a delay. The final error names max_retries and the last error. |
| Gemini.NoAttempts | scripts/benchmark-pipeline/lib/gemini_client.py:142-177 | With max_retries of 0 or less, no call is made and the error names "None". |
| Gemini.RetryBounds | scripts/benchmark-pipeline/lib/gemini_client.py:142-170 | At most max_retries calls are made. Delays double from the base and follow every failed call except a final non-retryable one. |
| Gemini.BackoffDoubles | scripts/benchmark-pipeline/lib/gemini_client.py:164 | Each delay is twice the one before. |
| Gemini.MissingTextClassification | scripts/benchmark-pipeline/lib/gemini_client.py:150-163 | "Empty response" is never retried. A blocked response is retried exactly when its finish reason mentions 429, 503 or 500. |
| Gemini.ParseFencedJson | scripts/benchmark-pipeline/lib/gemini_client.py:180-195 | A fenced JSON body is decoded exactly as the bare body would be. |
| Analyzer.PromptOf | scripts/benchmark-pipeline/lib/analyzer.py:97-106 | Missing prompt keys default to "" for id and text and [] for criteria; the optional fields are copied. |
| Analyzer.AnalyzePaper | scripts/benchmark-pipeline/lib/analyzer.py:66-126 | The method returns the specified analysis and runs extraction exactly when the paper is sufficient. |
| Analyzer.PromptsOfAt | scripts/benchmark-pipeline/lib/analyzer.py:95-107 | Prompt i of the analysis is built from raw prompt i. |
| Analyzer.InsufficientSpec | scripts/benchmark-pipeline/lib/analyzer.py:81-89 | An insufficient paper gets no prompts, empty methodology fields, the benchmark name from the verdict (or "") and the verdict itself. Methodology is never consulted. |
| Analyzer.SufficientSpec | scripts/benchmark-pipeline/lib/analyzer.py:91-120 | A sufficient paper gets one prompt per raw prompt, in order. Name, description, evaluation type and scoring methodology default to "", metrics and tags to [], and the system prompt is copied. The verdict is carried unchanged. |
| Analyzer.AnalysisFilename | scripts/benchmark-pipeline/lib/analyzer.py:134 | The file name is the id with '/' replaced by '_', followed by ".json". |
| Analyzer.SaveThenLoad | scripts/benchmark-pipeline/lib/analyzer.py:129-155 | Loading right after saving returns the saved analysis. |
| Analyzer.FilenameInjective | scripts/benchmark-pipeline/lib/analyzer.py:146 | Ids without '_' never share a file name. |
| Analyzer.SaveKeepsOthers | scripts/benchmark-pipeline/lib/analyzer.py:129-150 | Saving one paper's analysis does not change what loads for another id without '_'. |
| Analyzer.SlashAndUnderscoreCollide | scripts/benchmark-pipeline/lib/analyzer.py:134 | "hep-ph/9905221" and "hep-ph_9905221" share a file name. |
| Pipeline.Select | scripts/benchmark-pipeline/pipeline.py:158-162 | The selection is the entry with the given id at any stage, or all entries at the driver's stage. |
| Pipeline.SelectedSnapshot | scripts/benchmark-pipeline/pipeline.py:158-162 | The selection is a duplicate-free copy of stored entries. Without an id it is exactly the entries at the stage; with a non-empty id it has at most one entry. |
| Pipeline.RunEffect | scripts/benchmark-pipeline/pipeline.py:171-197 | A driver's loop over a selection changes exactly the selected entries, each by its own updates, and keeps ids unique. |
| Pipeline.CmdDiscover | scripts/benchmark-pipeline/pipeline.py:123-149 | The store gains the discovered papers not yet tracked, and added + already-tracked = papers found. |
| Pipeline.TrackAll | scripts/benchmark-pipeline/pipeline.py:137-144 | The loop adds each untracked paper once, and the two counters sum to the number found. |
| Pipeline.TrackOne | scripts/benchmark-pipeline/pipeline.py:140-144 | A paper is added exactly when its id is untracked, growing the store by one. |
| Pipeline.TrackedExtends | scripts/benchmark-pipeline/pipeline.py:137-144 | Discovery keeps every old entry as a prefix and keeps ids unique. |
| Pipeline.TrackedCovers | scripts/benchmark-pipeline/pipeline.py:137-144 | Afterwards every found paper is tracked. |
| Pipeline.TrackedNew | scripts/benchmark-pipeline/pipeline.py:137-144 | Every entry added is a fresh DISCOVERED entry of a found paper. |
| Pipeline.TrackedNoop | scripts/benchmark-pipeline/pipeline.py:140-142 | If every found paper is already tracked the store is unchanged. |
| Pipeline.TrackedIdempotent | scripts/benchmark-pipeline/pipeline.py:123-149 | Discovering the same papers again changes nothing. |
| Pipeline.DownloadOne | scripts/benchmark-pipeline/pipeline.py:171-195 | One entry goes DOWNLOADING, then DOWNLOADED or SKIPPED, and the result says whether the download succeeded. |
| Pipeline.CmdDownload | scripts/benchmark-pipeline/pipeline.py:152-197 | The store is the run of the download plan over the selection. The success count is the number of successful downloads, and the total is the selection size. |
| Pipeline.DownloadOutcome | scripts/benchmark-pipeline/pipeline.py:171-195 | A download ends DOWNLOADED on success, or SKIPPED with reason "PDF download failed". Only the stage, timestamp and reason change, and the updates are a path of the download command. |
| Pipeline.DownloadCount | scripts/benchmark-pipeline/pipeline.py:187-197 | The success count never exceeds the number of entries. |
| Pipeline.DownloadSpec | scripts/benchmark-pipeline/pipeline.py:152-197 | The whole store after `cmd_download`, entry by entry; unselected entries are unchanged. |
| Pipeline.AnalysisFailure | scripts/benchmark-pipeline/pipeline.py:287 | The reason is "Analysis failed: " followed by the whole message when it has at most 200 characters, and otherwise by its first 200 characters. |
| Pipeline.AnalyzeOne | scripts/benchmark-pipeline/pipeline.py:223-290 | One entry follows its analysis verdict, and the analysis is saved exactly when there is one. |
| Pipeline.CmdAnalyze | scripts/benchmark-pipeline/pipeline.py:200-295 | The store, the saved analyses and the three counters are those of the analyze plan over the selection. |
| Pipeline.AnalyzeCounts | scripts/benchmark-pipeline/pipeline.py:219-295 | Each entry is counted exactly once: analyzed + insufficient + failed = entries. |
| Pipeline.AnalyzeOutcome | scripts/benchmark-pipeline/pipeline.py:223-290 | There are four outcomes, and nothing else changes but the timestamp. A missing PDF gives SKIPPED "PDF not found locally". An error rolls back to DOWNLOADED with "Analysis failed: " plus the cut message. Sufficient gives ANALYZED with path, prompt count and rubric flag; insufficient gives INSUFFICIENT_DATA with path and reason. |
| Pipeline.AnalyzeMoves | scripts/benchmark-pipeline/pipeline.py:223-290 | From DOWNLOADED, the analyze updates are a path of the analyze command. |
| Pipeline.AnalyzeSpec | scripts/benchmark-pipeline/pipeline.py:200-295 | Each selected entry keeps its identity and lands on its verdict's stage; the rest are unchanged. |
| Pipeline.SavedLoadable | scripts/benchmark-pipeline/pipeline.py:252-254 | Every analysis saved by the run loads back under its paper id, when ids contain no '_'. |
| Pipeline.GenerationFailure | scripts/benchmark-pipeline/pipeline.py:405 | The reason is "Generation failed: " followed by the whole message when it has at most 200 characters, and otherwise by its first 200 characters. |
| Pipeline.DumpFallback | scripts/benchmark-pipeline/pipeline.py:372-374 | The deterministic fallback content is valid. |
| Pipeline.ValidateStep | scripts/benchmark-pipeline/pipeline.py:358-383 | Invalid Gemini output is replaced by the fallback, which always passes. |
| Pipeline.GenerateContent | scripts/benchmark-pipeline/pipeline.py:341-389 | With an analysis loaded, the verdict is the specified one and never "no analysis". |
| Pipeline.GenerateOne | scripts/benchmark-pipeline/pipeline.py:331-408 | One entry is updated according to its generate verdict. |
| Pipeline.CmdGenerate | scripts/benchmark-pipeline/pipeline.py:298-413 | The store, the files written and the counters are those of the generate plan over the selection. |
| Pipeline.GenerationCounts | scripts/benchmark-pipeline/pipeline.py:328-408 | generated + failed = entries. |
| Pipeline.GenerateVerdictSpec | scripts/benchmark-pipeline/pipeline.py:331-408 | No analysis gives no update, and a Gemini exception gives a rollback. In deterministic mode the Blueprint is the deterministic one; otherwise it is Gemini's fence-stripped text unless validation rejects it, when it is the fallback. It is written under the slug file name. The validation rollback never happens. |
| Pipeline.FallbackPasses | scripts/benchmark-pipeline/pipeline.py:372-376 | The fallback has no defects. |
| Pipeline.GeneratedPassesValidation | scripts/benchmark-pipeline/pipeline.py:358-396 | With validation on, or in deterministic mode, every Blueprint written validates. |
| Pipeline.GenerationWritesAll | scripts/benchmark-pipeline/pipeline.py:385-389 | Every generated Blueprint is written and earlier files stay present. |
| Pipeline.GenerationWritesOnly | scripts/benchmark-pipeline/pipeline.py:385-389 | Every new file belongs to a generated entry. |
| Pipeline.GenerationWritesValid | scripts/benchmark-pipeline/pipeline.py:358-389 | With validation on, or in deterministic mode, every file is an untouched old file or a valid Blueprint. |
| Pipeline.GenerateOutcome | scripts/benchmark-pipeline/pipeline.py:331-408 | No analysis leaves the entry untouched. An error rolls back to ANALYZED with its reason. A Blueprint gives READY_FOR_REVIEW with file name and path. Nothing else changes but the timestamp. |
| Pipeline.GenerateMoves | scripts/benchmark-pipeline/pipeline.py:339-406 | From ANALYZED, the generate updates are a path of the generate command. |
| Pipeline.GenerateSpec | scripts/benchmark-pipeline/pipeline.py:298-413 | Each selected entry keeps its identity and lands on its verdict's stage; the rest are unchanged. |
| Pipeline.CmdRetry | scripts/benchmark-pipeline/pipeline.py:514-548 | The store is the run of the reset plan over the retry selection, and the count is its size. |
| Pipeline.RetrySnapshot | scripts/benchmark-pipeline/pipeline.py:518-529 | The retry selection has no duplicates. Without an id it is exactly the INSUFFICIENT_DATA and SKIPPED entries. |
| Pipeline.RetryOutcome | scripts/benchmark-pipeline/pipeline.py:544-545 | A reset entry lands at the chosen stage with an empty reason, as a retry move. |
| Pipeline.RetrySpec | scripts/benchmark-pipeline/pipeline.py:514-548 | The whole store after `cmd_retry`: selected entries reset, the rest unchanged, ids unique. |
| Pipeline.SubmitOne | scripts/benchmark-pipeline/pipeline.py:568-590 | One entry is updated according to its submit verdict. |
| Pipeline.CmdSubmit | scripts/benchmark-pipeline/pipeline.py:551-590 | The store is the run of the submit plan over the APPROVED selection. |
| Pipeline.SubmitOutcome | scripts/benchmark-pipeline/pipeline.py:568-590 | PR_CREATED with the URL if and only if there is a Blueprint path, the file exists, an analysis exists and a non-empty URL is returned. Otherwise the entry is unchanged. |
| Pipeline.SubmitSpec | scripts/benchmark-pipeline/pipeline.py:551-590 | The whole store after `cmd_submit`. |
| Pipeline.CmdRun | scripts/benchmark-pipeline/pipeline.py:416-450 | The store, the saved analyses and the written files are those of discover, download, analyze and generate, stopping after the named stage. |
| Pipeline.RunLeavesReview | scripts/benchmark-pipeline/pipeline.py:171-197 | A driver run whose outcomes are not review stages never alters an entry in review. |
| Pipeline.DiscoverLeavesReview | scripts/benchmark-pipeline/pipeline.py:123-149 | Discovery leaves entries in review untouched. |
| Pipeline.DownloadLeavesReview | scripts/benchmark-pipeline/pipeline.py:152-197 | Download leaves entries in review untouched. |
| Pipeline.AnalyzeLeavesReview | scripts/benchmark-pipeline/pipeline.py:200-295 | Analyze leaves entries in review untouched. |
| Pipeline.GenerateLeavesReview | scripts/benchmark-pipeline/pipeline.py:298-413 | Generate leaves entries in review untouched. |
| Pipeline.PipelineRunLeavesReview | scripts/benchmark-pipeline/pipeline.py:416-450 | A full run keeps every entry's place and id and keeps ids unique. An entry at APPROVED, UPLOADED, DENIED or PR_CREATED after the run was there, unchanged, before it, and no new entry reaches those four stages. |
| Pipeline.RunKeepsUnselected | scripts/benchmark-pipeline/pipeline.py:158-162 | A command that selects by stage alone, with no paper id, keeps ids unique and leaves every entry at another stage exactly as it was. |
| Pipeline.PipelineRunKeepsParked | scripts/benchmark-pipeline/pipeline.py:431-448 | Because the run passes no paper id, any entry that was outside DISCOVERED, DOWNLOADED and ANALYZED before the run is the same entry afterwards. That includes READY_FOR_REVIEW and every reviewed stage. |
| Pipeline.PipelineRunKeepsReviewQueue | scripts/benchmark-pipeline/pipeline.py:416-450 | An entry at READY_FOR_REVIEW, APPROVED, UPLOADED, DENIED or PR_CREATED before a full run is exactly the same entry, at the same place, after it. |

## Left out

- Network, filesystem and clock effects are parameters or oracles, and their failure modes are not modelled: any failure of `write_blueprint`, `save_analysis` or the tracking-file save. Each driver takes one timestamp. `time.sleep` is the list of delays the loop would sleep.
- `Tracker._save` and `_load`'s file reading are left out. The loaded database is an input, and a file whose ids repeat is accepted but leaves the store outside the unique-id invariant.
- Floats are left out: `sufficiency_score`, `confidence`, temperature, the size logging and the float base delay (an integer here).
- YAML and JSON parsing and dumping are left out. Parsed blocks are a `Value` datatype, a parse is an oracle, and a `yaml.dump` reloads to the blocks it was made from.
- `resolve_path` and path normalisation are left out. A path is directory + "/" + file name.
- The Gemini SDK, uploads and prompt templates are left out: `analyze_pdf`, `query`, `load_prompt`, `assess_sufficiency`, `extract_methodology`. Their results are inputs. `get_gemini_client`'s environment lookup and `sys.exit` are left out too.
- `lib/pr_creator.py` is not part of this model; `create_blueprint_pr` is an oracle giving a URL or nothing.
- `download_pdf` (lib/downloader.py) is an oracle giving success or failure.
- The arXiv client and the Semantic Scholar HTTP exchange are oracles; the API key header, the 3-second pause before the retry on 429 and the 0.5-second pause between papers are left out.
- CLI and presentation are left out: `main`, argparse, `load_config`, `cmd_status`, `_print_paper_detail`, `validate_blueprint_file` and all logging and console output.
- `str.lower()`, `str.strip()`, `\s` and `\d` are modelled over ASCII; Unicode case folding and whitespace are left out.
- Regular expression `$` is modelled as end of string only; Python's `$` also matches before a final newline.
- Tracking.Tracker.UpdateStatus: the keyword fields are the stage artifacts the drivers pass, namely reason, analysis path, prompt count, rubric flag, Blueprint file name and path, and PR URL. Setting an identity or timestamp field through `setattr`, and values of the wrong type, are not modelled.
- Pipeline.CmdGenerate: Gemini is consulted after the CONVERTING update, as a pure oracle, and an exception from writing the file is not modelled.
- Values.Display: a list or mapping used as a prompt id is rendered as "[...]" or "{...}", not as Python's `str()` of it (for example `['a', 'b']`). The mapping type keeps no key order, so `str()` of a mapping cannot be reproduced, and the validator's message text differs for such ids.
- Analyzer.AnalyzePaper: a methodology reply with a JSON `null` or a wrongly typed value is not modelled. Examples are a `null` prompt list, or a `null` or non-string prompt id; for these the source raises TypeError or a validation error. The model's methodology fields can only be absent or well typed. In `cmd_analyze` the analysis oracle reports such a reply as `Failed`, which rolls the entry back to DOWNLOADED with "Analysis failed: …".
- Pipeline.CmdRun: the oracles of the four stages are independent of each other; a PDF downloaded in the download stage is not known to the analyze stage's PDF check.
