/**
 * The deterministic Blueprint generator: a header mapping and a list of
 * prompt items built from a paper analysis, with no model call involved.
 * YAML serialisation followed by parsing is taken to give the same blocks
 * back, so the generator's output is given as the two parsed blocks.
 */
module BlueprintGenerator {
  import opened Wrappers
  import opened Text
  import opened Values
  import opened Models
  import Utils
  import Validators
  import Seqs

  // ---------------------------------------------------------------------------
  // Scoring criteria

  /** Criteria with one of these prefixes become case-insensitive substring checks. */
  const CheckPrefixes: seq<string> := ["Must contain:", "Contains:", "Answer:", "Correct answer:"]

  predicate IsCheckCriterion(c: string) {
    StartsWith(c, "Must contain:") || StartsWith(c, "Contains:") ||
    StartsWith(c, "Answer:") || StartsWith(c, "Correct answer:")
  }

  /** `s.split(c, 1)[1]`: the text after the first `c` (empty when there is none). */
  function AfterFirst(s: string, c: char): (r: string)
    ensures |r| <= |s|
  {
    if s == [] then []
    else if s[0] == c then s[1..]
    else AfterFirst(s[1..], c)
  }

  /** The checked text: after the first colon, trimmed, then stripped of `"` and then of `'`. */
  function CheckText(c: string): string {
    StripChar(StripChar(Strip(AfterFirst(c, ':')), '"'), '\'')
  }

  /** One `should` item: an `$icontains` check, or the criterion itself as a rubric point. */
  function CriterionItem(c: string): Value {
    if IsCheckCriterion(c) then Dict(map["$icontains" := Str(CheckText(c))]) else Str(c)
  }

  /** `_build_should_items` as a function: one item per criterion, in order. */
  function ShouldItems(criteria: seq<string>): (r: seq<Value>)
    ensures |r| == |criteria|
    ensures forall i :: 0 <= i < |criteria| ==> r[i] == CriterionItem(criteria[i])
  {
    if criteria == [] then []
    else ShouldItems(criteria[..|criteria| - 1]) + [CriterionItem(criteria[|criteria| - 1])]
  }

  method BuildShouldItems(criteria: seq<string>) returns (items: seq<Value>)
    ensures items == ShouldItems(criteria)
  {
    items := [];
    var i := 0;
    while i < |criteria|
      invariant 0 <= i <= |criteria|
      invariant items == ShouldItems(criteria[..i])
    {
      assert criteria[..i + 1][..i] == criteria[..i];
      items := items + [CriterionItem(criteria[i])];
      i := i + 1;
    }
    assert criteria[..i] == criteria;
  }

  lemma {:induction false} AfterFirstSkips(a: string, c: char, x: string)
    requires c !in a
    ensures AfterFirst(a + [c] + x, c) == x
  {
    if a == [] {
      assert a + [c] + x == [c] + x;
    } else {
      assert (a + [c] + x)[1..] == a[1..] + [c] + x;
      AfterFirstSkips(a[1..], c, x);
    }
  }

  lemma LStripCharOne(t: string, c: char)
    requires t != [] && t[0] != c
    ensures LStripChar([c] + t, c) == t
  {
    assert ([c] + t)[1..] == t;
  }

  lemma RStripCharOne(t: string, c: char)
    requires t != [] && t[|t| - 1] != c
    ensures RStripChar(t + [c], c) == t
  {
    assert (t + [c])[..|t|] == t;
  }

  /** `s.strip(c)` removes exactly one `c` from each end of `c + t + c` when `t` has none there. */
  lemma StripCharWrapped(t: string, c: char)
    requires t != [] && t[0] != c && t[|t| - 1] != c
    ensures StripChar([c] + t + [c], c) == t
  {
    assert [c] + t + [c] == [c] + (t + [c]);
    assert (t + [c])[0] == t[0];
    LStripCharOne(t + [c], c);
    RStripCharOne(t, c);
  }

  lemma DoubleQuotedTrimmed(t: string)
    requires t != [] && !IsSpace(t[0]) && !IsSpace(t[|t| - 1])
    ensures Strip(" " + ['"'] + t + ['"']) == ['"'] + t + ['"']
  {
    var q := ['"'] + t + ['"'];
    assert " " + ['"'] + t + ['"'] == [' '] + q;
    assert ([' '] + q)[1..] == q;
    assert LStrip([' '] + q) == LStrip(q) == q;
  }

  /** Text after a colon-terminated prefix, written ` "t"`, checks for the bare `t`. */
  lemma CheckTextOfQuoted(prefix: string, t: string)
    requires prefix != [] && prefix[|prefix| - 1] == ':' && ':' !in prefix[..|prefix| - 1]
    requires t != [] && t[0] != '"' && t[|t| - 1] != '"' && t[0] != '\'' && t[|t| - 1] != '\''
    requires !IsSpace(t[0]) && !IsSpace(t[|t| - 1])
    ensures CheckText(prefix + " \"" + t + "\"") == t
  {
    var body := prefix[..|prefix| - 1];
    var x := " " + ['"'] + t + ['"'];
    assert prefix + " \"" + t + "\"" == body + [':'] + x;
    AfterFirstSkips(body, ':', x);
    DoubleQuotedTrimmed(t);
    StripCharWrapped(t, '"');
    StripCharUnchanged(t, '\'');
  }

  lemma PrefixedIsCheck(prefix: string, t: string)
    requires prefix in CheckPrefixes
    ensures IsCheckCriterion(prefix + " \"" + t + "\"")
  {
    assert (prefix + " \"" + t + "\"")[..|prefix|] == prefix;
  }

  /**
   * A check criterion written `Prefix: "text"` yields an `$icontains` check on
   * the bare text: the prefix, the surrounding space and the quotes are removed.
   */
  lemma QuotedCheckCriterion(prefix: string, t: string)
    requires prefix in CheckPrefixes
    requires t != [] && t[0] != '"' && t[|t| - 1] != '"' && t[0] != '\'' && t[|t| - 1] != '\''
    requires !IsSpace(t[0]) && !IsSpace(t[|t| - 1])
    ensures CriterionItem(prefix + " \"" + t + "\"") == Dict(map["$icontains" := Str(t)])
  {
    assert prefix[|prefix| - 1] == ':' && ':' !in prefix[..|prefix| - 1];
    CheckTextOfQuoted(prefix, t);
    PrefixedIsCheck(prefix, t);
  }

  /** A criterion with none of the four prefixes is kept verbatim as a rubric point. */
  lemma PlainCriterionKept(c: string)
    requires forall i :: 0 <= i < |CheckPrefixes| ==> !StartsWith(c, CheckPrefixes[i])
    ensures CriterionItem(c) == Str(c)
  {
    assert !StartsWith(c, CheckPrefixes[0]) && !StartsWith(c, CheckPrefixes[1]);
    assert !StartsWith(c, CheckPrefixes[2]) && !StartsWith(c, CheckPrefixes[3]);
  }

  // ---------------------------------------------------------------------------
  // Tags

  /** The slug of each analysis tag, cut at 30 characters, in order. */
  function TagSlugs(tags: seq<string>): (r: seq<string>)
    ensures |r| == |tags|
  {
    if tags == [] then [] else TagSlugs(tags[..|tags| - 1]) + [Utils.Slugify(tags[|tags| - 1], 30)]
  }

  lemma {:induction false} TagSlugsAt(tags: seq<string>, i: nat)
    requires i < |tags|
    ensures TagSlugs(tags)[i] == Utils.Slugify(tags[i], 30)
  {
    var init := tags[..|tags| - 1];
    assert TagSlugs(tags) == TagSlugs(init) + [Utils.Slugify(tags[|tags| - 1], 30)];
    if i < |tags| - 1 {
      TagSlugsAt(init, i);
      assert init[i] == tags[i];
    }
  }

  /** Appends each candidate that is non-empty and not yet present, in order. */
  function AddNew(tags: seq<string>, candidates: seq<string>): seq<string> {
    if candidates == [] then tags
    else
      var prev := AddNew(tags, candidates[..|candidates| - 1]);
      var t := candidates[|candidates| - 1];
      if t != "" && t !in prev then prev + [t] else prev
  }

  /** `_build_tags` as a function: the defaults, then each new non-empty tag slug in first-seen order. */
  function TagsFrom(defaults: seq<string>, tags: seq<string>): seq<string> {
    AddNew(defaults, TagSlugs(tags))
  }

  lemma AddNewSnoc(tags: seq<string>, candidates: seq<string>, t: string)
    ensures AddNew(tags, candidates + [t]) ==
      var prev := AddNew(tags, candidates);
      if t != "" && t !in prev then prev + [t] else prev
  {
    assert (candidates + [t])[..|candidates|] == candidates;
  }

  lemma TagSlugsStep(tags: seq<string>, i: nat)
    requires i < |tags|
    ensures TagSlugs(tags[..i + 1]) == TagSlugs(tags[..i]) + [Utils.Slugify(tags[i], 30)]
  {
    assert tags[..i + 1][..i] == tags[..i];
  }

  lemma TagsStep(defaults: seq<string>, tags: seq<string>, i: nat, prev: seq<string>, next: seq<string>)
    requires i < |tags| && prev == TagsFrom(defaults, tags[..i])
    requires var t := Utils.Slugify(tags[i], 30);
      next == if t != "" && t !in prev then prev + [t] else prev
    ensures next == TagsFrom(defaults, tags[..i + 1])
  {
    TagSlugsStep(tags, i);
    AddNewSnoc(defaults, TagSlugs(tags[..i]), Utils.Slugify(tags[i], 30));
  }

  method BuildTags(defaults: seq<string>, analysisTags: seq<string>) returns (tags: seq<string>)
    ensures tags == TagsFrom(defaults, analysisTags)
  {
    tags := defaults;
    var i := 0;
    while i < |analysisTags|
      invariant 0 <= i <= |analysisTags|
      invariant tags == TagsFrom(defaults, analysisTags[..i])
    {
      var slugTag := Utils.Slugify(analysisTags[i], 30);
      ghost var prev := tags;
      if slugTag != "" && slugTag !in tags {
        tags := tags + [slugTag];
      }
      TagsStep(defaults, analysisTags, i, prev, tags);
      i := i + 1;
    }
    assert analysisTags[..i] == analysisTags;
  }

  predicate NoDuplicates(xs: seq<string>) {
    forall i, j :: 0 <= i < j < |xs| ==> xs[i] != xs[j]
  }

  /** The tags already present stay first, unchanged. */
  lemma {:induction false} AddNewExtends(tags: seq<string>, candidates: seq<string>)
    ensures tags <= AddNew(tags, candidates)
  {
    if candidates != [] {
      AddNewExtends(tags, candidates[..|candidates| - 1]);
    }
  }

  /** Every non-empty candidate ends up present. */
  lemma {:induction false} AddNewComplete(tags: seq<string>, candidates: seq<string>)
    ensures forall i :: 0 <= i < |candidates| && candidates[i] != "" ==> candidates[i] in AddNew(tags, candidates)
  {
    if candidates != [] {
      var init := candidates[..|candidates| - 1];
      AddNewComplete(tags, init);
      var prev := AddNew(tags, init);
      var r := AddNew(tags, candidates);
      assert prev <= r;
      forall i | 0 <= i < |candidates| && candidates[i] != ""
        ensures candidates[i] in r
      {
        if i < |init| {
          assert init[i] == candidates[i];
          assert candidates[i] in prev;
        }
      }
    }
  }

  /** Everything appended is a non-empty candidate. */
  lemma {:induction false} AddNewSound(tags: seq<string>, candidates: seq<string>)
    ensures |tags| <= |AddNew(tags, candidates)|
    ensures forall k :: |tags| <= k < |AddNew(tags, candidates)| ==>
      AddNew(tags, candidates)[k] != "" && AddNew(tags, candidates)[k] in candidates
  {
    if candidates != [] {
      var init := candidates[..|candidates| - 1];
      AddNewSound(tags, init);
      var prev := AddNew(tags, init);
      var r := AddNew(tags, candidates);
      forall k | |tags| <= k < |r|
        ensures r[k] != "" && r[k] in candidates
      {
        if k < |prev| {
          assert r[k] == prev[k];
          assert prev[k] in init;
        } else {
          assert r[k] == candidates[|candidates| - 1];
        }
      }
    }
  }

  /** Nothing is appended twice, nor a tag that was already present. */
  lemma {:induction false} AddNewNoDuplicates(tags: seq<string>, candidates: seq<string>)
    requires NoDuplicates(tags)
    ensures NoDuplicates(AddNew(tags, candidates))
  {
    if candidates != [] {
      AddNewNoDuplicates(tags, candidates[..|candidates| - 1]);
    }
  }

  /**
   * The default tags come first, unchanged; every non-empty slug of an
   * analysis tag appears; every added tag is such a slug; and, when the
   * defaults are distinct, no tag appears twice.
   */
  lemma TagsSpec(defaults: seq<string>, tags: seq<string>)
    ensures defaults <= TagsFrom(defaults, tags)
    ensures forall i :: 0 <= i < |tags| && Utils.Slugify(tags[i], 30) != "" ==>
      Utils.Slugify(tags[i], 30) in TagsFrom(defaults, tags)
    ensures forall k :: |defaults| <= k < |TagsFrom(defaults, tags)| ==>
      TagsFrom(defaults, tags)[k] != "" &&
      exists i :: 0 <= i < |tags| && TagsFrom(defaults, tags)[k] == Utils.Slugify(tags[i], 30)
    ensures NoDuplicates(defaults) ==> NoDuplicates(TagsFrom(defaults, tags))
  {
    var slugs := TagSlugs(tags);
    var r := TagsFrom(defaults, tags);
    AddNewExtends(defaults, slugs);
    AddNewComplete(defaults, slugs);
    AddNewSound(defaults, slugs);
    forall i | 0 <= i < |tags| && Utils.Slugify(tags[i], 30) != ""
      ensures Utils.Slugify(tags[i], 30) in r
    {
      TagSlugsAt(tags, i);
    }
    forall k | |defaults| <= k < |r|
      ensures r[k] != "" && exists i :: 0 <= i < |tags| && r[k] == Utils.Slugify(tags[i], 30)
    {
      var i :| 0 <= i < |slugs| && slugs[i] == r[k];
      TagSlugsAt(tags, i);
    }
    if NoDuplicates(defaults) {
      AddNewNoDuplicates(defaults, slugs);
    }
  }

  // ---------------------------------------------------------------------------
  // Description, header and items

  /** `_build_description`: the paragraphs that apply, joined by newlines, ending with the source link. */
  function DescriptionParts(a: PaperAnalysis, e: Entry): (parts: seq<string>)
    ensures |parts| >= 2
    ensures parts[0] == if a.description != "" then a.description else "Evaluation based on: " + e.title
    ensures parts[|parts| - 1] == "\n**Source:** [" + e.title + "](" + e.arxivUrl + ")"
  {
    [if a.description != "" then a.description else "Evaluation based on: " + e.title] +
    (if a.evaluationType != "" then ["\n**Evaluation type:** " + a.evaluationType] else []) +
    (if a.metrics != [] then ["\n**Metrics:** " + Join(", ", a.metrics)] else []) +
    (if a.scoringMethodology != "" then ["\n**Scoring:** " + a.scoringMethodology] else []) +
    ["\n**Source:** [" + e.title + "](" + e.arxivUrl + ")"]
  }

  function BuildDescription(a: PaperAnalysis, e: Entry): string {
    Join("\n", DescriptionParts(a, e))
  }

  /** The description opens with the analysis description (or a fallback naming the paper) and closes with the source link. */
  lemma DescriptionShape(a: PaperAnalysis, e: Entry)
    ensures StartsWith(BuildDescription(a, e),
      if a.description != "" then a.description else "Evaluation based on: " + e.title)
    ensures EndsWith(BuildDescription(a, e), "\n**Source:** [" + e.title + "](" + e.arxivUrl + ")")
  {
    JoinEnds("\n", DescriptionParts(a, e));
  }

  function StrList(xs: seq<string>): (r: seq<Value>)
    ensures |r| == |xs| && forall i :: 0 <= i < |xs| ==> r[i] == Str(xs[i])
  {
    seq(|xs|, i requires 0 <= i < |xs| => Str(xs[i]))
  }

  predicate NonEmpty(o: Option<string>) {
    o.Some? && o.value != ""
  }

  /** The header mapping of the generated Blueprint. */
  function Header(a: PaperAnalysis, e: Entry, c: PipelineConfig): map<string, Value> {
    var base := map[
      "title" := Str(if a.benchmarkName != "" then a.benchmarkName else e.title),
      "description" := Str(BuildDescription(a, e)),
      "author" := Dict(map["name" := Str(Utils.FormatAuthorsShort(e.authors))]),
      "references" := List([Dict(map["title" := Str(e.title), "url" := Str(e.arxivUrl)])]),
      "tags" := List(StrList(TagsFrom(c.defaultTags, a.tags))),
      "models" := List(StrList(c.defaultModels))];
    if NonEmpty(a.systemPrompt) then base["system" := Str(a.systemPrompt.value)] else base
  }

  /** The id of a generated item: the prompt's own id, or a slug of its first 40 characters. */
  function ItemId(p: ExtractedPrompt): string {
    if p.id != "" then p.id else Utils.Slugify(Take(p.promptText, 40), 60)
  }

  /** The item generated for one extracted prompt. */
  function ItemFor(p: ExtractedPrompt, analysisSystem: Option<string>): map<string, Value> {
    var m0 := map["id" := Str(ItemId(p)), "prompt" := Str(p.promptText)];
    var m1 := if NonEmpty(p.idealResponse) then m0["ideal" := Str(p.idealResponse.value)] else m0;
    var should := ShouldItems(p.scoringCriteria);
    var m2 := if should != [] then m1["should" := List(should)] else m1;
    var m3 := if NonEmpty(p.systemPrompt) && p.systemPrompt != analysisSystem
              then m2["system" := Str(p.systemPrompt.value)] else m2;
    if NonEmpty(p.category) then m3["description" := Str("Category: " + p.category.value)] else m3
  }

  function Items(ps: seq<ExtractedPrompt>, analysisSystem: Option<string>): (r: seq<Value>)
    ensures |r| == |ps|
    ensures forall i :: 0 <= i < |ps| ==> r[i] == Dict(ItemFor(ps[i], analysisSystem))
  {
    if ps == [] then []
    else Items(ps[..|ps| - 1], analysisSystem) + [Dict(ItemFor(ps[|ps| - 1], analysisSystem))]
  }

  /** The parsed form of `generate_blueprint_deterministic`'s output: the header block, then the item list. */
  function DeterministicBlocks(a: PaperAnalysis, e: Entry, c: PipelineConfig): seq<Value> {
    [Dict(Header(a, e, c)), List(Items(a.prompts, a.systemPrompt))]
  }

  method BuildItem(p: ExtractedPrompt, analysisSystem: Option<string>) returns (item: map<string, Value>)
    ensures item == ItemFor(p, analysisSystem)
  {
    item := map["id" := Str(ItemId(p)), "prompt" := Str(p.promptText)];
    if NonEmpty(p.idealResponse) {
      item := item["ideal" := Str(p.idealResponse.value)];
    }
    var should := BuildShouldItems(p.scoringCriteria);
    if should != [] {
      item := item["should" := List(should)];
    }
    if NonEmpty(p.systemPrompt) && p.systemPrompt != analysisSystem {
      item := item["system" := Str(p.systemPrompt.value)];
    }
    if NonEmpty(p.category) {
      item := item["description" := Str("Category: " + p.category.value)];
    }
  }

  /** The header mapping of `generate_blueprint_deterministic`. */
  method BuildHeader(a: PaperAnalysis, e: Entry, c: PipelineConfig) returns (header: map<string, Value>)
    ensures header == Header(a, e, c)
  {
    var tags := BuildTags(c.defaultTags, a.tags);
    header := map[
      "title" := Str(if a.benchmarkName != "" then a.benchmarkName else e.title),
      "description" := Str(BuildDescription(a, e)),
      "author" := Dict(map["name" := Str(Utils.FormatAuthorsShort(e.authors))]),
      "references" := List([Dict(map["title" := Str(e.title), "url" := Str(e.arxivUrl)])]),
      "tags" := List(StrList(tags)),
      "models" := List(StrList(c.defaultModels))];
    if NonEmpty(a.systemPrompt) {
      header := header["system" := Str(a.systemPrompt.value)];
    }
  }

  lemma ItemsStep(ps: seq<ExtractedPrompt>, i: nat, analysisSystem: Option<string>)
    requires i < |ps|
    ensures Items(ps[..i + 1], analysisSystem) == Items(ps[..i], analysisSystem) + [Dict(ItemFor(ps[i], analysisSystem))]
  {
    assert ps[..i + 1][..i] == ps[..i];
  }

  /** The prompt loop of `generate_blueprint_deterministic`: one item per extracted prompt, in order. */
  method BuildItems(ps: seq<ExtractedPrompt>, analysisSystem: Option<string>) returns (prompts: seq<Value>)
    ensures prompts == Items(ps, analysisSystem)
  {
    prompts := [];
    var i := 0;
    while i < |ps|
      invariant 0 <= i <= |ps|
      invariant prompts == Items(ps[..i], analysisSystem)
    {
      var item := BuildItem(ps[i], analysisSystem);
      ItemsStep(ps, i, analysisSystem);
      prompts := prompts + [Dict(item)];
      i := i + 1;
    }
    assert ps[..i] == ps;
  }

  /** `generate_blueprint_deterministic`: the header, then the list of prompt items. */
  method GenerateDeterministic(a: PaperAnalysis, e: Entry, c: PipelineConfig) returns (blocks: seq<Value>)
    ensures blocks == DeterministicBlocks(a, e, c)
    ensures Validators.Validate(Validators.Blocks(blocks)) == []
  {
    var header := BuildHeader(a, e, c);
    var prompts := BuildItems(a.prompts, a.systemPrompt);
    blocks := [Dict(header), List(prompts)];
    GeneratedBlueprintValid(a, e, c);
  }

  // ---------------------------------------------------------------------------
  // Soundness: the generated blocks always validate


  /**
   * Every generated item has an `id` and a string `prompt`, uses no keys other
   * than id, prompt, ideal, should, system and description, and its `should`
   * (present only when non-empty) is a list.
   */
  lemma ItemShape(p: ExtractedPrompt, analysisSystem: Option<string>)
    ensures var m := ItemFor(p, analysisSystem);
      "id" in m && "prompt" in m && m["prompt"] == Str(p.promptText) &&
      m.Keys <= {"id", "prompt", "ideal", "should", "system", "description"} &&
      ("should" in m ==> m["should"].List? && m["should"].items != []) &&
      ("system" in m ==> p.systemPrompt != analysisSystem)
  {
    var m0 := map["id" := Str(ItemId(p)), "prompt" := Str(p.promptText)];
    var m1 := if NonEmpty(p.idealResponse) then m0["ideal" := Str(p.idealResponse.value)] else m0;
    var should := ShouldItems(p.scoringCriteria);
    var m2 := if should != [] then m1["should" := List(should)] else m1;
    var m3 := if NonEmpty(p.systemPrompt) && p.systemPrompt != analysisSystem
              then m2["system" := Str(p.systemPrompt.value)] else m2;
    var m4 := if NonEmpty(p.category) then m3["description" := Str("Category: " + p.category.value)] else m3;
    assert ItemFor(p, analysisSystem) == m4;
    assert m0.Keys == {"id", "prompt"};
    assert m1.Keys <= {"id", "prompt", "ideal"};
    assert m2.Keys <= {"id", "prompt", "ideal", "should"};
    assert m3.Keys <= {"id", "prompt", "ideal", "should", "system"};
    assert m4.Keys <= {"id", "prompt", "ideal", "should", "system", "description"};
    assert m4["prompt"] == Str(p.promptText);
  }

  /** An item with a text prompt, only the generator's keys, and a list under `should` has no defect. */
  lemma ItemKeysMakeValidItem(m: map<string, Value>, i: nat)
    requires "prompt" in m && m["prompt"].Str?
    requires m.Keys <= {"id", "prompt", "ideal", "should", "system", "description"}
    requires "should" in m ==> m["should"].List?
    ensures Validators.ItemDefects(Dict(m), i) == []
  {
    var name := Validators.ItemLabel(m, i);
    var ds := Validators.RubricDefects(m, name, Validators.RubricKeys);
    assert ds == [] || ds[0] in ds;
    Validators.RubricMembership(m, name, Validators.RubricKeys);
  }

  lemma GeneratedItemValid(p: ExtractedPrompt, analysisSystem: Option<string>, i: nat)
    ensures Validators.ItemDefects(Dict(ItemFor(p, analysisSystem)), i) == []
  {
    ItemShape(p, analysisSystem);
    ItemKeysMakeValidItem(ItemFor(p, analysisSystem), i);
  }

  lemma {:induction false} GeneratedItemsValid(ps: seq<ExtractedPrompt>, analysisSystem: Option<string>)
    ensures Validators.AllItemDefects(Items(ps, analysisSystem)) == []
  {
    if ps != [] {
      var init := ps[..|ps| - 1];
      GeneratedItemsValid(init, analysisSystem);
      var items := Items(ps, analysisSystem);
      assert items[..|items| - 1] == Items(init, analysisSystem);
      GeneratedItemValid(ps[|ps| - 1], analysisSystem, |ps| - 1);
    }
  }

  /** The header has a title, tags and models, and none of the keys that mark a prompt item or a `prompts` list. */
  lemma HeaderShape(a: PaperAnalysis, e: Entry, c: PipelineConfig)
    ensures var h := Header(a, e, c);
      "title" in h && "tags" in h && "models" in h && h["tags"].List? && h["models"].List? &&
      h.Keys <= {"title", "description", "author", "references", "tags", "models", "system"}
  {
    var base := map[
      "title" := Str(if a.benchmarkName != "" then a.benchmarkName else e.title),
      "description" := Str(BuildDescription(a, e)),
      "author" := Dict(map["name" := Str(Utils.FormatAuthorsShort(e.authors))]),
      "references" := List([Dict(map["title" := Str(e.title), "url" := Str(e.arxivUrl)])]),
      "tags" := List(StrList(TagsFrom(c.defaultTags, a.tags))),
      "models" := List(StrList(c.defaultModels))];
    var h := if NonEmpty(a.systemPrompt) then base["system" := Str(a.systemPrompt.value)] else base;
    assert Header(a, e, c) == h;
    assert base.Keys == {"title", "description", "author", "references", "tags", "models"};
    assert h["tags"] == base["tags"] && h["models"] == base["models"];
  }

  /** Any block with a title and only header-style keys is recognised as a header. */
  lemma HeaderKeysMakeHeader(h: map<string, Value>)
    requires "title" in h
    requires h.Keys <= {"title", "description", "author", "references", "tags", "models", "system"}
    ensures "prompts" !in h
    ensures Validators.IsHeaderBlock(h)
  {
    assert Validators.HeaderKeys[1] == "title";
    forall i | 0 <= i < |Validators.PromptKeys|
      ensures Validators.PromptKeys[i] !in h
    {
      assert Validators.PromptKeys[i] in {"prompt", "messages", "should", "ideal"};
    }
  }

  /** The generated header is recognised as a header block and has no `prompts` key. */
  lemma HeaderIsNoItem(a: PaperAnalysis, e: Entry, c: PipelineConfig)
    ensures "prompts" !in Header(a, e, c)
    ensures Validators.IsHeaderBlock(Header(a, e, c))
  {
    HeaderShape(a, e, c);
    HeaderKeysMakeHeader(Header(a, e, c));
  }

  /**
   * The generator's blocks pass validation with no defect, also when the
   * analysis has no prompts: the empty item list is then dropped as falsy and
   * the header alone is read as a header with no items.
   */
  lemma GeneratedBlueprintValid(a: PaperAnalysis, e: Entry, c: PipelineConfig)
    ensures Validators.Validate(Validators.Blocks(DeterministicBlocks(a, e, c))) == []
  {
    var h := Header(a, e, c);
    var items := Items(a.prompts, a.systemPrompt);
    HeaderShape(a, e, c);
    HeaderKeysMakeHeader(h);
    GeneratedItemsValid(a.prompts, a.systemPrompt);
    HeaderAndItemsValid(h, items);
  }

  /** A header block followed by a list of valid items passes validation, whether or not the list is empty. */
  lemma HeaderAndItemsValid(h: map<string, Value>, items: seq<Value>)
    requires "title" in h && "prompts" !in h && Validators.IsHeaderBlock(h)
    requires Validators.AllItemDefects(items) == []
    ensures Validators.Validate(Validators.Blocks([Dict(h), List(items)])) == []
  {
    var blocks := [Dict(h), List(items)];
    assert h != map[] by { assert "title" in h; }
    if items != [] {
      Validators.HeaderThenListIgnoresRest(h, items, []);
      assert [Dict(h), List(items)] + [] == blocks;
    } else {
      assert Seqs.Filter(blocks, Truthy) == [Dict(h)] by {
        assert blocks[..1] == [Dict(h)];
        assert Seqs.Filter(blocks[..1], Truthy) == [Dict(h)] by {
          assert blocks[..1][..0] == [];
        }
      }
      var docs := [Dict(h)];
      assert Validators.AllDicts(docs) && docs[1..] == [];
      assert Validators.Detect(docs) == Validators.Detected(h, List([]), []);
    }
  }

  // ---------------------------------------------------------------------------
  // File names

  /** `blueprint_filename_for_paper`: a slug of the benchmark name (or the title) plus ".yml". */
  function BlueprintFilename(a: PaperAnalysis, e: Entry): string {
    Utils.Slugify(if a.benchmarkName != "" then a.benchmarkName else e.title, 60) + ".yml"
  }

  /** The suffix rule of `write_blueprint`: ".yml" is appended unless the name ends in ".yml" or ".yaml". */
  function WithYamlSuffix(filename: string): string {
    if EndsWith(filename, ".yml") || EndsWith(filename, ".yaml") then filename else filename + ".yml"
  }

  lemma EndsWithAppended(s: string, suffix: string)
    ensures EndsWith(s + suffix, suffix)
  {
    assert (s + suffix)[|s + suffix| - |suffix|..] == suffix;
  }

  /** The suffix rule always yields a YAML name and changes nothing the second time. */
  lemma SuffixRule(name: string)
    ensures EndsWith(WithYamlSuffix(name), ".yml") || EndsWith(WithYamlSuffix(name), ".yaml")
    ensures WithYamlSuffix(WithYamlSuffix(name)) == WithYamlSuffix(name)
  {
    EndsWithAppended(name, ".yml");
  }

  /** A slug of at most 60 characters plus ".yml" is a YAML name the suffix rule keeps. */
  lemma SlugFilename(slug: string)
    requires Utils.IsSlug(slug) && |slug| <= 60
    ensures var f := slug + ".yml";
      EndsWith(f, ".yml") && f[..|f| - 4] == slug && |f| <= 64 && WithYamlSuffix(f) == f
  {
    EndsWithAppended(slug, ".yml");
    assert (slug + ".yml")[..|slug|] == slug;
  }

  /**
   * The file name is a slug of at most 60 characters followed by ".yml", so
   * writing it adds no second suffix.
   */
  lemma FilenameShape(a: PaperAnalysis, e: Entry)
    ensures var f := BlueprintFilename(a, e);
      EndsWith(f, ".yml") && Utils.IsSlug(f[..|f| - 4]) && |f| <= 64 && WithYamlSuffix(f) == f
  {
    var n := if a.benchmarkName != "" then a.benchmarkName else e.title;
    Utils.SlugifyIsSlug(n, 60);
    SlugFilename(Utils.Slugify(n, 60));
  }
}
