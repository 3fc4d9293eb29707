/**
 * The tracking store: an ordered list of tracked papers, at most one per
 * paper id, with lookup, add-if-absent, status update with a partial field
 * merge, filtering by stage and per-stage counts. Persistence is left out;
 * the timestamps `now` are supplied by the caller.
 */
module Tracking {
  import opened Wrappers
  import opened Seqs
  import opened Models
  import Utils

  // ---------------------------------------------------------------------------
  // Specification functions over the entry list

  predicate UniqueIds(papers: seq<Entry>) {
    forall i, j :: 0 <= i < j < |papers| ==> papers[i].paperId != papers[j].paperId
  }

  /** The position of the first entry with id `id`, or -1 when there is none. */
  function IndexOf(papers: seq<Entry>, id: string): (k: int)
    ensures -1 <= k < |papers|
    ensures k >= 0 ==> papers[k].paperId == id
    ensures forall j :: 0 <= j < |papers| && (k < 0 || j < k) ==> papers[j].paperId != id
  {
    if papers == [] then -1
    else
      var k := IndexOf(papers[..|papers| - 1], id);
      if k >= 0 then k
      else if papers[|papers| - 1].paperId == id then |papers| - 1
      else -1
  }

  /** `get_entry`: the first entry with the id, if any. */
  function Lookup(papers: seq<Entry>, id: string): (r: Option<Entry>)
    ensures r.Some? <==> exists j :: 0 <= j < |papers| && papers[j].paperId == id
    ensures r.Some? ==> r.value in papers && r.value.paperId == id
  {
    var k := IndexOf(papers, id);
    if k < 0 then None else Some(papers[k])
  }

  /** The entry `add_paper` creates for a paper it does not track yet. */
  function NewEntry(p: Paper, now: string): (e: Entry)
    ensures e.paperId == p.paperId && e.title == p.title && e.authors == p.authors
    ensures e.arxivUrl == p.arxivUrl && e.pdfUrl == p.pdfUrl && e.doi == p.doi && e.categories == p.categories
    ensures e.citationCount == p.citationCount && e.influentialCitationCount == p.influentialCitationCount
    ensures e.abstractSnippet == Utils.Truncate(p.summary, 200) && |e.abstractSnippet| <= 200
    ensures e.status == Discovered && e.reason == ""
    ensures e.analysisPath == None && e.blueprintFilename == None && e.blueprintPath == None && e.prUrl == None
    ensures e.promptCount == None && e.hasExplicitRubric == None
    ensures e.discoveryDate == now && e.lastUpdated == now
  {
    DefaultEntry(p.paperId, p.title, p.arxivUrl, now).(
      authors := p.authors,
      pdfUrl := p.pdfUrl,
      doi := p.doi,
      categories := p.categories,
      abstractSnippet := Utils.Truncate(p.summary, 200),
      citationCount := p.citationCount,
      influentialCitationCount := p.influentialCitationCount)
  }

  /** The entry list after `add_paper(p)`. */
  function WithPaper(papers: seq<Entry>, p: Paper, now: string): seq<Entry> {
    if Lookup(papers, p.paperId).Some? then papers else papers + [NewEntry(p, now)]
  }

  /** A keyword argument value of `update_status`. */
  datatype FieldValue = Text(s: string) | Number(n: int) | Flag(b: bool) | NoValue

  datatype Kwarg = Kwarg(name: string, value: FieldValue)

  /** The entry fields a keyword argument may set, under their stored names. */
  const AssignableFields: seq<string> :=
    ["reason", "analysis_path", "blueprint_filename", "blueprint_path", "pr_url",
     "prompt_count", "has_explicit_rubric"]

  function TextOrNone(o: Option<string>): FieldValue {
    if o.Some? then Text(o.value) else NoValue
  }

  /** The current value of an assignable field, as a keyword argument would carry it. */
  function FieldOf(e: Entry, name: string): FieldValue {
    if name == "reason" then Text(e.reason)
    else if name == "analysis_path" then TextOrNone(e.analysisPath)
    else if name == "blueprint_filename" then TextOrNone(e.blueprintFilename)
    else if name == "blueprint_path" then TextOrNone(e.blueprintPath)
    else if name == "pr_url" then TextOrNone(e.prUrl)
    else if name == "prompt_count" then
      (if e.promptCount.Some? then Number(e.promptCount.value) else NoValue)
    else if name == "has_explicit_rubric" then
      (if e.hasExplicitRubric.Some? then Flag(e.hasExplicitRubric.value) else NoValue)
    else NoValue
  }

  /** The value fits the field's declared type. */
  predicate Fits(name: string, v: FieldValue) {
    if name == "reason" then v.Text?
    else if name == "prompt_count" then v.Number? || v.NoValue?
    else if name == "has_explicit_rubric" then v.Flag? || v.NoValue?
    else v.Text? || v.NoValue?
  }

  /** `setattr(entry, key, value)` for a key the entry has; any other key is ignored. */
  function SetField(e: Entry, kw: Kwarg): Entry {
    var v := kw.value;
    if kw.name !in AssignableFields || !Fits(kw.name, v) then e
    else if kw.name == "reason" then e.(reason := v.s)
    else if kw.name == "analysis_path" then e.(analysisPath := if v.Text? then Some(v.s) else None)
    else if kw.name == "blueprint_filename" then e.(blueprintFilename := if v.Text? then Some(v.s) else None)
    else if kw.name == "blueprint_path" then e.(blueprintPath := if v.Text? then Some(v.s) else None)
    else if kw.name == "pr_url" then e.(prUrl := if v.Text? then Some(v.s) else None)
    else if kw.name == "prompt_count" then e.(promptCount := if v.Number? then Some(v.n) else None)
    else e.(hasExplicitRubric := if v.Flag? then Some(v.b) else None)
  }

  /** The keyword arguments applied in order. */
  function ApplyKwargs(e: Entry, kwargs: seq<Kwarg>): Entry
    decreases |kwargs|
  {
    if kwargs == [] then e else ApplyKwargs(SetField(e, kwargs[0]), kwargs[1..])
  }

  /** The entry after `update_status(entry.paper_id, status, **kwargs)`. */
  function Updated(e: Entry, status: Stage, kwargs: seq<Kwarg>, now: string): Entry {
    ApplyKwargs(e.(status := status, lastUpdated := now), kwargs)
  }

  /** The entry list after `update_status(id, status, **kwargs)`. */
  function StatusUpdated(papers: seq<Entry>, id: string, status: Stage, kwargs: seq<Kwarg>, now: string): seq<Entry> {
    var k := IndexOf(papers, id);
    if k < 0 then papers else papers[k := Updated(papers[k], status, kwargs, now)]
  }

  function StatusIs(s: Stage): Entry -> bool {
    (e: Entry) => e.status == s
  }

  /** The number of entries at stage `s`. */
  function CountAt(papers: seq<Entry>, s: Stage): nat {
    CountWhere(papers, StatusIs(s))
  }

  // ---------------------------------------------------------------------------
  // The store

  class Tracker {
    var papers: seq<Entry>
    var version: int
    var lastUpdated: string

    /** Ids are unique; every operation keeps this once it holds. */
    predicate Valid()
      reads this
    {
      UniqueIds(papers)
    }

    /** Opens the store: the stored database if there is a non-empty one, else a fresh one. */
    constructor Open(stored: Option<TrackingDatabase>, now: string)
      ensures stored.None? ==> papers == [] && version == 1 && lastUpdated == now
      ensures stored.Some? ==>
        papers == stored.value.papers && version == stored.value.version &&
        lastUpdated == stored.value.lastUpdated
      ensures stored.None? || UniqueIds(stored.value.papers) ==> Valid()
    {
      if stored.Some? {
        papers := stored.value.papers;
        version := stored.value.version;
        lastUpdated := stored.value.lastUpdated;
      } else {
        var db := EmptyDatabase(now);
        papers := db.papers;
        version := db.version;
        lastUpdated := db.lastUpdated;
      }
    }

    /** `get_entry`: a linear search for the first entry with the id. */
    method GetEntry(id: string) returns (r: Option<Entry>)
      ensures r == Lookup(papers, id)
    {
      var i := 0;
      while i < |papers|
        invariant 0 <= i <= |papers|
        invariant forall j :: 0 <= j < i ==> papers[j].paperId != id
      {
        if papers[i].paperId == id {
          return Some(papers[i]);
        }
        i := i + 1;
      }
      return None;
    }

    method HasPaper(id: string) returns (b: bool)
      ensures b <==> exists j :: 0 <= j < |papers| && papers[j].paperId == id
    {
      var e := GetEntry(id);
      b := e.Some?;
    }

    /** `add_paper`: returns the tracked entry, appending a new one only for an untracked id. */
    method AddPaper(p: Paper, now: string) returns (e: Entry)
      modifies this
      ensures papers == WithPaper(old(papers), p, now)
      ensures e == Lookup(papers, p.paperId).value
      ensures version == old(version)
      ensures lastUpdated == if Lookup(old(papers), p.paperId).Some? then old(lastUpdated) else now
      ensures old(Valid()) ==> Valid()
    {
      var existing := GetEntry(p.paperId);
      if existing.Some? {
        return existing.value;
      }
      e := NewEntry(p, now);
      ghost var before := papers;
      papers := papers + [e];
      lastUpdated := now;
      AddedEntryFound(before, p, now);
      if UniqueIds(before) {
        WithPaperKeepsUnique(before, p, now);
      }
    }

    /** `update_status`: `None` for an unknown id; otherwise the updated entry. */
    method UpdateStatus(id: string, status: Stage, kwargs: seq<Kwarg>, now: string) returns (r: Option<Entry>)
      modifies this
      ensures papers == StatusUpdated(old(papers), id, status, kwargs, now)
      ensures r == if Lookup(old(papers), id).None? then None
                   else Some(Updated(Lookup(old(papers), id).value, status, kwargs, now))
      ensures version == old(version)
      ensures lastUpdated == if r.None? then old(lastUpdated) else now
      ensures old(Valid()) ==> Valid()
    {
      var i := 0;
      while i < |papers|
        invariant 0 <= i <= |papers|
        invariant forall j :: 0 <= j < i ==> papers[j].paperId != id
      {
        if papers[i].paperId == id {
          var updated := Updated(papers[i], status, kwargs, now);
          ghost var before := papers;
          papers := papers[i := updated];
          lastUpdated := now;
          StatusUpdatedKeepsIds(before, id, status, kwargs, now);
          return Some(updated);
        }
        i := i + 1;
      }
      return None;
    }

    /** `get_papers_by_status`. */
    function PapersByStatus(s: Stage): seq<Entry>
      reads this
    {
      Filter(papers, StatusIs(s))
    }

    /** `get_status_summary`: counts per stage name, built in one pass over the entries. */
    method GetStatusSummary() returns (summary: map<string, nat>)
      ensures forall s: Stage :: StageName(s) in summary <==> CountAt(papers, s) > 0
      ensures forall s: Stage :: StageName(s) in summary ==> summary[StageName(s)] == CountAt(papers, s)
      ensures forall k :: k in summary ==> exists s: Stage :: k == StageName(s)
    {
      summary := map[];
      var i := 0;
      while i < |papers|
        invariant 0 <= i <= |papers|
        invariant forall s: Stage :: StageName(s) in summary <==> CountAt(papers[..i], s) > 0
        invariant forall s: Stage :: StageName(s) in summary ==> summary[StageName(s)] == CountAt(papers[..i], s)
        invariant forall k :: k in summary ==> exists s: Stage :: k == StageName(s)
      {
        var key := StageName(papers[i].status);
        forall s: Stage
          ensures CountAt(papers[..i + 1], s) == CountAt(papers[..i], s) + (if papers[i].status == s then 1 else 0)
        {
          CountStep(papers, i, StatusIs(s));
        }
        NamesDistinct();
        summary := summary[key := (if key in summary then summary[key] else 0) + 1];
        i := i + 1;
      }
      assert papers[..i] == papers;
    }
  }

  // ---------------------------------------------------------------------------
  // Properties

  lemma NamesDistinct()
    ensures forall s, t :: StageName(s) == StageName(t) ==> s == t
  {
    ThirteenStages();
  }

  /** `has_paper` holds exactly when `get_entry` finds an entry, and that entry is the first with the id. */
  lemma LookupIsFirstMatch(papers: seq<Entry>, id: string)
    ensures Lookup(papers, id).Some? ==>
      exists k :: 0 <= k < |papers| && Lookup(papers, id).value == papers[k] &&
        forall j :: 0 <= j < k ==> papers[j].paperId != id
  {
    var k := IndexOf(papers, id);
    if k >= 0 {
      assert Lookup(papers, id).value == papers[k];
    }
  }

  lemma AddedEntryFound(papers: seq<Entry>, p: Paper, now: string)
    requires Lookup(papers, p.paperId).None?
    ensures Lookup(papers + [NewEntry(p, now)], p.paperId) == Some(NewEntry(p, now))
  {
    var ps := papers + [NewEntry(p, now)];
    assert ps[..|ps| - 1] == papers;
  }

  /**
   * Adding a tracked id changes nothing; adding a new one appends exactly one
   * entry, at stage DISCOVERED, after the unchanged earlier entries. Either way
   * ids stay unique.
   */
  lemma WithPaperKeepsUnique(papers: seq<Entry>, p: Paper, now: string)
    requires UniqueIds(papers)
    ensures UniqueIds(WithPaper(papers, p, now))
    ensures Lookup(papers, p.paperId).Some? ==> WithPaper(papers, p, now) == papers
    ensures Lookup(papers, p.paperId).None? ==>
      var ps := WithPaper(papers, p, now);
      |ps| == |papers| + 1 && ps[..|papers|] == papers && ps[|papers|].status == Discovered
  {
    var ps := WithPaper(papers, p, now);
    if Lookup(papers, p.paperId).None? {
      assert ps[..|papers|] == papers;
    }
  }

  /** Adding the same paper twice is the same as adding it once. */
  lemma WithPaperIdempotent(papers: seq<Entry>, p: Paper, now: string, later: string)
    ensures WithPaper(WithPaper(papers, p, now), p, later) == WithPaper(papers, p, now)
  {
    if Lookup(papers, p.paperId).None? {
      AddedEntryFound(papers, p, now);
    }
  }

  /**
   * A status update on an unknown id changes nothing; otherwise it rewrites
   * only the matched entry, keeping the order and every paper id.
   */
  lemma StatusUpdatedKeepsIds(papers: seq<Entry>, id: string, status: Stage, kwargs: seq<Kwarg>, now: string)
    ensures var ps := StatusUpdated(papers, id, status, kwargs, now);
      |ps| == |papers| &&
      (Lookup(papers, id).None? ==> ps == papers) &&
      (forall j :: 0 <= j < |papers| ==> ps[j].paperId == papers[j].paperId) &&
      (forall j :: 0 <= j < |papers| && papers[j].paperId != id ==> ps[j] == papers[j]) &&
      (UniqueIds(papers) ==> UniqueIds(ps))
  {
    var k := IndexOf(papers, id);
    if k >= 0 {
      UpdatedKeepsIdentity(papers[k], status, kwargs, now);
    }
  }

  /** The identity and bibliographic fields are never touched by a status update. */
  predicate SameIdentity(a: Entry, b: Entry) {
    a.paperId == b.paperId && a.title == b.title && a.authors == b.authors &&
    a.arxivUrl == b.arxivUrl && a.pdfUrl == b.pdfUrl && a.doi == b.doi &&
    a.categories == b.categories && a.abstractSnippet == b.abstractSnippet &&
    a.citationCount == b.citationCount && a.influentialCitationCount == b.influentialCitationCount &&
    a.discoveryDate == b.discoveryDate
  }

  lemma {:induction false} ApplyKwargsKeepsIdentity(e: Entry, kwargs: seq<Kwarg>)
    ensures SameIdentity(ApplyKwargs(e, kwargs), e)
    ensures ApplyKwargs(e, kwargs).status == e.status
    ensures ApplyKwargs(e, kwargs).lastUpdated == e.lastUpdated
    decreases |kwargs|
  {
    if kwargs != [] {
      ApplyKwargsKeepsIdentity(SetField(e, kwargs[0]), kwargs[1..]);
    }
  }

  /** The update sets the stage and the timestamp and leaves the identity fields alone. */
  lemma UpdatedKeepsIdentity(e: Entry, status: Stage, kwargs: seq<Kwarg>, now: string)
    ensures var u := Updated(e, status, kwargs, now);
      u.status == status && u.lastUpdated == now && SameIdentity(u, e)
  {
    ApplyKwargsKeepsIdentity(e.(status := status, lastUpdated := now), kwargs);
  }

  /**
   * A keyword argument whose name is not a field of the entry has no effect;
   * one that names an assignable field sets that field and no other.
   */
  lemma SetFieldEffect(e: Entry, kw: Kwarg)
    ensures kw.name !in AssignableFields ==> SetField(e, kw) == e
    ensures kw.name in AssignableFields && Fits(kw.name, kw.value) ==>
      FieldOf(SetField(e, kw), kw.name) == kw.value &&
      forall other :: other != kw.name ==> FieldOf(SetField(e, kw), other) == FieldOf(e, other)
  {
  }

  /** A field that no keyword argument names keeps its value. */
  lemma {:induction false} UnnamedFieldKept(e: Entry, kwargs: seq<Kwarg>, name: string)
    requires forall i :: 0 <= i < |kwargs| ==> kwargs[i].name != name
    ensures FieldOf(ApplyKwargs(e, kwargs), name) == FieldOf(e, name)
    decreases |kwargs|
  {
    if kwargs != [] {
      SetFieldEffect(e, kwargs[0]);
      UnnamedFieldKept(SetField(e, kwargs[0]), kwargs[1..], name);
    }
  }

  /** When several keyword arguments name the same field, the last one wins. */
  lemma {:induction false} LastKwargWins(e: Entry, kwargs: seq<Kwarg>, kw: Kwarg, rest: seq<Kwarg>)
    requires kw.name in AssignableFields && Fits(kw.name, kw.value)
    requires forall i :: 0 <= i < |rest| ==> rest[i].name != kw.name
    ensures FieldOf(ApplyKwargs(e, kwargs + [kw] + rest), kw.name) == kw.value
    decreases |kwargs|
  {
    if kwargs == [] {
      assert [kw] + rest == [kw] + rest;
      assert ([kw] + rest)[1..] == rest;
      SetFieldEffect(e, kw);
      UnnamedFieldKept(SetField(e, kw), rest, kw.name);
    } else {
      assert (kwargs + [kw] + rest)[1..] == kwargs[1..] + [kw] + rest;
      LastKwargWins(SetField(e, kwargs[0]), kwargs[1..], kw, rest);
    }
  }

  /** `get_papers_by_status` returns exactly the entries at that stage, in stored order. */
  lemma PapersByStatusExact(papers: seq<Entry>, s: Stage)
    ensures forall e :: e in Filter(papers, StatusIs(s)) <==> e in papers && e.status == s
    ensures IsSubsequence(Filter(papers, StatusIs(s)), papers)
    ensures |Filter(papers, StatusIs(s))| == CountAt(papers, s)
  {
    forall e ensures e in Filter(papers, StatusIs(s)) <==> e in papers && e.status == s {
      FilterMembership(papers, StatusIs(s), e);
    }
    FilterIsSubsequence(papers, StatusIs(s));
    CountIsFilterLength(papers, StatusIs(s));
  }

  /** The counts over the listed stages. */
  function SumCounts(papers: seq<Entry>, stages: seq<Stage>): nat {
    if stages == [] then 0
    else SumCounts(papers, stages[..|stages| - 1]) + CountAt(papers, stages[|stages| - 1])
  }

  /** How often `s` occurs in `stages`. */
  function Occurrences(stages: seq<Stage>, s: Stage): nat {
    if stages == [] then 0
    else Occurrences(stages[..|stages| - 1], s) + (if stages[|stages| - 1] == s then 1 else 0)
  }

  lemma {:induction false} SumCountsSnoc(papers: seq<Entry>, e: Entry, stages: seq<Stage>)
    ensures SumCounts(papers + [e], stages) == SumCounts(papers, stages) + Occurrences(stages, e.status)
  {
    if stages != [] {
      SumCountsSnoc(papers, e, stages[..|stages| - 1]);
      var s := stages[|stages| - 1];
      assert (papers + [e])[..|papers|] == papers;
      assert CountAt(papers + [e], s) == CountAt(papers, s) + (if e.status == s then 1 else 0);
    }
  }

  lemma {:induction false} OccursOnce(stages: seq<Stage>, s: Stage)
    requires forall i, j :: 0 <= i < j < |stages| ==> stages[i] != stages[j]
    ensures Occurrences(stages, s) == if s in stages then 1 else 0
  {
    if stages != [] {
      var init := stages[..|stages| - 1];
      OccursOnce(init, s);
      assert stages == init + [stages[|stages| - 1]];
    }
  }

  lemma EachStageOnce(s: Stage)
    ensures Occurrences(AllStages(), s) == 1
  {
    ThirteenStages();
    OccursOnce(AllStages(), s);
  }

  /** The per-stage counts add up to the number of tracked entries. */
  lemma {:induction false} CountsSumToTotal(papers: seq<Entry>)
    ensures SumCounts(papers, AllStages()) == |papers|
  {
    if papers != [] {
      var init := papers[..|papers| - 1];
      var e := papers[|papers| - 1];
      CountsSumToTotal(init);
      assert papers == init + [e];
      SumCountsSnoc(init, e, AllStages());
      EachStageOnce(e.status);
    } else {
      NothingCounted(AllStages());
    }
  }

  lemma {:induction false} NothingCounted(stages: seq<Stage>)
    ensures SumCounts([], stages) == 0
  {
    if stages != [] {
      NothingCounted(stages[..|stages| - 1]);
    }
  }
}
