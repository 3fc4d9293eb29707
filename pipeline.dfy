/**
 * The command drivers of `pipeline.py`: each selects tracked entries, works
 * through them one at a time and records every outcome with
 * `update_status`. Downloads, the local PDF and Blueprint files, the Gemini
 * passes, YAML parsing and pull-request creation are oracles; every command
 * reads the clock once, as `now`.
 */
module Pipeline {
  import opened Wrappers
  import opened Text
  import opened Seqs
  import opened Values
  import opened Models
  import opened Tracking
  import Stages
  import Discovery
  import Analyzer
  import Validators
  import BlueprintGenerator

  // ---------------------------------------------------------------------------
  // Runs of status updates

  /** One `update_status` call on an entry. */
  datatype Update = Update(status: Stage, kwargs: seq<Kwarg>)

  function StagesOf(us: seq<Update>): (r: seq<Stage>)
    ensures |r| == |us| && forall i :: 0 <= i < |us| ==> r[i] == us[i].status
  {
    seq(|us|, i requires 0 <= i < |us| => us[i].status)
  }

  /** The entry list after the updates, in order, to the entry with the id. */
  function Apply(papers: seq<Entry>, id: string, us: seq<Update>, now: string): seq<Entry>
    decreases |us|
  {
    if us == [] then papers
    else Apply(StatusUpdated(papers, id, us[0].status, us[0].kwargs, now), id, us[1..], now)
  }

  /** The entry after the updates. */
  function Outcome(e: Entry, us: seq<Update>, now: string): Entry
    decreases |us|
  {
    if us == [] then e else Outcome(Updated(e, us[0].status, us[0].kwargs, now), us[1..], now)
  }

  /** The entry list after a command has worked through `entries` in order, with `plan` saying what it does to each. */
  function Run(papers: seq<Entry>, entries: seq<Entry>, plan: Entry -> seq<Update>, now: string): seq<Entry>
  {
    if entries == [] then papers
    else
      var k := |entries| - 1;
      Apply(Run(papers, entries[..k], plan, now), entries[k].paperId, plan(entries[k]), now)
  }

  function Ids(entries: seq<Entry>): set<string> {
    set e | e in entries :: e.paperId
  }

  /** The entries a command took from the store: distinct ids, each one a stored entry. */
  predicate Snapshot(papers: seq<Entry>, entries: seq<Entry>) {
    UniqueIds(entries) && forall e :: e in entries ==> e in papers
  }

  lemma RunStep(papers: seq<Entry>, entries: seq<Entry>, i: nat, plan: Entry -> seq<Update>, now: string)
    requires i < |entries|
    ensures Run(papers, entries[..i + 1], plan, now) ==
            Apply(Run(papers, entries[..i], plan, now), entries[i].paperId, plan(entries[i]), now)
  {
    assert entries[..i + 1][..i] == entries[..i];
  }

  lemma ApplyNone(papers: seq<Entry>, id: string, now: string)
    ensures Apply(papers, id, [], now) == papers
  {
  }

  lemma ApplyOne(papers: seq<Entry>, id: string, u: Update, now: string)
    ensures Apply(papers, id, [u], now) == StatusUpdated(papers, id, u.status, u.kwargs, now)
  {
    var ps := StatusUpdated(papers, id, u.status, u.kwargs, now);
    assert [u][1..] == [];
    assert Apply(ps, id, [], now) == ps;
  }

  lemma ApplyTwo(papers: seq<Entry>, id: string, u: Update, v: Update, now: string)
    ensures Apply(papers, id, [u, v], now) ==
            StatusUpdated(StatusUpdated(papers, id, u.status, u.kwargs, now), id, v.status, v.kwargs, now)
  {
    var ps := StatusUpdated(papers, id, u.status, u.kwargs, now);
    assert [u, v][1..] == [v];
    ApplyOne(ps, id, v, now);
  }

  /** With unique ids, a status update rewrites the one entry with the id and no other. */
  lemma StatusUpdatedAt(papers: seq<Entry>, id: string, status: Stage, kwargs: seq<Kwarg>, now: string)
    requires UniqueIds(papers)
    ensures var ps := StatusUpdated(papers, id, status, kwargs, now);
      |ps| == |papers| && UniqueIds(ps) &&
      forall j :: 0 <= j < |papers| ==>
        ps[j] == if papers[j].paperId == id then Updated(papers[j], status, kwargs, now) else papers[j]
  {
    StatusUpdatedKeepsIds(papers, id, status, kwargs, now);
  }

  lemma {:induction false} OutcomeKeepsIdentity(e: Entry, us: seq<Update>, now: string)
    ensures SameIdentity(Outcome(e, us, now), e)
    decreases |us|
  {
    if us != [] {
      var e' := Updated(e, us[0].status, us[0].kwargs, now);
      UpdatedKeepsIdentity(e, us[0].status, us[0].kwargs, now);
      OutcomeKeepsIdentity(e', us[1..], now);
    }
  }

  /** With unique ids, the updates to one id change that entry to its outcome and no other. */
  lemma {:induction false} ApplyAt(papers: seq<Entry>, id: string, us: seq<Update>, now: string)
    requires UniqueIds(papers)
    ensures var ps := Apply(papers, id, us, now);
      |ps| == |papers| && UniqueIds(ps) &&
      forall j :: 0 <= j < |papers| ==>
        ps[j] == if papers[j].paperId == id then Outcome(papers[j], us, now) else papers[j]
    decreases |us|
  {
    if us != [] {
      var ps := StatusUpdated(papers, id, us[0].status, us[0].kwargs, now);
      StatusUpdatedAt(papers, id, us[0].status, us[0].kwargs, now);
      ApplyAt(ps, id, us[1..], now);
      forall j | 0 <= j < |papers| && papers[j].paperId == id
        ensures ps[j].paperId == id
      {
        UpdatedKeepsIdentity(papers[j], us[0].status, us[0].kwargs, now);
      }
    }
  }

  lemma IdsSnoc(entries: seq<Entry>)
    requires entries != []
    ensures Ids(entries) == Ids(entries[..|entries| - 1]) + {entries[|entries| - 1].paperId}
  {
    assert entries == entries[..|entries| - 1] + [entries[|entries| - 1]];
  }

  lemma OutcomeTwo(e: Entry, u: Update, v: Update, now: string)
    ensures Outcome(e, [u, v], now) == Updated(Updated(e, u.status, u.kwargs, now), v.status, v.kwargs, now)
  {
    var e1 := Updated(e, u.status, u.kwargs, now);
    var e2 := Updated(e1, v.status, v.kwargs, now);
    assert [u, v][1..] == [v] && [v][1..] == [];
    assert Outcome(e2, [], now) == e2;
    assert Outcome(e1, [v], now) == e2;
  }

  lemma OutcomeOne(e: Entry, u: Update, now: string)
    ensures Outcome(e, [u], now) == Updated(e, u.status, u.kwargs, now)
  {
    var e1 := Updated(e, u.status, u.kwargs, now);
    assert [u][1..] == [];
    assert Outcome(e1, [], now) == e1;
  }

  lemma KwargsOne(e: Entry, a: Kwarg)
    ensures ApplyKwargs(e, [a]) == SetField(e, a)
  {
    assert [a][1..] == [];
  }

  lemma KwargsTwo(e: Entry, a: Kwarg, b: Kwarg)
    ensures ApplyKwargs(e, [a, b]) == SetField(SetField(e, a), b)
  {
    assert [a, b][1..] == [b];
    KwargsOne(SetField(e, a), b);
  }

  lemma KwargsThree(e: Entry, a: Kwarg, b: Kwarg, c: Kwarg)
    ensures ApplyKwargs(e, [a, b, c]) == SetField(SetField(SetField(e, a), b), c)
  {
    assert [a, b, c][1..] == [b, c];
    KwargsTwo(SetField(e, a), b, c);
  }

  lemma SnapshotPrefix(papers: seq<Entry>, entries: seq<Entry>, k: nat)
    requires Snapshot(papers, entries) && k <= |entries|
    ensures Snapshot(papers, entries[..k])
  {
    forall e | e in entries[..k] ensures e in papers {
      var i :| 0 <= i < k && entries[..k][i] == e;
      assert e == entries[i];
    }
  }

  /**
   * A command's run over a snapshot of the store: every selected entry ends
   * at the outcome of its own plan, every other entry is unchanged, and the
   * order, the length and the uniqueness of ids are kept.
   */
  lemma {:induction false} RunEffect(papers: seq<Entry>, entries: seq<Entry>, plan: Entry -> seq<Update>, now: string)
    requires UniqueIds(papers) && Snapshot(papers, entries)
    ensures var ps := Run(papers, entries, plan, now);
      |ps| == |papers| && UniqueIds(ps) &&
      forall j :: 0 <= j < |papers| ==>
        ps[j] == if papers[j].paperId in Ids(entries) then Outcome(papers[j], plan(papers[j]), now) else papers[j]
  {
    if entries != [] {
      var k := |entries| - 1;
      var last := entries[k];
      SnapshotPrefix(papers, entries, k);
      RunEffect(papers, entries[..k], plan, now);
      var before := Run(papers, entries[..k], plan, now);
      ApplyAt(before, last.paperId, plan(last), now);
      var ps := Run(papers, entries, plan, now);
      forall j | 0 <= j < |papers|
        ensures ps[j] == if papers[j].paperId in Ids(entries) then Outcome(papers[j], plan(papers[j]), now) else papers[j]
      {
        RunEffectAt(papers, entries, plan, now, before[j], j);
      }
    }
  }

  /** One entry across the last step of a run: `b` is the entry before the step. */
  lemma RunEffectAt(papers: seq<Entry>, entries: seq<Entry>, plan: Entry -> seq<Update>, now: string, b: Entry, j: nat)
    requires UniqueIds(papers) && Snapshot(papers, entries) && entries != [] && j < |papers|
    requires var k := |entries| - 1;
      b == if papers[j].paperId in Ids(entries[..k]) then Outcome(papers[j], plan(papers[j]), now) else papers[j]
    ensures var last := entries[|entries| - 1];
      (if b.paperId == last.paperId then Outcome(b, plan(last), now) else b) ==
      (if papers[j].paperId in Ids(entries) then Outcome(papers[j], plan(papers[j]), now) else papers[j])
  {
    var k := |entries| - 1;
    var last := entries[k];
    var id := papers[j].paperId;
    IdsSnoc(entries);
    OutcomeKeepsIdentity(papers[j], plan(papers[j]), now);
    assert b.paperId == id;
    if id in Ids(entries[..k]) {
      var e :| e in entries[..k] && e.paperId == id;
      var i :| 0 <= i < k && entries[..k][i] == e;
      assert entries[i] == e && entries[k] == last && i < k;
      assert id != last.paperId;
    } else if id == last.paperId {
      assert last in papers;
      var i :| 0 <= i < |papers| && papers[i] == last;
      assert i == j;
    }
  }

  // ---------------------------------------------------------------------------
  // Selection

  /**
   * The entries a command works on: with a (non-empty) paper id, the entry
   * with that id if there is one, at whatever stage it is; otherwise the
   * entries at the input stage, in stored order.
   */
  function Selected(papers: seq<Entry>, paperId: Option<string>, stage: Stage): seq<Entry> {
    if paperId.Some? && paperId.value != "" then
      var e := Lookup(papers, paperId.value);
      if e.Some? then [e.value] else []
    else Filter(papers, StatusIs(stage))
  }

  lemma {:induction false} FilterKeepsUnique(papers: seq<Entry>, p: Entry -> bool)
    requires UniqueIds(papers)
    ensures UniqueIds(Filter(papers, p))
  {
    if papers != [] {
      var init := papers[..|papers| - 1];
      var last := papers[|papers| - 1];
      FilterKeepsUnique(init, p);
      var f := Filter(init, p);
      forall x | x in f ensures x.paperId != last.paperId {
        FilterMembership(init, p, x);
        var i :| 0 <= i < |init| && init[i] == x;
        assert papers[i] == x;
      }
    }
  }

  lemma FilterSnapshot(papers: seq<Entry>, p: Entry -> bool)
    requires UniqueIds(papers)
    ensures Snapshot(papers, Filter(papers, p))
  {
    FilterKeepsUnique(papers, p);
    forall e | e in Filter(papers, p) ensures e in papers {
      FilterMembership(papers, p, e);
    }
  }

  /** The selection is a snapshot of the store; without an id it is exactly the entries at the stage. */
  lemma SelectedSnapshot(papers: seq<Entry>, paperId: Option<string>, stage: Stage)
    requires UniqueIds(papers)
    ensures Snapshot(papers, Selected(papers, paperId, stage))
    ensures paperId.None? ==> forall e :: e in Selected(papers, paperId, stage) <==> e in papers && e.status == stage
    ensures paperId.Some? && paperId.value != "" ==> |Selected(papers, paperId, stage)| <= 1
  {
    if paperId.Some? && paperId.value != "" {
    } else {
      FilterSnapshot(papers, StatusIs(stage));
      forall e ensures e in Selected(papers, paperId, stage) <==> e in papers && e.status == stage {
        FilterMembership(papers, StatusIs(stage), e);
      }
    }
  }

  /** Reads the selection from the store, as each driver does before its loop. */
  method Select(t: Tracker, paperId: Option<string>, stage: Stage) returns (entries: seq<Entry>)
    ensures entries == Selected(t.papers, paperId, stage)
  {
    if paperId.Some? && paperId.value != "" {
      var e := t.GetEntry(paperId.value);
      entries := if e.Some? then [e.value] else [];
    } else {
      entries := t.PapersByStatus(stage);
    }
  }

  // ---------------------------------------------------------------------------
  // discover

  /** The store after `cmd_discover` has offered it each found paper in order: an untracked id is added, a tracked one skipped. */
  function Tracked(papers: seq<Entry>, found: seq<Paper>, now: string): seq<Entry> {
    if found == [] then papers
    else WithPaper(Tracked(papers, found[..|found| - 1], now), found[|found| - 1], now)
  }

  /** `cmd_discover`: returns how many papers were added and how many were already tracked. */
  method CmdDiscover(t: Tracker, config: PipelineConfig, query: Option<string>, maxResults: Option<int>,
                     arxiv: (string, int) -> seq<Discovery.ArxivResult>, s2: (string, nat) -> Discovery.S2Reply, now: string)
    returns (added: nat, skipped: nat)
    modifies t
    ensures var found := Discovery.Discovered(config, query, maxResults, arxiv, s2);
      t.papers == Tracked(old(t.papers), found, now) &&
      added + skipped == |found| && |t.papers| == |old(t.papers)| + added
    ensures old(t.Valid()) ==> t.Valid()
  {
    var found := Discovery.DiscoverPapers(config, query, maxResults, arxiv, s2);
    added, skipped := TrackAll(t, found, now);
  }

  /** The loop of `cmd_discover` over the found papers. */
  method TrackAll(t: Tracker, found: seq<Paper>, now: string) returns (added: nat, skipped: nat)
    modifies t
    ensures t.papers == Tracked(old(t.papers), found, now)
    ensures added + skipped == |found| && |t.papers| == |old(t.papers)| + added
    ensures old(t.Valid()) ==> t.Valid()
  {
    ghost var papers := t.papers;
    added, skipped := 0, 0;
    var i := 0;
    while i < |found|
      invariant 0 <= i <= |found|
      invariant t.papers == Tracked(papers, found[..i], now)
      invariant added + skipped == i && |t.papers| == |papers| + added
      invariant old(t.Valid()) ==> t.Valid()
    {
      TrackedStep(papers, found, i, now);
      var isNew := TrackOne(t, found[i], now);
      if isNew {
        added := added + 1;
      } else {
        skipped := skipped + 1;
      }
      i := i + 1;
    }
    assert found[..i] == found;
  }

  lemma TrackedStep(papers: seq<Entry>, found: seq<Paper>, i: nat, now: string)
    requires i < |found|
    ensures Tracked(papers, found[..i + 1], now) == WithPaper(Tracked(papers, found[..i], now), found[i], now)
  {
    assert found[..i + 1][..i] == found[..i];
  }

  /** One pass of the discovery loop: `has_paper`, then `add_paper` for an untracked id. */
  method TrackOne(t: Tracker, p: Paper, now: string) returns (isNew: bool)
    modifies t
    ensures t.papers == WithPaper(old(t.papers), p, now)
    ensures isNew == Lookup(old(t.papers), p.paperId).None?
    ensures |t.papers| == |old(t.papers)| + (if isNew then 1 else 0)
    ensures old(t.Valid()) ==> t.Valid()
  {
    var tracked := t.HasPaper(p.paperId);
    isNew := !tracked;
    if !tracked {
      var e := t.AddPaper(p, now);
    }
  }

  /** Discovery only appends: the earlier entries stay as they were and ids stay unique. */
  lemma {:induction false} TrackedExtends(papers: seq<Entry>, found: seq<Paper>, now: string)
    requires UniqueIds(papers)
    ensures var ps := Tracked(papers, found, now);
      UniqueIds(ps) && papers <= ps && |ps| <= |papers| + |found|
  {
    if found != [] {
      var k := |found| - 1;
      TrackedExtends(papers, found[..k], now);
      WithPaperKeepsUnique(Tracked(papers, found[..k], now), found[k], now);
    }
  }

  /** Every found paper is tracked after discovery. */
  lemma {:induction false} TrackedCovers(papers: seq<Entry>, found: seq<Paper>, now: string)
    ensures forall i :: 0 <= i < |found| ==> Lookup(Tracked(papers, found, now), found[i].paperId).Some?
  {
    if found != [] {
      var k := |found| - 1;
      var prev := Tracked(papers, found[..k], now);
      TrackedCovers(papers, found[..k], now);
      var ps := Tracked(papers, found, now);
      assert prev <= ps;
      forall i | 0 <= i < |found| ensures Lookup(ps, found[i].paperId).Some? {
        if i < k {
          assert found[..k][i] == found[i];
          var j :| 0 <= j < |prev| && prev[j].paperId == found[i].paperId;
          assert ps[j] == prev[j];
        } else if Lookup(prev, found[k].paperId).None? {
          AddedEntryFound(prev, found[k], now);
        }
      }
    }
  }

  /** Each entry discovery appends is a new DISCOVERED entry for one of the found papers. */
  lemma {:induction false} TrackedNew(papers: seq<Entry>, found: seq<Paper>, now: string)
    ensures var ps := Tracked(papers, found, now);
      |papers| <= |ps| &&
      forall j :: |papers| <= j < |ps| ==> exists i :: 0 <= i < |found| && ps[j] == NewEntry(found[i], now)
  {
    if found != [] {
      var k := |found| - 1;
      var prev := Tracked(papers, found[..k], now);
      TrackedNew(papers, found[..k], now);
      var ps := Tracked(papers, found, now);
      assert prev <= ps;
      forall j | |papers| <= j < |ps| ensures exists i :: 0 <= i < |found| && ps[j] == NewEntry(found[i], now) {
        if j < |prev| {
          var i :| 0 <= i < k && prev[j] == NewEntry(found[..k][i], now);
          assert ps[j] == NewEntry(found[i], now);
        } else {
          assert ps[j] == NewEntry(found[k], now);
        }
      }
    }
  }

  /** Offering papers that are all tracked already changes nothing. */
  lemma {:induction false} TrackedNoop(papers: seq<Entry>, found: seq<Paper>, now: string)
    requires forall i :: 0 <= i < |found| ==> Lookup(papers, found[i].paperId).Some?
    ensures Tracked(papers, found, now) == papers
  {
    if found != [] {
      var k := |found| - 1;
      forall i | 0 <= i < k ensures Lookup(papers, found[..k][i].paperId).Some? {
        assert found[..k][i] == found[i];
      }
      TrackedNoop(papers, found[..k], now);
    }
  }

  /** Running discovery again on the same results, at any later time, adds nothing. */
  lemma TrackedIdempotent(papers: seq<Entry>, found: seq<Paper>, now: string, later: string)
    requires UniqueIds(papers)
    ensures Tracked(Tracked(papers, found, now), found, later) == Tracked(papers, found, now)
  {
    TrackedCovers(papers, found, now);
    TrackedNoop(Tracked(papers, found, now), found, later);
  }

  // ---------------------------------------------------------------------------
  // download

  /** What `cmd_download` does to one entry; `download` says whether the PDF download of a paper succeeds. */
  function DownloadPlan(download: string -> bool): Entry -> seq<Update> {
    (e: Entry) => [Update(Downloading, []),
          if download(e.paperId) then Update(Downloaded, [])
          else Update(Skipped, [Kwarg("reason", Text("PDF download failed"))])]
  }

  function DownloadSucceeded(download: string -> bool): Entry -> bool {
    (e: Entry) => download(e.paperId)
  }

  /** One pass of the download loop. */
  method DownloadOne(t: Tracker, e: Entry, download: string -> bool, now: string) returns (ok: bool)
    modifies t
    ensures t.papers == Apply(old(t.papers), e.paperId, DownloadPlan(download)(e), now)
    ensures ok == download(e.paperId)
    ensures old(t.Valid()) ==> t.Valid()
  {
    ghost var before := t.papers;
    var r := t.UpdateStatus(e.paperId, Downloading, [], now);
    var u: Update;
    ok := download(e.paperId);
    if ok {
      u := Update(Downloaded, []);
      r := t.UpdateStatus(e.paperId, Downloaded, [], now);
    } else {
      u := Update(Skipped, [Kwarg("reason", Text("PDF download failed"))]);
      r := t.UpdateStatus(e.paperId, Skipped, [Kwarg("reason", Text("PDF download failed"))], now);
    }
    ApplyTwo(before, e.paperId, Update(Downloading, []), u, now);
    assert DownloadPlan(download)(e) == [Update(Downloading, []), u];
  }

  /** `cmd_download`: returns the number of successful downloads and the number of selected entries. */
  method CmdDownload(t: Tracker, paperId: Option<string>, download: string -> bool, now: string)
    returns (success: nat, total: nat)
    modifies t
    ensures var entries := Selected(old(t.papers), paperId, Discovered);
      t.papers == Run(old(t.papers), entries, DownloadPlan(download), now) &&
      total == |entries| && success == CountWhere(entries, DownloadSucceeded(download))
    ensures old(t.Valid()) ==> t.Valid()
  {
    var entries := Select(t, paperId, Discovered);
    ghost var papers := t.papers;
    total := |entries|;
    success := 0;
    if entries == [] {
      return;
    }
    var i := 0;
    while i < |entries|
      invariant 0 <= i <= |entries|
      invariant t.papers == Run(papers, entries[..i], DownloadPlan(download), now)
      invariant success == CountWhere(entries[..i], DownloadSucceeded(download))
      invariant old(t.Valid()) ==> t.Valid()
    {
      var ok := DownloadOne(t, entries[i], download, now);
      if ok {
        success := success + 1;
      }
      RunStep(papers, entries, i, DownloadPlan(download), now);
      CountStep(entries, i, DownloadSucceeded(download));
      i := i + 1;
    }
    assert entries[..i] == entries;
  }

  /**
   * A download ends at DOWNLOADED, or at SKIPPED with the reason "PDF
   * download failed"; nothing else about the entry changes but its
   * timestamp, and from DISCOVERED the two updates are moves of the
   * download command.
   */
  lemma DownloadOutcome(e: Entry, download: string -> bool, now: string)
    ensures var o := Outcome(e, DownloadPlan(download)(e), now);
      o == if download(e.paperId) then e.(status := Downloaded, lastUpdated := now)
           else e.(status := Skipped, lastUpdated := now, reason := "PDF download failed")
    ensures e.status == Discovered ==>
      Stages.Path(Stages.Download, e.status, StagesOf(DownloadPlan(download)(e)))
  {
    var us := DownloadPlan(download)(e);
    OutcomeTwo(e, us[0], us[1], now);
    assert us == [us[0], us[1]];
    if !download(e.paperId) {
      KwargsOne(Updated(e, Downloading, [], now).(status := Skipped, lastUpdated := now), us[1].kwargs[0]);
      assert us[1].kwargs == [us[1].kwargs[0]];
    }
    var path := StagesOf(us);
    assert path[1..] == [path[1]] && path[1..][1..] == [];
  }

  /** Of the selected entries, the ones whose download succeeded are counted, so the count never exceeds the selection. */
  lemma DownloadCount(papers: seq<Entry>, paperId: Option<string>, download: string -> bool)
    ensures var entries := Selected(papers, paperId, Discovered);
      CountWhere(entries, DownloadSucceeded(download)) == |Filter(entries, DownloadSucceeded(download))| <= |entries|
  {
    CountIsFilterLength(Selected(papers, paperId, Discovered), DownloadSucceeded(download));
  }

  /** The effect of `cmd_download` on the whole store. */
  lemma DownloadSpec(papers: seq<Entry>, paperId: Option<string>, download: string -> bool, now: string)
    requires UniqueIds(papers)
    ensures var ps := Run(papers, Selected(papers, paperId, Discovered), DownloadPlan(download), now);
      |ps| == |papers| && UniqueIds(ps) &&
      forall j :: 0 <= j < |papers| ==>
        ps[j] == if papers[j].paperId !in Ids(Selected(papers, paperId, Discovered)) then papers[j]
                 else if download(papers[j].paperId) then papers[j].(status := Downloaded, lastUpdated := now)
                 else papers[j].(status := Skipped, lastUpdated := now, reason := "PDF download failed")
  {
    var entries := Selected(papers, paperId, Discovered);
    SelectedSnapshot(papers, paperId, Discovered);
    RunEffect(papers, entries, DownloadPlan(download), now);
    forall j | 0 <= j < |papers| {
      DownloadOutcome(papers[j], download, now);
    }
  }

  // ---------------------------------------------------------------------------
  // analyze

  /**
   * What `analyze_paper` gives for a paper: the analysis (which
   * `Analyzer.Analysis` models from the two Gemini passes), or the message
   * of the exception raised on the way, by it or by `save_analysis`.
   */
  datatype AnalysisReply = Answered(analysis: PaperAnalysis) | Failed(message: string)

  /** The replies carry analyses of the paper asked about, as `Analyzer.Analysis` always does. */
  ghost predicate AnalysesOwnPaper(analyze: string -> AnalysisReply) {
    forall id :: analyze(id).Answered? ==> analyze(id).analysis.paperId == id
  }

  /** The local PDF's file name, `f"{paper_id.replace('/', '_')}.pdf"`. */
  function PdfFilename(paperId: string): string {
    ReplaceChar(paperId, '/', '_') + ".pdf"
  }

  /** `str(Path(directory) / name)`. */
  function PathJoin(directory: string, name: string): string {
    directory + "/" + name
  }

  /** The reason recorded for a failed analysis: the message cut to 200 characters. */
  function AnalysisFailure(message: string): (r: string)
    ensures |r| <= 217
    ensures |message| <= 200 ==> r == "Analysis failed: " + message
    ensures |message| > 200 ==> |r| == 217 && r[..17] == "Analysis failed: " && StartsWith(message, r[17..])
  {
    var prefix := "Analysis failed: ";
    var cut := Take(message, 200);
    assert |prefix| == 17 && (prefix + cut)[..17] == prefix && (prefix + cut)[17..] == cut;
    prefix + cut
  }

  datatype AnalyzeVerdict = NoPdf | AnalysisError(message: string)
                          | Sufficient(analysis: PaperAnalysis) | Insufficient(analysis: PaperAnalysis)

  /** How the analysis of one entry turns out. */
  function AnalyzeVerdictOf(e: Entry, pdfExists: string -> bool, analyze: string -> AnalysisReply): AnalyzeVerdict {
    if !pdfExists(PdfFilename(e.paperId)) then NoPdf
    else
      match analyze(e.paperId)
      case Failed(m) => AnalysisError(m)
      case Answered(a) => if a.sufficiency.isSufficient then Sufficient(a) else Insufficient(a)
  }

  /** The updates `cmd_analyze` makes for a verdict; `path` is where the analysis was saved. */
  function VerdictUpdates(v: AnalyzeVerdict, path: string): seq<Update> {
    match v
    case NoPdf => [Update(Skipped, [Kwarg("reason", Text("PDF not found locally"))])]
    case AnalysisError(m) =>
      [Update(Analyzing, []), Update(Downloaded, [Kwarg("reason", Text(AnalysisFailure(m)))])]
    case Sufficient(a) =>
      [Update(Analyzing, []),
       Update(Analyzed, [Kwarg("analysis_path", Text(path)), Kwarg("prompt_count", Number(|a.prompts|)),
                         Kwarg("has_explicit_rubric", Flag(a.sufficiency.hasScoringCriteria))])]
    case Insufficient(a) =>
      [Update(Analyzing, []),
       Update(InsufficientData, [Kwarg("analysis_path", Text(path)), Kwarg("reason", Text(a.sufficiency.reason))])]
  }

  function AnalyzePlan(analysesDir: string, pdfExists: string -> bool, analyze: string -> AnalysisReply): Entry -> seq<Update> {
    (e: Entry) =>
      VerdictUpdates(AnalyzeVerdictOf(e, pdfExists, analyze),
                     PathJoin(analysesDir, Analyzer.AnalysisFilename(e.paperId)))
  }

  /** The three counters of `cmd_analyze`. */
  datatype Tally = Tally(analyzed: nat, insufficient: nat, failed: nat)

  function Count(tally: Tally, v: AnalyzeVerdict): Tally {
    match v
    case Sufficient(_) => tally.(analyzed := tally.analyzed + 1)
    case Insufficient(_) => tally.(insufficient := tally.insufficient + 1)
    case _ => tally.(failed := tally.failed + 1)
  }

  /** The counters after `cmd_analyze` has worked through the entries. */
  function AnalyzeTally(entries: seq<Entry>, pdfExists: string -> bool, analyze: string -> AnalysisReply): Tally {
    if entries == [] then Tally(0, 0, 0)
    else
      var k := |entries| - 1;
      Count(AnalyzeTally(entries[..k], pdfExists, analyze), AnalyzeVerdictOf(entries[k], pdfExists, analyze))
  }

  /** The saved analyses after `cmd_analyze`: every answered entry's analysis saved, in order. */
  function SavedAnalyses(store: Analyzer.AnalysisStore, entries: seq<Entry>,
                         pdfExists: string -> bool, analyze: string -> AnalysisReply): Analyzer.AnalysisStore
  {
    if entries == [] then store
    else
      var k := |entries| - 1;
      var before := SavedAnalyses(store, entries[..k], pdfExists, analyze);
      var v := AnalyzeVerdictOf(entries[k], pdfExists, analyze);
      if v.Sufficient? || v.Insufficient? then Analyzer.SaveAnalysis(before, v.analysis) else before
  }

  /** One pass of the analysis loop. */
  method AnalyzeOne(t: Tracker, e: Entry, analysesDir: string, pdfExists: string -> bool,
                    analyze: string -> AnalysisReply, store: Analyzer.AnalysisStore, now: string)
    returns (v: AnalyzeVerdict, saved: Analyzer.AnalysisStore)
    modifies t
    ensures v == AnalyzeVerdictOf(e, pdfExists, analyze)
    ensures t.papers == Apply(old(t.papers), e.paperId, AnalyzePlan(analysesDir, pdfExists, analyze)(e), now)
    ensures saved == if v.Sufficient? || v.Insufficient? then Analyzer.SaveAnalysis(store, v.analysis) else store
    ensures old(t.Valid()) ==> t.Valid()
  {
    ghost var before := t.papers;
    var path := PathJoin(analysesDir, Analyzer.AnalysisFilename(e.paperId));
    saved := store;
    var r;
    if !pdfExists(PdfFilename(e.paperId)) {
      v := NoPdf;
      r := t.UpdateStatus(e.paperId, Skipped, [Kwarg("reason", Text("PDF not found locally"))], now);
      ApplyOne(before, e.paperId, Update(Skipped, [Kwarg("reason", Text("PDF not found locally"))]), now);
      return;
    }
    r := t.UpdateStatus(e.paperId, Analyzing, [], now);
    var reply := analyze(e.paperId);
    var u: Update;
    if reply.Failed? {
      v := AnalysisError(reply.message);
      u := Update(Downloaded, [Kwarg("reason", Text(AnalysisFailure(reply.message)))]);
    } else {
      var a := reply.analysis;
      saved := Analyzer.SaveAnalysis(store, a);
      if a.sufficiency.isSufficient {
        v := Sufficient(a);
        u := Update(Analyzed, [Kwarg("analysis_path", Text(path)), Kwarg("prompt_count", Number(|a.prompts|)),
                               Kwarg("has_explicit_rubric", Flag(a.sufficiency.hasScoringCriteria))]);
      } else {
        v := Insufficient(a);
        u := Update(InsufficientData, [Kwarg("analysis_path", Text(path)), Kwarg("reason", Text(a.sufficiency.reason))]);
      }
    }
    r := t.UpdateStatus(e.paperId, u.status, u.kwargs, now);
    ApplyTwo(before, e.paperId, Update(Analyzing, []), u, now);
    assert VerdictUpdates(v, path) == [Update(Analyzing, []), u];
  }

  /** `cmd_analyze`: returns the counters and the saved analyses. */
  method CmdAnalyze(t: Tracker, paperId: Option<string>, analysesDir: string, pdfExists: string -> bool,
                    analyze: string -> AnalysisReply, store: Analyzer.AnalysisStore, now: string)
    returns (tally: Tally, saved: Analyzer.AnalysisStore)
    modifies t
    ensures var entries := Selected(old(t.papers), paperId, Downloaded);
      t.papers == Run(old(t.papers), entries, AnalyzePlan(analysesDir, pdfExists, analyze), now) &&
      saved == SavedAnalyses(store, entries, pdfExists, analyze) &&
      tally == AnalyzeTally(entries, pdfExists, analyze)
    ensures old(t.Valid()) ==> t.Valid()
  {
    var entries := Select(t, paperId, Downloaded);
    ghost var papers := t.papers;
    tally, saved := Tally(0, 0, 0), store;
    if entries == [] {
      return;
    }
    var i := 0;
    while i < |entries|
      invariant 0 <= i <= |entries|
      invariant t.papers == Run(papers, entries[..i], AnalyzePlan(analysesDir, pdfExists, analyze), now)
      invariant saved == SavedAnalyses(store, entries[..i], pdfExists, analyze)
      invariant tally == AnalyzeTally(entries[..i], pdfExists, analyze)
      invariant old(t.Valid()) ==> t.Valid()
    {
      var v;
      v, saved := AnalyzeOne(t, entries[i], analysesDir, pdfExists, analyze, saved, now);
      tally := Count(tally, v);
      RunStep(papers, entries, i, AnalyzePlan(analysesDir, pdfExists, analyze), now);
      AnalyzeStep(store, entries, i, pdfExists, analyze);
      i := i + 1;
    }
    assert entries[..i] == entries;
  }

  lemma AnalyzeStep(store: Analyzer.AnalysisStore, entries: seq<Entry>, i: nat,
                    pdfExists: string -> bool, analyze: string -> AnalysisReply)
    requires i < |entries|
    ensures var v := AnalyzeVerdictOf(entries[i], pdfExists, analyze);
      var before := SavedAnalyses(store, entries[..i], pdfExists, analyze);
      SavedAnalyses(store, entries[..i + 1], pdfExists, analyze) ==
        (if v.Sufficient? || v.Insufficient? then Analyzer.SaveAnalysis(before, v.analysis) else before) &&
      AnalyzeTally(entries[..i + 1], pdfExists, analyze) == Count(AnalyzeTally(entries[..i], pdfExists, analyze), v)
  {
    assert entries[..i + 1][..i] == entries[..i];
  }

  /** Every entry `cmd_analyze` works on is counted exactly once: analysed, insufficient or failed. */
  lemma {:induction false} AnalyzeCounts(entries: seq<Entry>, pdfExists: string -> bool, analyze: string -> AnalysisReply)
    ensures var n := AnalyzeTally(entries, pdfExists, analyze);
      n.analyzed + n.insufficient + n.failed == |entries|
  {
    if entries != [] {
      AnalyzeCounts(entries[..|entries| - 1], pdfExists, analyze);
    }
  }

  /**
   * What `cmd_analyze` leaves in an entry, verdict by verdict: a missing PDF
   * parks it at SKIPPED without entering ANALYZING; an exception rolls it
   * back to DOWNLOADED with the cut message; a sufficient analysis records
   * the saved path, the prompt count and whether the paper has explicit
   * scoring criteria; an insufficient one records the path and the verdict's
   * reason. Nothing else changes but the timestamp.
   */
  lemma AnalyzeOutcome(e: Entry, analysesDir: string, pdfExists: string -> bool, analyze: string -> AnalysisReply, now: string)
    ensures var o := Outcome(e, AnalyzePlan(analysesDir, pdfExists, analyze)(e), now);
      var path := PathJoin(analysesDir, Analyzer.AnalysisFilename(e.paperId));
      var v := AnalyzeVerdictOf(e, pdfExists, analyze);
      (v.NoPdf? ==> o == e.(status := Skipped, lastUpdated := now, reason := "PDF not found locally")) &&
      (v.AnalysisError? ==> o == e.(status := Downloaded, lastUpdated := now, reason := AnalysisFailure(v.message))) &&
      (v.Sufficient? ==>
        o == e.(status := Analyzed, lastUpdated := now, analysisPath := Some(path),
                promptCount := Some(|v.analysis.prompts|),
                hasExplicitRubric := Some(v.analysis.sufficiency.hasScoringCriteria))) &&
      (v.Insufficient? ==>
        o == e.(status := InsufficientData, lastUpdated := now, analysisPath := Some(path),
                reason := v.analysis.sufficiency.reason))
  {
    var v := AnalyzeVerdictOf(e, pdfExists, analyze);
    var path := PathJoin(analysesDir, Analyzer.AnalysisFilename(e.paperId));
    assert AnalyzePlan(analysesDir, pdfExists, analyze)(e) == VerdictUpdates(v, path);
    VerdictOutcome(e, v, path, now);
  }

  lemma VerdictOutcome(e: Entry, v: AnalyzeVerdict, path: string, now: string)
    ensures var o := Outcome(e, VerdictUpdates(v, path), now);
      (v.NoPdf? ==> o == e.(status := Skipped, lastUpdated := now, reason := "PDF not found locally")) &&
      (v.AnalysisError? ==> o == e.(status := Downloaded, lastUpdated := now, reason := AnalysisFailure(v.message))) &&
      (v.Sufficient? ==>
        o == e.(status := Analyzed, lastUpdated := now, analysisPath := Some(path),
                promptCount := Some(|v.analysis.prompts|),
                hasExplicitRubric := Some(v.analysis.sufficiency.hasScoringCriteria))) &&
      (v.Insufficient? ==>
        o == e.(status := InsufficientData, lastUpdated := now, analysisPath := Some(path),
                reason := v.analysis.sufficiency.reason))
  {
    var us := VerdictUpdates(v, path);
    match v
    case NoPdf =>
      OutcomeOne(e, us[0], now);
      KwargsOne(e.(status := Skipped, lastUpdated := now), us[0].kwargs[0]);
    case AnalysisError(m) =>
      WorkThenSettle(e, Analyzing, Downloaded, us[1].kwargs, now);
      KwargsOne(e.(status := Downloaded, lastUpdated := now), us[1].kwargs[0]);
    case Sufficient(a) =>
      SufficientOutcome(e, a, path, now);
    case Insufficient(a) =>
      WorkThenSettle(e, Analyzing, InsufficientData, us[1].kwargs, now);
      KwargsTwo(e.(status := InsufficientData, lastUpdated := now), us[1].kwargs[0], us[1].kwargs[1]);
  }

  lemma SufficientOutcome(e: Entry, a: PaperAnalysis, path: string, now: string)
    ensures Outcome(e, VerdictUpdates(Sufficient(a), path), now) ==
      e.(status := Analyzed, lastUpdated := now, analysisPath := Some(path),
         promptCount := Some(|a.prompts|), hasExplicitRubric := Some(a.sufficiency.hasScoringCriteria))
  {
    var kw := [Kwarg("analysis_path", Text(path)), Kwarg("prompt_count", Number(|a.prompts|)),
               Kwarg("has_explicit_rubric", Flag(a.sufficiency.hasScoringCriteria))];
    WorkThenSettle(e, Analyzing, Analyzed, kw, now);
    KwargsThree(e.(status := Analyzed, lastUpdated := now), kw[0], kw[1], kw[2]);
  }

  /** A working stage entered without fields and then left for `settled` with `kwargs`. */
  lemma WorkThenSettle(e: Entry, working: Stage, settled: Stage, kwargs: seq<Kwarg>, now: string)
    ensures Outcome(e, [Update(working, []), Update(settled, kwargs)], now) ==
            ApplyKwargs(e.(status := settled, lastUpdated := now), kwargs)
  {
    OutcomeTwo(e, Update(working, []), Update(settled, kwargs), now);
  }

  /** From DOWNLOADED, the updates of `cmd_analyze` are moves of the analyze command. */
  lemma AnalyzeMoves(e: Entry, analysesDir: string, pdfExists: string -> bool, analyze: string -> AnalysisReply)
    requires e.status == Downloaded
    ensures Stages.Path(Stages.Analyze, e.status, StagesOf(AnalyzePlan(analysesDir, pdfExists, analyze)(e)))
  {
    var ps := StagesOf(AnalyzePlan(analysesDir, pdfExists, analyze)(e));
    if |ps| == 1 {
      assert ps[1..] == [];
    } else {
      assert ps[1..] == [ps[1]] && ps[1..][1..] == [];
    }
  }

  /** The stage each verdict leaves an entry at. */
  function VerdictStage(v: AnalyzeVerdict): Stage {
    match v
    case NoPdf => Skipped
    case AnalysisError(_) => Downloaded
    case Sufficient(_) => Analyzed
    case Insufficient(_) => InsufficientData
  }

  /** The effect of `cmd_analyze` on the whole store. */
  lemma AnalyzeSpec(papers: seq<Entry>, paperId: Option<string>, analysesDir: string,
                    pdfExists: string -> bool, analyze: string -> AnalysisReply, now: string)
    requires UniqueIds(papers)
    ensures var entries := Selected(papers, paperId, Downloaded);
      var ps := Run(papers, entries, AnalyzePlan(analysesDir, pdfExists, analyze), now);
      |ps| == |papers| && UniqueIds(ps) &&
      forall j :: 0 <= j < |papers| ==>
        if papers[j].paperId in Ids(entries) then
          SameIdentity(ps[j], papers[j]) &&
          ps[j].status == VerdictStage(AnalyzeVerdictOf(papers[j], pdfExists, analyze))
        else ps[j] == papers[j]
  {
    var entries := Selected(papers, paperId, Downloaded);
    SelectedSnapshot(papers, paperId, Downloaded);
    RunEffect(papers, entries, AnalyzePlan(analysesDir, pdfExists, analyze), now);
    forall j | 0 <= j < |papers| {
      AnalyzeOutcome(papers[j], analysesDir, pdfExists, analyze, now);
    }
  }

  /**
   * After `cmd_analyze`, the analysis of every answered entry loads back
   * under its paper id, provided the selected ids contain no '_' (an id
   * with '_' can share a file with another id; see
   * `Analyzer.SlashAndUnderscoreCollide`).
   */
  lemma {:induction false} SavedLoadable(store: Analyzer.AnalysisStore, entries: seq<Entry>,
                                         pdfExists: string -> bool, analyze: string -> AnalysisReply, j: nat)
    requires AnalysesOwnPaper(analyze)
    requires UniqueIds(entries) && forall i :: 0 <= i < |entries| ==> '_' !in entries[i].paperId
    requires j < |entries|
    ensures var v := AnalyzeVerdictOf(entries[j], pdfExists, analyze);
      v.Sufficient? || v.Insufficient? ==>
        Analyzer.LoadAnalysis(SavedAnalyses(store, entries, pdfExists, analyze), entries[j].paperId) == Some(v.analysis)
  {
    var k := |entries| - 1;
    var before := SavedAnalyses(store, entries[..k], pdfExists, analyze);
    var v := AnalyzeVerdictOf(entries[j], pdfExists, analyze);
    var last := AnalyzeVerdictOf(entries[k], pdfExists, analyze);
    if j == k {
      if v.Sufficient? || v.Insufficient? {
        Analyzer.SaveThenLoad(before, v.analysis);
      }
    } else {
      SavedLoadable(store, entries[..k], pdfExists, analyze, j);
      assert entries[..k][j] == entries[j];
      if last.Sufficient? || last.Insufficient? {
        assert last.analysis.paperId == entries[k].paperId;
        Analyzer.SaveKeepsOthers(before, last.analysis, entries[j].paperId);
      }
    }
  }

  // ---------------------------------------------------------------------------
  // generate

  /** The YAML text of a Blueprint: the deterministic generator's dump, or the text Gemini returned with fences stripped. */
  datatype Content = Raw(text: string) | Dumped(blocks: seq<Value>)

  /**
   * What `validate_blueprint_yaml` parses out of the content: a dump parses
   * back to the blocks it was made from; other text goes through `parse`.
   */
  function Parse(c: Content, parse: string -> Validators.Parsed): Validators.Parsed {
    if c.Raw? then parse(c.text) else Validators.Blocks(c.blocks)
  }

  /** The defect messages `validate_blueprint_yaml` returns for the content. */
  function Check(c: Content, parse: string -> Validators.Parsed): seq<string> {
    Validators.Messages(Validators.Validate(Parse(c, parse)))
  }

  /** The options of a `generate` run, and the configured Blueprint directory. */
  datatype GenerateOptions = GenerateOptions(validate: bool, deterministic: bool, config: PipelineConfig, outputDir: string)

  datatype GenerateVerdict =
    | NoAnalysis
    | GenerationError(message: string)
    | Invalid(errors: seq<string>)
    | Generated(filename: string, path: string, content: Content)

  /**
   * The validation step: with validation on, content that fails it is
   * replaced by the deterministic fallback, and when that fails too nothing
   * is written. `filename` and `path` are where the Blueprint is written.
   */
  function Settle(first: Content, fallback: Content, validate: bool, filename: string, path: string,
                  parse: string -> Validators.Parsed): GenerateVerdict
  {
    if validate && Check(first, parse) != [] && Check(fallback, parse) != [] then Invalid(Check(fallback, parse))
    else Generated(filename, path, Chosen(first, fallback, validate, parse))
  }

  /** The content the validation step keeps: the first content, unless validation is on and rejects it. */
  function Chosen(first: Content, fallback: Content, validate: bool, parse: string -> Validators.Parsed): Content {
    if validate && Check(first, parse) != [] then fallback else first
  }

  /** The deterministic Blueprint for an entry, as written. */
  function Fallback(a: PaperAnalysis, e: Entry, opts: GenerateOptions): Content {
    Dumped(BlueprintGenerator.DeterministicBlocks(a, e, opts.config))
  }

  /** The file name and the path a Blueprint for the entry is written under. */
  function Target(a: PaperAnalysis, e: Entry, opts: GenerateOptions): (string, string) {
    var filename := BlueprintGenerator.BlueprintFilename(a, e);
    (filename, PathJoin(opts.outputDir, BlueprintGenerator.WithYamlSuffix(filename)))
  }

  /**
   * How generation turns out for one entry. `gemini` gives the text Gemini
   * returns for a paper, or the message of the exception raised instead. In
   * deterministic mode the content is validated (when asked) but there is
   * no fallback to try, so it is written either way.
   */
  function GenerateVerdictOf(e: Entry, store: Analyzer.AnalysisStore, opts: GenerateOptions,
                             gemini: string -> Result<string>, parse: string -> Validators.Parsed): GenerateVerdict
  {
    var loaded := Analyzer.LoadAnalysis(store, e.paperId);
    if loaded.None? then NoAnalysis
    else if !opts.deterministic && gemini(e.paperId).Err? then GenerationError(gemini(e.paperId).message)
    else
      var a := loaded.value;
      var first := if opts.deterministic then Fallback(a, e, opts) else Raw(StripCodeFences(gemini(e.paperId).value));
      Settle(first, Fallback(a, e, opts), opts.validate && !opts.deterministic, Target(a, e, opts).0, Target(a, e, opts).1, parse)
  }

  /** The reason recorded for an exception during generation. */
  function GenerationFailure(message: string): (r: string)
    ensures |r| <= 219
    ensures |message| <= 200 ==> r == "Generation failed: " + message
    ensures |message| > 200 ==> |r| == 219 && r[..19] == "Generation failed: " && StartsWith(message, r[19..])
  {
    var prefix := "Generation failed: ";
    var cut := Take(message, 200);
    assert |prefix| == 19 && (prefix + cut)[..19] == prefix && (prefix + cut)[19..] == cut;
    prefix + cut
  }

  /** The reason recorded when the Blueprint fails validation: its first three defects, joined by "; ". */
  function ValidationFailure(errors: seq<string>): string {
    "Blueprint validation failed: " + Join("; ", if |errors| <= 3 then errors else errors[..3])
  }

  /** The update that settles an entry `cmd_generate` set to CONVERTING. */
  function SettleUpdate(v: GenerateVerdict): Update
    requires !v.NoAnalysis?
  {
    match v
    case GenerationError(m) => Update(Analyzed, [Kwarg("reason", Text(GenerationFailure(m)))])
    case Invalid(errors) => Update(Analyzed, [Kwarg("reason", Text(ValidationFailure(errors)))])
    case Generated(filename, path, _) =>
      Update(ReadyForReview, [Kwarg("blueprint_filename", Text(filename)), Kwarg("blueprint_path", Text(path))])
  }

  function GenerateUpdates(v: GenerateVerdict): seq<Update> {
    if v.NoAnalysis? then [] else [Update(Converting, []), SettleUpdate(v)]
  }

  function GeneratePlan(store: Analyzer.AnalysisStore, opts: GenerateOptions,
                        gemini: string -> Result<string>, parse: string -> Validators.Parsed): Entry -> seq<Update>
  {
    (e: Entry) => GenerateUpdates(GenerateVerdictOf(e, store, opts, gemini, parse))
  }

  /** The counters of `cmd_generate`: Blueprints written and entries that failed. */
  datatype GenerateTally = GenerateTally(generated: nat, failed: nat)

  function CountGenerated(tally: GenerateTally, v: GenerateVerdict): GenerateTally {
    if v.Generated? then tally.(generated := tally.generated + 1) else tally.(failed := tally.failed + 1)
  }

  /** The Blueprint files written, by path, and the counters, after `cmd_generate` has worked through the entries. */
  function Generation(files: map<string, Content>, entries: seq<Entry>, store: Analyzer.AnalysisStore, opts: GenerateOptions,
                      gemini: string -> Result<string>, parse: string -> Validators.Parsed): (map<string, Content>, GenerateTally)
  {
    if entries == [] then (files, GenerateTally(0, 0))
    else
      var k := |entries| - 1;
      Record(Generation(files, entries[..k], store, opts, gemini, parse), GenerateVerdictOf(entries[k], store, opts, gemini, parse))
  }

  /** Writes the Blueprint of a generated entry to its path and counts the entry. */
  function Record(out: (map<string, Content>, GenerateTally), v: GenerateVerdict): (map<string, Content>, GenerateTally) {
    (if v.Generated? then out.0[v.path := v.content] else out.0, CountGenerated(out.1, v))
  }

  /** `generate_blueprint_deterministic`, dumped. */
  method DumpFallback(a: PaperAnalysis, e: Entry, opts: GenerateOptions) returns (c: Content)
    ensures c == Fallback(a, e, opts) && c.Dumped?
    ensures Validators.Validate(Validators.Blocks(c.blocks)) == []
  {
    var blocks := BlueprintGenerator.GenerateDeterministic(a, e, opts.config);
    c := Dumped(blocks);
  }

  /** The validation step with the deterministic fallback; the fallback always passes, so something is always kept. */
  method ValidateStep(first: Content, a: PaperAnalysis, e: Entry, opts: GenerateOptions, parse: string -> Validators.Parsed)
    returns (content: Content)
    ensures content == Chosen(first, Fallback(a, e, opts), true, parse)
    ensures Check(Fallback(a, e, opts), parse) == []
  {
    var fallback := DumpFallback(a, e, opts);
    var errors := Validators.ValidateBlueprintYaml(Parse(first, parse));
    if errors == [] {
      return first;
    }
    content := fallback;
    assert Parse(content, parse) == Validators.Blocks(fallback.blocks);
    errors := Validators.ValidateBlueprintYaml(Parse(content, parse));
    if errors != [] {
      // the deterministic Blueprint always passes validation
      assert false;
    }
  }

  /** The body of the `try` in the generation loop, up to the write: which Blueprint is produced, or why none is. */
  method GenerateContent(a: PaperAnalysis, e: Entry, store: Analyzer.AnalysisStore, opts: GenerateOptions,
                         gemini: string -> Result<string>, parse: string -> Validators.Parsed)
    returns (v: GenerateVerdict)
    requires Analyzer.LoadAnalysis(store, e.paperId) == Some(a)
    ensures v == GenerateVerdictOf(e, store, opts, gemini, parse)
    ensures !v.NoAnalysis?
  {
    var first: Content;
    if opts.deterministic {
      first := DumpFallback(a, e, opts);
    } else {
      var reply := gemini(e.paperId);
      if reply.Err? {
        return GenerationError(reply.message);
      }
      first := Raw(StripCodeFences(reply.value));
    }
    var validate := opts.validate && !opts.deterministic;
    var content := first;
    if validate {
      content := ValidateStep(first, a, e, opts, parse);
    }
    var filename := BlueprintGenerator.BlueprintFilename(a, e);
    var path := PathJoin(opts.outputDir, BlueprintGenerator.WithYamlSuffix(filename));
    v := Generated(filename, path, content);
    BlueprintGenerator.GeneratedBlueprintValid(a, e, opts.config);
    VerdictSettles(a, e, store, opts, gemini, parse);
  }

  /** Past the analysis load and the Gemini call, the verdict is the validation step's. */
  lemma VerdictSettles(a: PaperAnalysis, e: Entry, store: Analyzer.AnalysisStore, opts: GenerateOptions,
                       gemini: string -> Result<string>, parse: string -> Validators.Parsed)
    requires Analyzer.LoadAnalysis(store, e.paperId) == Some(a)
    requires opts.deterministic || gemini(e.paperId).Ok?
    ensures GenerateVerdictOf(e, store, opts, gemini, parse) ==
      Settle(if opts.deterministic then Fallback(a, e, opts) else Raw(StripCodeFences(gemini(e.paperId).value)),
             Fallback(a, e, opts), opts.validate && !opts.deterministic, Target(a, e, opts).0, Target(a, e, opts).1, parse)
  {
  }

  /** One pass of the generation loop. */
  method GenerateOne(t: Tracker, e: Entry, store: Analyzer.AnalysisStore, opts: GenerateOptions,
                     gemini: string -> Result<string>, parse: string -> Validators.Parsed, now: string)
    returns (v: GenerateVerdict)
    modifies t
    ensures v == GenerateVerdictOf(e, store, opts, gemini, parse)
    ensures t.papers == Apply(old(t.papers), e.paperId, GenerateUpdates(v), now)
    ensures old(t.Valid()) ==> t.Valid()
  {
    ghost var before := t.papers;
    var loaded := Analyzer.LoadAnalysis(store, e.paperId);
    if loaded.None? {
      return NoAnalysis;
    }
    v := GenerateContent(loaded.value, e, store, opts, gemini, parse);
    var r := t.UpdateStatus(e.paperId, Converting, [], now);
    var settle := SettleUpdate(v);
    r := t.UpdateStatus(e.paperId, settle.status, settle.kwargs, now);
    ApplyTwo(before, e.paperId, Update(Converting, []), settle, now);
  }

  /** `cmd_generate`: returns the counters and the Blueprint files written, by path. */
  method CmdGenerate(t: Tracker, paperId: Option<string>, store: Analyzer.AnalysisStore, opts: GenerateOptions,
                     gemini: string -> Result<string>, parse: string -> Validators.Parsed,
                     files: map<string, Content>, now: string)
    returns (tally: GenerateTally, written: map<string, Content>)
    modifies t
    ensures var entries := Selected(old(t.papers), paperId, Analyzed);
      t.papers == Run(old(t.papers), entries, GeneratePlan(store, opts, gemini, parse), now) &&
      (written, tally) == Generation(files, entries, store, opts, gemini, parse)
    ensures old(t.Valid()) ==> t.Valid()
  {
    var entries := Select(t, paperId, Analyzed);
    ghost var papers := t.papers;
    var out := (files, GenerateTally(0, 0));
    var i := 0;
    while i < |entries|
      invariant 0 <= i <= |entries|
      invariant t.papers == Run(papers, entries[..i], GeneratePlan(store, opts, gemini, parse), now)
      invariant out == Generation(files, entries[..i], store, opts, gemini, parse)
      invariant old(t.Valid()) ==> t.Valid()
    {
      var v := GenerateOne(t, entries[i], store, opts, gemini, parse, now);
      out := Record(out, v);
      RunStep(papers, entries, i, GeneratePlan(store, opts, gemini, parse), now);
      assert entries[..i + 1][..i] == entries[..i];
      i := i + 1;
    }
    assert entries[..i] == entries;
    written, tally := out.0, out.1;
  }

  /** Every entry `cmd_generate` works on is counted once, as generated or as failed. */
  lemma {:induction false} GenerationCounts(files: map<string, Content>, entries: seq<Entry>, store: Analyzer.AnalysisStore,
                                            opts: GenerateOptions, gemini: string -> Result<string>, parse: string -> Validators.Parsed)
    ensures var n := Generation(files, entries, store, opts, gemini, parse).1;
      n.generated + n.failed == |entries|
  {
    if entries != [] {
      GenerationCounts(files, entries[..|entries| - 1], store, opts, gemini, parse);
    }
  }

  /**
   * The verdict for one entry, case by case: no saved analysis, an exception
   * from Gemini, or a Blueprint under the generator's file name whose content
   * is the deterministic one in deterministic mode, and otherwise Gemini's
   * text unless validation is on and rejects it, in which case it is the
   * deterministic fallback. Validation never rejects everything.
   */
  lemma GenerateVerdictSpec(e: Entry, store: Analyzer.AnalysisStore, opts: GenerateOptions,
                            gemini: string -> Result<string>, parse: string -> Validators.Parsed)
    ensures var v := GenerateVerdictOf(e, store, opts, gemini, parse);
      var loaded := Analyzer.LoadAnalysis(store, e.paperId);
      (v.NoAnalysis? <==> loaded.None?) &&
      (v.GenerationError? <==> loaded.Some? && !opts.deterministic && gemini(e.paperId).Err?) &&
      !v.Invalid? &&
      (v.Generated? ==>
        loaded.Some? &&
        v.filename == BlueprintGenerator.BlueprintFilename(loaded.value, e) &&
        v.path == PathJoin(opts.outputDir, BlueprintGenerator.WithYamlSuffix(v.filename))) &&
      (v.Generated? && opts.deterministic ==> v.content == Fallback(loaded.value, e, opts)) &&
      (v.Generated? && !opts.deterministic ==>
        gemini(e.paperId).Ok? &&
        var raw := Raw(StripCodeFences(gemini(e.paperId).value));
        v.content == if opts.validate && Check(raw, parse) != [] then Fallback(loaded.value, e, opts) else raw)
  {
    var loaded := Analyzer.LoadAnalysis(store, e.paperId);
    if loaded.Some? {
      FallbackPasses(loaded.value, e, opts, parse);
      if opts.deterministic || gemini(e.paperId).Ok? {
        VerdictSettles(loaded.value, e, store, opts, gemini, parse);
      }
    }
  }

  /** The deterministic fallback passes validation (`BlueprintGenerator.GeneratedBlueprintValid`). */
  lemma FallbackPasses(a: PaperAnalysis, e: Entry, opts: GenerateOptions, parse: string -> Validators.Parsed)
    ensures Check(Fallback(a, e, opts), parse) == []
  {
    BlueprintGenerator.GeneratedBlueprintValid(a, e, opts.config);
    assert Parse(Fallback(a, e, opts), parse) == Validators.Blocks(BlueprintGenerator.DeterministicBlocks(a, e, opts.config));
  }

  /** With validation on, or in deterministic mode, the Blueprint written passes validation. */
  lemma GeneratedPassesValidation(e: Entry, store: Analyzer.AnalysisStore, opts: GenerateOptions,
                                  gemini: string -> Result<string>, parse: string -> Validators.Parsed)
    requires opts.validate || opts.deterministic
    ensures var v := GenerateVerdictOf(e, store, opts, gemini, parse);
      v.Generated? ==> Check(v.content, parse) == []
  {
    var loaded := Analyzer.LoadAnalysis(store, e.paperId);
    if loaded.Some? {
      FallbackPasses(loaded.value, e, opts, parse);
      if opts.deterministic || gemini(e.paperId).Ok? {
        VerdictSettles(loaded.value, e, store, opts, gemini, parse);
      }
    }
  }

  /** The entry's Blueprint is written to `path`. */
  predicate WritesTo(e: Entry, store: Analyzer.AnalysisStore, opts: GenerateOptions,
                     gemini: string -> Result<string>, parse: string -> Validators.Parsed, path: string)
  {
    var v := GenerateVerdictOf(e, store, opts, gemini, parse);
    v.Generated? && v.path == path
  }

  /** `cmd_generate` removes no file, and each generated entry's Blueprint is at its path. */
  lemma {:induction false} GenerationWritesAll(files: map<string, Content>, entries: seq<Entry>, store: Analyzer.AnalysisStore,
                                               opts: GenerateOptions, gemini: string -> Result<string>, parse: string -> Validators.Parsed)
    ensures var written := Generation(files, entries, store, opts, gemini, parse).0;
      files.Keys <= written.Keys &&
      forall i, p :: 0 <= i < |entries| && WritesTo(entries[i], store, opts, gemini, parse, p) ==> p in written
  {
    if entries != [] {
      var k := |entries| - 1;
      var prev := entries[..k];
      GenerationWritesAll(files, prev, store, opts, gemini, parse);
      var before := Generation(files, prev, store, opts, gemini, parse).0;
      var written := Generation(files, entries, store, opts, gemini, parse).0;
      var v := GenerateVerdictOf(entries[k], store, opts, gemini, parse);
      assert written == if v.Generated? then before[v.path := v.content] else before;
      assert before.Keys <= written.Keys;
      forall i, p | 0 <= i < |entries| && WritesTo(entries[i], store, opts, gemini, parse, p)
        ensures p in written
      {
        if i < k {
          assert prev[i] == entries[i];
          assert p in before;
        } else {
          assert i == k;
          assert v.Generated? && v.path == p;
        }
      }
    }
  }

  /** Every file `cmd_generate` adds is the Blueprint of an entry it worked on. */
  lemma {:induction false} GenerationWritesOnly(files: map<string, Content>, entries: seq<Entry>, store: Analyzer.AnalysisStore,
                                                opts: GenerateOptions, gemini: string -> Result<string>, parse: string -> Validators.Parsed)
    ensures var written := Generation(files, entries, store, opts, gemini, parse).0;
      forall p :: p in written && p !in files ==>
        exists i :: 0 <= i < |entries| && WritesTo(entries[i], store, opts, gemini, parse, p)
  {
    if entries != [] {
      var k := |entries| - 1;
      var prev := entries[..k];
      GenerationWritesOnly(files, prev, store, opts, gemini, parse);
      var written := Generation(files, entries, store, opts, gemini, parse).0;
      forall p | p in written && p !in files
        ensures exists i :: 0 <= i < |entries| && WritesTo(entries[i], store, opts, gemini, parse, p)
      {
        if WritesTo(entries[k], store, opts, gemini, parse, p) {
        } else {
          var i :| 0 <= i < |prev| && WritesTo(prev[i], store, opts, gemini, parse, p);
          assert prev[i] == entries[i];
        }
      }
    }
  }

  /** With validation on, or in deterministic mode, every file `cmd_generate` writes passes validation. */
  lemma {:induction false} GenerationWritesValid(files: map<string, Content>, entries: seq<Entry>, store: Analyzer.AnalysisStore,
                                                 opts: GenerateOptions, gemini: string -> Result<string>, parse: string -> Validators.Parsed)
    requires opts.validate || opts.deterministic
    ensures var written := Generation(files, entries, store, opts, gemini, parse).0;
      forall p :: p in written ==> (p in files && written[p] == files[p]) || Check(written[p], parse) == []
  {
    if entries != [] {
      var k := |entries| - 1;
      GenerationWritesValid(files, entries[..k], store, opts, gemini, parse);
      GeneratedPassesValidation(entries[k], store, opts, gemini, parse);
    }
  }

  /**
   * What `cmd_generate` leaves in an entry, verdict by verdict: without an
   * analysis the entry is untouched; a failure rolls it back to ANALYZED
   * with the reason; a Blueprint moves it to READY_FOR_REVIEW with the file
   * name and path recorded. Nothing else changes but the timestamp.
   */
  lemma GenerateOutcome(e: Entry, v: GenerateVerdict, now: string)
    ensures var o := Outcome(e, GenerateUpdates(v), now);
      (v.NoAnalysis? ==> o == e) &&
      (v.GenerationError? ==> o == e.(status := Analyzed, lastUpdated := now, reason := GenerationFailure(v.message))) &&
      (v.Invalid? ==> o == e.(status := Analyzed, lastUpdated := now, reason := ValidationFailure(v.errors))) &&
      (v.Generated? ==>
        o == e.(status := ReadyForReview, lastUpdated := now,
                blueprintFilename := Some(v.filename), blueprintPath := Some(v.path)))
  {
    var us := GenerateUpdates(v);
    match v
    case NoAnalysis =>
    case GenerationError(m) =>
      WorkThenSettle(e, Converting, Analyzed, us[1].kwargs, now);
      KwargsOne(e.(status := Analyzed, lastUpdated := now), us[1].kwargs[0]);
    case Invalid(errors) =>
      WorkThenSettle(e, Converting, Analyzed, us[1].kwargs, now);
      KwargsOne(e.(status := Analyzed, lastUpdated := now), us[1].kwargs[0]);
    case Generated(filename, path, _) =>
      WorkThenSettle(e, Converting, ReadyForReview, us[1].kwargs, now);
      KwargsTwo(e.(status := ReadyForReview, lastUpdated := now), us[1].kwargs[0], us[1].kwargs[1]);
  }

  /** From ANALYZED, the updates of `cmd_generate` are moves of the generate command. */
  lemma GenerateMoves(e: Entry, v: GenerateVerdict)
    requires e.status == Analyzed
    ensures Stages.Path(Stages.Generate, e.status, StagesOf(GenerateUpdates(v)))
  {
    var ps := StagesOf(GenerateUpdates(v));
    if ps != [] {
      assert ps[1..] == [ps[1]] && ps[1..][1..] == [];
    }
  }

  /** The stage a verdict leaves an entry at, given the stage it was in. */
  function GenerateStage(v: GenerateVerdict, s: Stage): Stage {
    if v.NoAnalysis? then s else if v.Generated? then ReadyForReview else Analyzed
  }

  /** The effect of `cmd_generate` on the whole store. */
  lemma GenerateSpec(papers: seq<Entry>, paperId: Option<string>, store: Analyzer.AnalysisStore, opts: GenerateOptions,
                     gemini: string -> Result<string>, parse: string -> Validators.Parsed, now: string)
    requires UniqueIds(papers)
    ensures var entries := Selected(papers, paperId, Analyzed);
      var ps := Run(papers, entries, GeneratePlan(store, opts, gemini, parse), now);
      |ps| == |papers| && UniqueIds(ps) &&
      forall j :: 0 <= j < |papers| ==>
        if papers[j].paperId in Ids(entries) then
          SameIdentity(ps[j], papers[j]) &&
          ps[j].status == GenerateStage(GenerateVerdictOf(papers[j], store, opts, gemini, parse), papers[j].status)
        else ps[j] == papers[j]
  {
    var entries := Selected(papers, paperId, Analyzed);
    SelectedSnapshot(papers, paperId, Analyzed);
    RunEffect(papers, entries, GeneratePlan(store, opts, gemini, parse), now);
    forall j | 0 <= j < |papers| {
      GenerateOutcome(papers[j], GenerateVerdictOf(papers[j], store, opts, gemini, parse), now);
    }
  }

  // ---------------------------------------------------------------------------
  // retry

  /**
   * The entries `cmd_retry` resets: with a (non-empty) paper id, that entry
   * if it is tracked, at whatever stage; otherwise the INSUFFICIENT_DATA
   * entries followed by the SKIPPED ones, each in stored order.
   */
  function RetrySelected(papers: seq<Entry>, paperId: Option<string>): seq<Entry> {
    if paperId.Some? && paperId.value != "" then Selected(papers, paperId, InsufficientData)
    else Filter(papers, StatusIs(InsufficientData)) + Filter(papers, StatusIs(Skipped))
  }

  /** Every selected entry goes to the reset stage with its reason cleared. */
  function RetryPlan(fromStage: Option<string>): Entry -> seq<Update> {
    (e: Entry) => [Update(Stages.ResetTarget(fromStage), [Kwarg("reason", Text(""))])]
  }

  /** `cmd_retry`: returns the number of entries reset. */
  method CmdRetry(t: Tracker, paperId: Option<string>, fromStage: Option<string>, now: string) returns (reset: nat)
    modifies t
    ensures var entries := RetrySelected(old(t.papers), paperId);
      t.papers == Run(old(t.papers), entries, RetryPlan(fromStage), now) && reset == |entries|
    ensures old(t.Valid()) ==> t.Valid()
  {
    var entries: seq<Entry>;
    if paperId.Some? && paperId.value != "" {
      entries := Select(t, paperId, InsufficientData);
    } else {
      var insufficient := t.PapersByStatus(InsufficientData);
      var skipped := t.PapersByStatus(Skipped);
      entries := insufficient + skipped;
    }
    ghost var papers := t.papers;
    reset := |entries|;
    if entries == [] {
      return;
    }
    var target := Stages.ResetTarget(fromStage);
    var i := 0;
    while i < |entries|
      invariant 0 <= i <= |entries|
      invariant t.papers == Run(papers, entries[..i], RetryPlan(fromStage), now)
      invariant old(t.Valid()) ==> t.Valid()
    {
      var r := t.UpdateStatus(entries[i].paperId, target, [Kwarg("reason", Text(""))], now);
      ApplyOne(papers, entries[i].paperId, Update(target, [Kwarg("reason", Text(""))]), now);
      RunStep(papers, entries, i, RetryPlan(fromStage), now);
      i := i + 1;
    }
    assert entries[..i] == entries;
  }

  /** The retry selection is a snapshot: the two stages are disjoint, so no id appears twice. */
  lemma RetrySnapshot(papers: seq<Entry>, paperId: Option<string>)
    requires UniqueIds(papers)
    ensures Snapshot(papers, RetrySelected(papers, paperId))
    ensures !(paperId.Some? && paperId.value != "") ==>
      forall e :: e in RetrySelected(papers, paperId) <==> e in papers && (e.status == InsufficientData || e.status == Skipped)
  {
    if paperId.Some? && paperId.value != "" {
      SelectedSnapshot(papers, paperId, InsufficientData);
    } else {
      var a := Filter(papers, StatusIs(InsufficientData));
      var b := Filter(papers, StatusIs(Skipped));
      FilterSnapshot(papers, StatusIs(InsufficientData));
      FilterSnapshot(papers, StatusIs(Skipped));
      forall e ensures e in a <==> e in papers && e.status == InsufficientData {
        FilterMembership(papers, StatusIs(InsufficientData), e);
      }
      forall e ensures e in b <==> e in papers && e.status == Skipped {
        FilterMembership(papers, StatusIs(Skipped), e);
      }
      ConcatUnique(papers, a, b);
    }
  }

  /** Two snapshots of a store with no entry in common join into one. */
  lemma ConcatUnique(papers: seq<Entry>, a: seq<Entry>, b: seq<Entry>)
    requires UniqueIds(papers) && Snapshot(papers, a) && Snapshot(papers, b)
    requires forall x, y :: x in a && y in b ==> x != y
    ensures Snapshot(papers, a + b)
  {
    var ab := a + b;
    forall i, j | 0 <= i < |a| <= j < |ab| ensures ab[i].paperId != ab[j].paperId {
      var x, y := ab[i], ab[j];
      assert x in a && y in b;
      var m :| 0 <= m < |papers| && papers[m] == x;
      var n :| 0 <= n < |papers| && papers[n] == y;
      assert m != n;
    }
  }

  /** A reset entry lands at the chosen stage with an empty reason; nothing else changes but the timestamp. */
  lemma RetryOutcome(e: Entry, fromStage: Option<string>, now: string)
    ensures Outcome(e, RetryPlan(fromStage)(e), now) ==
      e.(status := Stages.ResetTarget(fromStage), lastUpdated := now, reason := "")
    ensures e.status == InsufficientData || e.status == Skipped ==>
      Stages.Path(Stages.Retry, e.status, StagesOf(RetryPlan(fromStage)(e)))
  {
    var u := Update(Stages.ResetTarget(fromStage), [Kwarg("reason", Text(""))]);
    assert RetryPlan(fromStage)(e) == [u];
    OutcomeOne(e, u, now);
    KwargsOne(e.(status := u.status, lastUpdated := now), u.kwargs[0]);
    assert StagesOf([u])[1..] == [];
  }

  /** The effect of `cmd_retry` on the whole store. */
  lemma RetrySpec(papers: seq<Entry>, paperId: Option<string>, fromStage: Option<string>, now: string)
    requires UniqueIds(papers)
    ensures var ps := Run(papers, RetrySelected(papers, paperId), RetryPlan(fromStage), now);
      |ps| == |papers| && UniqueIds(ps) &&
      forall j :: 0 <= j < |papers| ==>
        ps[j] == if papers[j].paperId in Ids(RetrySelected(papers, paperId))
                 then papers[j].(status := Stages.ResetTarget(fromStage), lastUpdated := now, reason := "")
                 else papers[j]
  {
    RetrySnapshot(papers, paperId);
    RunEffect(papers, RetrySelected(papers, paperId), RetryPlan(fromStage), now);
    forall j | 0 <= j < |papers| {
      RetryOutcome(papers[j], fromStage, now);
    }
  }

  // ---------------------------------------------------------------------------
  // submit

  datatype SubmitVerdict = NoBlueprintPath | BlueprintMissing | AnalysisMissing | PrFailed | Submitted(prUrl: string)

  /**
   * How submission turns out for one entry. `fileExists` tells which paths
   * exist; `createPr` is the pull-request creator, given the Blueprint
   * path, the entry and its analysis, answering the PR's URL or nothing.
   */
  function SubmitVerdictOf(e: Entry, store: Analyzer.AnalysisStore, fileExists: string -> bool,
                           createPr: (string, Entry, PaperAnalysis) -> Option<string>): SubmitVerdict
  {
    if e.blueprintPath.None? || e.blueprintPath.value == "" then NoBlueprintPath
    else if !fileExists(e.blueprintPath.value) then BlueprintMissing
    else
      var loaded := Analyzer.LoadAnalysis(store, e.paperId);
      if loaded.None? then AnalysisMissing
      else
        var url := createPr(e.blueprintPath.value, e, loaded.value);
        if url.None? || url.value == "" then PrFailed else Submitted(url.value)
  }

  function SubmitUpdates(v: SubmitVerdict): seq<Update> {
    if v.Submitted? then [Update(PrCreated, [Kwarg("pr_url", Text(v.prUrl))])] else []
  }

  function SubmitPlan(store: Analyzer.AnalysisStore, fileExists: string -> bool,
                      createPr: (string, Entry, PaperAnalysis) -> Option<string>): Entry -> seq<Update>
  {
    (e: Entry) => SubmitUpdates(SubmitVerdictOf(e, store, fileExists, createPr))
  }

  /** One pass of the submission loop. */
  method SubmitOne(t: Tracker, e: Entry, store: Analyzer.AnalysisStore, fileExists: string -> bool,
                   createPr: (string, Entry, PaperAnalysis) -> Option<string>, now: string)
    returns (v: SubmitVerdict)
    modifies t
    ensures v == SubmitVerdictOf(e, store, fileExists, createPr)
    ensures t.papers == Apply(old(t.papers), e.paperId, SubmitUpdates(v), now)
    ensures old(t.Valid()) ==> t.Valid()
  {
    if e.blueprintPath.None? || e.blueprintPath.value == "" {
      return NoBlueprintPath;
    }
    var path := e.blueprintPath.value;
    if !fileExists(path) {
      return BlueprintMissing;
    }
    var loaded := Analyzer.LoadAnalysis(store, e.paperId);
    if loaded.None? {
      return AnalysisMissing;
    }
    var url := createPr(path, e, loaded.value);
    if url.None? || url.value == "" {
      return PrFailed;
    }
    v := Submitted(url.value);
    var r := t.UpdateStatus(e.paperId, PrCreated, [Kwarg("pr_url", Text(url.value))], now);
    ApplyOne(old(t.papers), e.paperId, Update(PrCreated, [Kwarg("pr_url", Text(url.value))]), now);
  }

  /** `cmd_submit`. */
  method CmdSubmit(t: Tracker, paperId: Option<string>, store: Analyzer.AnalysisStore, fileExists: string -> bool,
                   createPr: (string, Entry, PaperAnalysis) -> Option<string>, now: string)
    modifies t
    ensures t.papers == Run(old(t.papers), Selected(old(t.papers), paperId, Approved), SubmitPlan(store, fileExists, createPr), now)
    ensures old(t.Valid()) ==> t.Valid()
  {
    var entries := Select(t, paperId, Approved);
    ghost var papers := t.papers;
    if entries == [] {
      return;
    }
    var i := 0;
    while i < |entries|
      invariant 0 <= i <= |entries|
      invariant t.papers == Run(papers, entries[..i], SubmitPlan(store, fileExists, createPr), now)
      invariant old(t.Valid()) ==> t.Valid()
    {
      var v := SubmitOne(t, entries[i], store, fileExists, createPr, now);
      RunStep(papers, entries, i, SubmitPlan(store, fileExists, createPr), now);
      i := i + 1;
    }
    assert entries[..i] == entries;
  }

  /**
   * Submission changes an entry only when its Blueprint path is set, the
   * file exists, its analysis loads and the PR creator answers a URL; the
   * entry then moves to PR_CREATED with that URL recorded. In every other
   * case the entry is untouched.
   */
  lemma SubmitOutcome(e: Entry, store: Analyzer.AnalysisStore, fileExists: string -> bool,
                      createPr: (string, Entry, PaperAnalysis) -> Option<string>, now: string)
    ensures var v := SubmitVerdictOf(e, store, fileExists, createPr);
      var o := Outcome(e, SubmitPlan(store, fileExists, createPr)(e), now);
      (v.Submitted? <==>
        e.blueprintPath.Some? && e.blueprintPath.value != "" && fileExists(e.blueprintPath.value) &&
        Analyzer.LoadAnalysis(store, e.paperId).Some? &&
        var url := createPr(e.blueprintPath.value, e, Analyzer.LoadAnalysis(store, e.paperId).value);
        url.Some? && url.value != "") &&
      (v.Submitted? ==> o == e.(status := PrCreated, lastUpdated := now, prUrl := Some(v.prUrl)) && v.prUrl != "") &&
      (!v.Submitted? ==> o == e)
    ensures e.status == Approved ==> Stages.Path(Stages.Submit, e.status, StagesOf(SubmitPlan(store, fileExists, createPr)(e)))
  {
    var v := SubmitVerdictOf(e, store, fileExists, createPr);
    var us := SubmitPlan(store, fileExists, createPr)(e);
    if v.Submitted? {
      OutcomeOne(e, us[0], now);
      KwargsOne(e.(status := PrCreated, lastUpdated := now), us[0].kwargs[0]);
      assert StagesOf(us)[1..] == [];
    }
  }

  /** The effect of `cmd_submit` on the whole store. */
  lemma SubmitSpec(papers: seq<Entry>, paperId: Option<string>, store: Analyzer.AnalysisStore, fileExists: string -> bool,
                   createPr: (string, Entry, PaperAnalysis) -> Option<string>, now: string)
    requires UniqueIds(papers)
    ensures var entries := Selected(papers, paperId, Approved);
      var ps := Run(papers, entries, SubmitPlan(store, fileExists, createPr), now);
      |ps| == |papers| && UniqueIds(ps) &&
      forall j :: 0 <= j < |papers| ==>
        var v := SubmitVerdictOf(papers[j], store, fileExists, createPr);
        ps[j] == if papers[j].paperId in Ids(entries) && v.Submitted?
                 then papers[j].(status := PrCreated, lastUpdated := now, prUrl := Some(v.prUrl))
                 else papers[j]
  {
    var entries := Selected(papers, paperId, Approved);
    SelectedSnapshot(papers, paperId, Approved);
    RunEffect(papers, entries, SubmitPlan(store, fileExists, createPr), now);
    forall j | 0 <= j < |papers| {
      SubmitOutcome(papers[j], store, fileExists, createPr, now);
    }
  }

  // ---------------------------------------------------------------------------
  // run

  /** The outside world `cmd_run` talks to, one oracle per service. */
  datatype Services = Services(
    arxiv: (string, int) -> seq<Discovery.ArxivResult>,
    s2: (string, nat) -> Discovery.S2Reply,
    download: string -> bool,
    pdfExists: string -> bool,
    analyze: string -> AnalysisReply,
    gemini: string -> Result<string>,
    parse: string -> Validators.Parsed)

  /** `cmd_run` generates with validation on and with Gemini. */
  function RunOptions(config: PipelineConfig): GenerateOptions {
    GenerateOptions(true, false, config, config.outputDir)
  }

  /** The state `cmd_run` works on: the tracked entries, the saved analyses and the Blueprint files. */
  datatype World = World(papers: seq<Entry>, store: Analyzer.AnalysisStore, files: map<string, Content>)

  function AfterDiscover(w: World, config: PipelineConfig, query: Option<string>, maxResults: Option<int>,
                         sv: Services, now: string): World
  {
    w.(papers := Tracked(w.papers, Discovery.Discovered(config, query, maxResults, sv.arxiv, sv.s2), now))
  }

  function AfterDownload(w: World, sv: Services, now: string): World {
    w.(papers := Run(w.papers, Selected(w.papers, None, Discovered), DownloadPlan(sv.download), now))
  }

  function AfterAnalyze(w: World, config: PipelineConfig, sv: Services, now: string): World {
    var entries := Selected(w.papers, None, Downloaded);
    World(Run(w.papers, entries, AnalyzePlan(config.analysesDir, sv.pdfExists, sv.analyze), now),
          SavedAnalyses(w.store, entries, sv.pdfExists, sv.analyze), w.files)
  }

  function AfterGenerate(w: World, config: PipelineConfig, sv: Services, now: string): World {
    var entries := Selected(w.papers, None, Analyzed);
    w.(papers := Run(w.papers, entries, GeneratePlan(w.store, RunOptions(config), sv.gemini, sv.parse), now),
       files := Generation(w.files, entries, w.store, RunOptions(config), sv.gemini, sv.parse).0)
  }

  /** The state after `cmd_run`, stopping after the stage `stopAfter` names. */
  function PipelineRun(w: World, config: PipelineConfig, query: Option<string>, maxResults: Option<int>,
                       sv: Services, stopAfter: Option<string>, now: string): World
  {
    var w1 := AfterDiscover(w, config, query, maxResults, sv, now);
    if stopAfter == Some("discover") then w1
    else
      var w2 := AfterDownload(w1, sv, now);
      if stopAfter == Some("download") then w2
      else
        var w3 := AfterAnalyze(w2, config, sv, now);
        if stopAfter == Some("analyze") then w3
        else AfterGenerate(w3, config, sv, now)
  }

  /** `cmd_run`: discover, download, analyze and generate, each over the whole store. */
  method CmdRun(t: Tracker, config: PipelineConfig, query: Option<string>, maxResults: Option<int>, sv: Services,
                stopAfter: Option<string>, store: Analyzer.AnalysisStore, files: map<string, Content>, now: string)
    returns (saved: Analyzer.AnalysisStore, written: map<string, Content>)
    modifies t
    ensures World(t.papers, saved, written) ==
      PipelineRun(World(old(t.papers), store, files), config, query, maxResults, sv, stopAfter, now)
    ensures old(t.Valid()) ==> t.Valid()
  {
    saved, written := store, files;
    var added, skipped := CmdDiscover(t, config, query, maxResults, sv.arxiv, sv.s2, now);
    if stopAfter == Some("discover") {
      return;
    }
    var success, total := CmdDownload(t, None, sv.download, now);
    if stopAfter == Some("download") {
      return;
    }
    var tally;
    tally, saved := CmdAnalyze(t, None, config.analysesDir, sv.pdfExists, sv.analyze, store, now);
    if stopAfter == Some("analyze") {
      return;
    }
    var generated;
    generated, written := CmdGenerate(t, None, saved, RunOptions(config), sv.gemini, sv.parse, files, now);
  }

  /** Stages reached only by review or outside the pipeline. */
  predicate Reviewed(s: Stage) {
    s == Approved || s == Uploaded || s == Denied || s == PrCreated
  }

  /**
   * `qs` comes from `ps` without touching review: entries keep their place
   * and id, ids stay unique, an entry at a reviewed stage afterwards is the
   * same entry as before, and appended entries are not at a reviewed stage.
   */
  predicate LeavesReview(ps: seq<Entry>, qs: seq<Entry>) {
    |ps| <= |qs| && UniqueIds(qs) &&
    (forall j :: 0 <= j < |ps| ==> qs[j].paperId == ps[j].paperId && (Reviewed(qs[j].status) ==> qs[j] == ps[j])) &&
    (forall j :: |ps| <= j < |qs| ==> !Reviewed(qs[j].status))
  }

  lemma LeavesReviewTrans(a: seq<Entry>, b: seq<Entry>, c: seq<Entry>)
    requires LeavesReview(a, b) && LeavesReview(b, c)
    ensures LeavesReview(a, c)
  {
  }

  /** One stored entry across a run that never ends an entry at a reviewed stage; `b` is the entry after it. */
  lemma RunEntryLeavesReview(papers: seq<Entry>, entries: seq<Entry>, plan: Entry -> seq<Update>, now: string,
                             b: Entry, j: nat)
    requires UniqueIds(papers) && Snapshot(papers, entries) && j < |papers|
    requires forall e :: e in entries ==> !Reviewed(Outcome(e, plan(e), now).status)
    requires b == if papers[j].paperId in Ids(entries) then Outcome(papers[j], plan(papers[j]), now) else papers[j]
    ensures b.paperId == papers[j].paperId && (Reviewed(b.status) ==> b == papers[j])
  {
    OutcomeKeepsIdentity(papers[j], plan(papers[j]), now);
    if papers[j].paperId in Ids(entries) {
      var e :| e in entries && e.paperId == papers[j].paperId;
      var m :| 0 <= m < |papers| && papers[m] == e;
      assert m == j;
    }
  }

  /** A command that works on a snapshot and never ends an entry at a reviewed stage leaves review alone. */
  lemma RunLeavesReview(papers: seq<Entry>, entries: seq<Entry>, plan: Entry -> seq<Update>, now: string)
    requires UniqueIds(papers) && Snapshot(papers, entries)
    requires forall e :: e in entries ==> !Reviewed(Outcome(e, plan(e), now).status)
    ensures LeavesReview(papers, Run(papers, entries, plan, now))
  {
    RunEffect(papers, entries, plan, now);
    var ps := Run(papers, entries, plan, now);
    forall j | 0 <= j < |papers|
      ensures ps[j].paperId == papers[j].paperId && (Reviewed(ps[j].status) ==> ps[j] == papers[j])
    {
      RunEntryLeavesReview(papers, entries, plan, now, ps[j], j);
    }
  }

  lemma DiscoverLeavesReview(w: World, config: PipelineConfig, query: Option<string>, maxResults: Option<int>,
                             sv: Services, now: string)
    requires UniqueIds(w.papers)
    ensures LeavesReview(w.papers, AfterDiscover(w, config, query, maxResults, sv, now).papers)
  {
    var found := Discovery.Discovered(config, query, maxResults, sv.arxiv, sv.s2);
    TrackedExtends(w.papers, found, now);
    TrackedNew(w.papers, found, now);
    var ps := Tracked(w.papers, found, now);
    forall j | 0 <= j < |w.papers| ensures ps[j] == w.papers[j] {
    }
  }

  lemma DownloadLeavesReview(w: World, sv: Services, now: string)
    requires UniqueIds(w.papers)
    ensures LeavesReview(w.papers, AfterDownload(w, sv, now).papers)
  {
    var entries := Selected(w.papers, None, Discovered);
    SelectedSnapshot(w.papers, None, Discovered);
    forall e | e in entries ensures !Reviewed(Outcome(e, DownloadPlan(sv.download)(e), now).status) {
      DownloadOutcome(e, sv.download, now);
    }
    RunLeavesReview(w.papers, entries, DownloadPlan(sv.download), now);
  }

  lemma AnalyzeLeavesReview(w: World, config: PipelineConfig, sv: Services, now: string)
    requires UniqueIds(w.papers)
    ensures LeavesReview(w.papers, AfterAnalyze(w, config, sv, now).papers)
  {
    var entries := Selected(w.papers, None, Downloaded);
    var plan := AnalyzePlan(config.analysesDir, sv.pdfExists, sv.analyze);
    SelectedSnapshot(w.papers, None, Downloaded);
    forall e | e in entries ensures !Reviewed(Outcome(e, plan(e), now).status) {
      AnalyzeOutcome(e, config.analysesDir, sv.pdfExists, sv.analyze, now);
    }
    RunLeavesReview(w.papers, entries, plan, now);
  }

  lemma GenerateLeavesReview(w: World, config: PipelineConfig, sv: Services, now: string)
    requires UniqueIds(w.papers)
    ensures LeavesReview(w.papers, AfterGenerate(w, config, sv, now).papers)
  {
    var entries := Selected(w.papers, None, Analyzed);
    var plan := GeneratePlan(w.store, RunOptions(config), sv.gemini, sv.parse);
    SelectedSnapshot(w.papers, None, Analyzed);
    forall e | e in entries ensures !Reviewed(Outcome(e, plan(e), now).status) {
      GenerateOutcome(e, GenerateVerdictOf(e, w.store, RunOptions(config), sv.gemini, sv.parse), now);
    }
    RunLeavesReview(w.papers, entries, plan, now);
  }

  /**
   * The automated run never touches review: every entry keeps its place and
   * id, ids stay unique, an entry at APPROVED, UPLOADED, DENIED or
   * PR_CREATED afterwards was there, unchanged, before, and no new entry
   * reaches those stages.
   */
  lemma PipelineRunLeavesReview(w: World, config: PipelineConfig, query: Option<string>, maxResults: Option<int>,
                                sv: Services, stopAfter: Option<string>, now: string)
    requires UniqueIds(w.papers)
    ensures LeavesReview(w.papers, PipelineRun(w, config, query, maxResults, sv, stopAfter, now).papers)
  {
    var w1 := AfterDiscover(w, config, query, maxResults, sv, now);
    DiscoverLeavesReview(w, config, query, maxResults, sv, now);
    if stopAfter != Some("discover") {
      var w2 := AfterDownload(w1, sv, now);
      DownloadLeavesReview(w1, sv, now);
      LeavesReviewTrans(w.papers, w1.papers, w2.papers);
      if stopAfter != Some("download") {
        var w3 := AfterAnalyze(w2, config, sv, now);
        AnalyzeLeavesReview(w2, config, sv, now);
        LeavesReviewTrans(w.papers, w2.papers, w3.papers);
        if stopAfter != Some("analyze") {
          var w4 := AfterGenerate(w3, config, sv, now);
          GenerateLeavesReview(w3, config, sv, now);
          LeavesReviewTrans(w.papers, w3.papers, w4.papers);
          assert PipelineRun(w, config, query, maxResults, sv, stopAfter, now) == w4;
        } else {
          assert PipelineRun(w, config, query, maxResults, sv, stopAfter, now) == w3;
        }
      } else {
        assert PipelineRun(w, config, query, maxResults, sv, stopAfter, now) == w2;
      }
    }
  }

  /** The stages `cmd_run` selects from. */
  predicate RunInput(s: Stage) {
    s == Discovered || s == Downloaded || s == Analyzed
  }

  /** `qs` extends `ps`, and every entry of `ps` at a stage the run never selects is the same in `qs`. */
  predicate KeepsParked(ps: seq<Entry>, qs: seq<Entry>) {
    |ps| <= |qs| && forall j :: 0 <= j < |ps| && !RunInput(ps[j].status) ==> qs[j] == ps[j]
  }

  /** A command that selects by stage alone leaves every entry at another stage as it was. */
  lemma RunKeepsUnselected(papers: seq<Entry>, stage: Stage, plan: Entry -> seq<Update>, now: string)
    requires UniqueIds(papers)
    ensures var qs := Run(papers, Selected(papers, None, stage), plan, now);
      |qs| == |papers| && UniqueIds(qs) &&
      forall j :: 0 <= j < |papers| && papers[j].status != stage ==> qs[j] == papers[j]
  {
    var entries := Selected(papers, None, stage);
    SelectedSnapshot(papers, None, stage);
    RunEffect(papers, entries, plan, now);
    forall j | 0 <= j < |papers| && papers[j].status != stage
      ensures papers[j].paperId !in Ids(entries)
    {
      forall e | e in entries ensures e.paperId != papers[j].paperId {
        var m :| 0 <= m < |papers| && papers[m] == e;
        assert m != j;
      }
    }
  }

  /** One selecting stage of the run keeps every entry outside the run's input stages. */
  lemma StageKeepsParked(papers: seq<Entry>, stage: Stage, plan: Entry -> seq<Update>, now: string)
    requires UniqueIds(papers) && RunInput(stage)
    ensures var qs := Run(papers, Selected(papers, None, stage), plan, now);
      UniqueIds(qs) && KeepsParked(papers, qs)
  {
    RunKeepsUnselected(papers, stage, plan, now);
  }

  lemma KeepsParkedTrans(a: seq<Entry>, b: seq<Entry>, c: seq<Entry>)
    requires KeepsParked(a, b) && KeepsParked(b, c)
    ensures KeepsParked(a, c)
  {
  }

  lemma DiscoverKeepsParked(w: World, config: PipelineConfig, query: Option<string>, maxResults: Option<int>,
                            sv: Services, now: string)
    requires UniqueIds(w.papers)
    ensures var qs := AfterDiscover(w, config, query, maxResults, sv, now).papers;
      UniqueIds(qs) && KeepsParked(w.papers, qs)
  {
    var found := Discovery.Discovered(config, query, maxResults, sv.arxiv, sv.s2);
    TrackedExtends(w.papers, found, now);
    var ps := Tracked(w.papers, found, now);
    forall j | 0 <= j < |w.papers| ensures ps[j] == w.papers[j] {
    }
  }

  lemma DownloadKeepsParked(w: World, sv: Services, now: string)
    requires UniqueIds(w.papers)
    ensures var qs := AfterDownload(w, sv, now).papers;
      UniqueIds(qs) && KeepsParked(w.papers, qs)
  {
    StageKeepsParked(w.papers, Discovered, DownloadPlan(sv.download), now);
  }

  lemma AnalyzeKeepsParked(w: World, config: PipelineConfig, sv: Services, now: string)
    requires UniqueIds(w.papers)
    ensures var qs := AfterAnalyze(w, config, sv, now).papers;
      UniqueIds(qs) && KeepsParked(w.papers, qs)
  {
    StageKeepsParked(w.papers, Downloaded, AnalyzePlan(config.analysesDir, sv.pdfExists, sv.analyze), now);
  }

  lemma GenerateKeepsParked(w: World, config: PipelineConfig, sv: Services, now: string)
    requires UniqueIds(w.papers)
    ensures var qs := AfterGenerate(w, config, sv, now).papers;
      UniqueIds(qs) && KeepsParked(w.papers, qs)
  {
    StageKeepsParked(w.papers, Analyzed, GeneratePlan(w.store, RunOptions(config), sv.gemini, sv.parse), now);
  }

  /**
   * `cmd_run` passes no paper id, so each of its stages selects by stage
   * alone: an entry that was at READY_FOR_REVIEW, at a reviewed stage, at
   * SKIPPED, at INSUFFICIENT_DATA or at a transient stage before the run is
   * the same entry, at the same place, after it.
   */
  lemma PipelineRunKeepsParked(w: World, config: PipelineConfig, query: Option<string>, maxResults: Option<int>,
                               sv: Services, stopAfter: Option<string>, now: string)
    requires UniqueIds(w.papers)
    ensures KeepsParked(w.papers, PipelineRun(w, config, query, maxResults, sv, stopAfter, now).papers)
  {
    var w1 := AfterDiscover(w, config, query, maxResults, sv, now);
    DiscoverKeepsParked(w, config, query, maxResults, sv, now);
    if stopAfter != Some("discover") {
      var w2 := AfterDownload(w1, sv, now);
      DownloadKeepsParked(w1, sv, now);
      KeepsParkedTrans(w.papers, w1.papers, w2.papers);
      if stopAfter != Some("download") {
        var w3 := AfterAnalyze(w2, config, sv, now);
        AnalyzeKeepsParked(w2, config, sv, now);
        KeepsParkedTrans(w.papers, w2.papers, w3.papers);
        if stopAfter != Some("analyze") {
          var w4 := AfterGenerate(w3, config, sv, now);
          GenerateKeepsParked(w3, config, sv, now);
          KeepsParkedTrans(w.papers, w3.papers, w4.papers);
          assert PipelineRun(w, config, query, maxResults, sv, stopAfter, now) == w4;
        } else {
          assert PipelineRun(w, config, query, maxResults, sv, stopAfter, now) == w3;
        }
      } else {
        assert PipelineRun(w, config, query, maxResults, sv, stopAfter, now) == w2;
      }
    }
  }

  /** In particular, a run leaves every entry awaiting or past review exactly as it found it. */
  lemma PipelineRunKeepsReviewQueue(w: World, config: PipelineConfig, query: Option<string>, maxResults: Option<int>,
                                    sv: Services, stopAfter: Option<string>, now: string)
    requires UniqueIds(w.papers)
    ensures var ps := PipelineRun(w, config, query, maxResults, sv, stopAfter, now).papers;
      |w.papers| <= |ps| &&
      forall j :: 0 <= j < |w.papers| && (w.papers[j].status == ReadyForReview || Reviewed(w.papers[j].status)) ==>
        ps[j] == w.papers[j]
  {
    PipelineRunKeepsParked(w, config, query, maxResults, sv, stopAfter, now);
  }
}
