/**
 * The stage policy of the command-line drivers in `pipeline.py`, collected
 * from their `update_status` calls into one explicit relation: which
 * command moves an entry from which stage to which, where a failure sends
 * it back, and where `retry` restarts it.
 */
module Stages {
  import opened Wrappers
  import opened Models

  /** The commands that move tracked entries. */
  datatype Command = Download | Analyze | Generate | Submit | Retry

  /** The stages a command selects its entries from when no paper id is given. */
  function Inputs(c: Command): seq<Stage> {
    match c
    case Download => [Discovered]
    case Analyze => [Downloaded]
    case Generate => [Analyzed]
    case Submit => [Approved]
    case Retry => [InsufficientData, Skipped]
  }

  /**
   * The moves a command makes on an entry it selected by stage: each is one
   * `update_status` call, from the stage the entry is in to the next one.
   */
  predicate Move(c: Command, from: Stage, to: Stage) {
    match c
    case Download =>
      (from == Discovered && to == Downloading) ||
      (from == Downloading && (to == Downloaded || to == Skipped))
    case Analyze =>
      (from == Downloaded && (to == Skipped || to == Analyzing)) ||
      (from == Analyzing && (to == Analyzed || to == InsufficientData || to == Downloaded))
    case Generate =>
      (from == Analyzed && to == Converting) ||
      (from == Converting && (to == ReadyForReview || to == Analyzed))
    case Submit =>
      from == Approved && to == PrCreated
    case Retry =>
      (from == InsufficientData || from == Skipped) &&
      (to == Discovered || to == Downloaded || to == Analyzed)
  }

  /** A command takes an entry from `from` through `path`, one move per stage. */
  predicate Path(c: Command, from: Stage, path: seq<Stage>)
    decreases |path|
  {
    path == [] || (Move(c, from, path[0]) && Path(c, path[0], path[1..]))
  }

  /** Stages an entry holds only while a command works on it. */
  predicate Transient(s: Stage) {
    s == Downloading || s == Analyzing || s == Converting
  }

  /** The stage a failed download, analysis or generation leaves the entry in. */
  function Rollback(s: Stage): Option<Stage> {
    match s
    case Downloading => Some(Skipped)
    case Analyzing => Some(Downloaded)
    case Converting => Some(Analyzed)
    case _ => None
  }

  /**
   * The stage `retry --from-stage` resets to; without the option the stage
   * name is "download", and a name outside the three restarts from the start.
   */
  function ResetTarget(fromStage: Option<string>): (s: Stage)
    ensures s == Discovered || s == Downloaded || s == Analyzed
  {
    var name := if fromStage.Some? then fromStage.value else "download";
    if name == "download" then Discovered
    else if name == "analyze" then Downloaded
    else if name == "generate" then Analyzed
    else Discovered
  }

  /** The position of a stage on the main line from discovery to upload; parking stages have none. */
  function Rank(s: Stage): Option<nat> {
    match s
    case Discovered => Some(0)
    case Downloading => Some(1)
    case Downloaded => Some(2)
    case Analyzing => Some(3)
    case Analyzed => Some(4)
    case Converting => Some(5)
    case ReadyForReview => Some(6)
    case Approved => Some(7)
    case PrCreated => Some(8)
    case Uploaded => Some(9)
    case _ => None
  }

  // ---------------------------------------------------------------------------
  // Properties

  /**
   * Exactly the three working stages have a rollback; the rollback is never
   * DISCOVERED, it is a move of the command that owns the working stage, and
   * after a failed analysis or generation the entry is back at that command's
   * input stage, so the next run of the command picks it up again.
   */
  lemma RollbackTargets(s: Stage)
    ensures Rollback(s).Some? <==> Transient(s)
    ensures Rollback(s).Some? ==> Rollback(s).value != Discovered
    ensures s == Downloading ==> Move(Download, s, Rollback(s).value) && Rollback(s).value in Inputs(Retry)
    ensures s == Analyzing ==> Move(Analyze, s, Rollback(s).value) && Rollback(s).value in Inputs(Analyze)
    ensures s == Converting ==> Move(Generate, s, Rollback(s).value) && Rollback(s).value in Inputs(Generate)
  {
  }

  /**
   * Every move of every command is one step forward on the main line, a
   * rollback out of a working stage, a park in SKIPPED or INSUFFICIENT_DATA,
   * or a retry reset out of a parking stage.
   */
  lemma MoveKinds(c: Command, from: Stage, to: Stage)
    requires Move(c, from, to)
    ensures
      (Rank(from).Some? && Rank(to).Some? && Rank(to).value == Rank(from).value + 1) ||
      Rollback(from) == Some(to) ||
      to == Skipped || to == InsufficientData ||
      (c == Retry && (from == Skipped || from == InsufficientData))
  {
  }

  /** No command approves, uploads or denies an entry: those stages are set outside the pipeline. */
  lemma NoCommandReviews(c: Command, from: Stage)
    ensures !Move(c, from, Approved) && !Move(c, from, Uploaded) && !Move(c, from, Denied)
  {
  }

  /**
   * A command's moves start at one of its input stages or at a working stage
   * the command itself entered, and every working stage it enters it also
   * leaves.
   */
  lemma MovesStartAtInputs(c: Command, from: Stage, to: Stage)
    requires Move(c, from, to)
    ensures from in Inputs(c) || (Transient(from) && exists i :: Move(c, i, from))
    ensures Transient(to) ==> exists next :: Move(c, to, next)
  {
    match c
    case Download =>
      if from == Downloading {
        assert Move(c, Discovered, from);
      }
      if to == Downloading {
        assert Move(c, to, Downloaded);
      }
    case Analyze =>
      if from == Analyzing {
        assert Move(c, Downloaded, from);
      }
      if to == Analyzing {
        assert Move(c, to, Analyzed);
      }
    case Generate =>
      if from == Converting {
        assert Move(c, Analyzed, from);
      }
      if to == Converting {
        assert Move(c, to, ReadyForReview);
      }
    case Submit =>
    case Retry =>
  }

  /** A retry reset never parks an entry: it always lands on the main line before review. */
  lemma ResetOnMainLine(fromStage: Option<string>)
    ensures Rank(ResetTarget(fromStage)).Some? && Rank(ResetTarget(fromStage)).value <= 4
    ensures fromStage.None? ==> ResetTarget(fromStage) == Discovered
    ensures ResetTarget(fromStage) != Discovered ==>
      fromStage == Some("analyze") || fromStage == Some("generate")
  {
  }
}
