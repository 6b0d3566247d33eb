/**
  The daemon's shared state.  One backup cycle at a time works on a copy of the state while
  requests and verification change the original; the copy is merged back under a commit lock.
 */
module Cycle {
  import opened Common

  datatype Warning = Warning(ts: int, message: string, watchedPath: Option<string>, keptVersionId: Option<string>)

  datatype ReplicationStatus = ReplicationStatus(
    runTs: Option<int>,
    status: Option<string>,
    error: Option<string>,
    summary: ReplicationSummary)

  datatype ReplicationSummary = ReplicationSummary(
    bytesCopied: nat,
    blobsCopied: nat,
    manifestsCopied: nat,
    manifestsDeleted: nat,
    pairsOk: nat,
    pairsFailed: nat,
    targetsFailed: seq<string>)

  datatype VerifyStatus = VerifyStatus(ts: Option<int>, status: Option<string>, issues: Option<nat>)

  datatype DestinationStatus = DestinationStatus(
    paused: bool,
    pauseReason: Option<string>,
    unavailableIds: seq<string>,
    lastUnavailableTs: Option<int>,
    lastRecoveredTs: Option<int>)

  datatype Report = Report(lastError: Option<string>, lastFilesBackedUp: nat, lastDirtyCount: nat)

  /** The fields only a cycle writes. */
  datatype CycleState = CycleState(
    startTs: Option<int>,
    lastRunTs: Option<int>,
    cyclesSinceFullScan: nat,
    report: Report,
    destination: DestinationStatus,
    replication: ReplicationStatus)

  /** The fields of the stored state that the runtime writes; the warning has several writers. */
  datatype StoredState = StoredState(
    cycle: CycleState,
    verify: VerifyStatus,
    lastScrubFullTs: Option<int>,
    safeMode: bool,
    warning: Option<Warning>)

  datatype Config = Config(safeMode: bool, forceFullScanIntervalCycles: nat)
  {
    function Interval(): nat {
      if forceFullScanIntervalCycles < 1 then 1 else forceFullScanIntervalCycles
    }
  }

  // ----- Destination health -----

  datatype Health = Health(id: string, ok: bool, message: string)

  function Failing(health: seq<Health>): seq<Health> {
    if health == [] then []
    else
      var init := Failing(health[..|health| - 1]);
      if health[|health| - 1].ok then init else init + [health[|health| - 1]]
  }

  function Ids(health: seq<Health>): seq<string> {
    seq(|health|, i requires 0 <= i < |health| => health[i].id)
  }

  function Details(health: seq<Health>): string {
    if health == [] then ""
    else
      var last := health[|health| - 1];
      var text := last.id + " (" + last.message + ")";
      if |health| == 1 then text else Details(health[..|health| - 1]) + ", " + text
  }

  const UNAVAILABLE := "Destination unavailable:"

  /** What the probes of all destinations amount to. */
  datatype Finding = AllThere | Away(ids: seq<string>, reason: string)

  function Examine(health: seq<Health>): Finding {
    var failing := Failing(health);
    if failing == [] then AllThere
    else Away(Ids(failing),
              UNAVAILABLE + " " + Details(failing) +
                ". Writes paused and will auto-resume when the destination returns.")
  }

  predicate Healthy(health: seq<Health>) {
    forall i :: 0 <= i < |health| ==> health[i].ok
  }

  /** All are there exactly when every probe succeeded. */
  lemma {:induction false} ExamineHealthy(health: seq<Health>)
    ensures Examine(health).AllThere? <==> Healthy(health)
  {
    if health != [] {
      var n := |health| - 1;
      ExamineHealthy(health[..n]);
      assert forall i :: 0 <= i < n ==> health[..n][i] == health[i];
    }
  }

  /** Exactly the destinations whose probe failed are reported, in order, under the pause message. */
  lemma {:induction false} ExamineAway(health: seq<Health>) returns (positions: seq<nat>)
    requires !Healthy(health)
    ensures Examine(health).Away? && |Examine(health).ids| == |positions| && UNAVAILABLE <= Examine(health).reason
    ensures FailsAt(health, Failing(health), positions)
    ensures forall k :: 0 <= k < |positions| ==>
              positions[k] < |health| && Examine(health).ids[k] == health[positions[k]].id
  {
    ExamineHealthy(health);
    positions := FailingAt(health);
  }

  lemma {:induction false} FailingAt(health: seq<Health>) returns (positions: seq<nat>)
    ensures FailsAt(health, Failing(health), positions)
  {
    positions := [];
    if health != [] {
      var n := |health| - 1;
      positions := FailingAt(health[..n]);
      FailsAtSnoc(health, Failing(health[..n]), positions);
      if !health[n].ok {
        positions := positions + [n];
      }
    }
  }

  /** The probes at these positions failed, they are the listed ones, and no other failed. */
  ghost predicate FailsAt(health: seq<Health>, failing: seq<Health>, positions: seq<nat>) {
    && |positions| == |failing|
    && (forall a, b :: 0 <= a < b < |positions| ==> positions[a] < positions[b])
    && (forall i :: 0 <= i < |health| ==> (!health[i].ok <==> i in positions))
    && (forall k :: 0 <= k < |positions| ==> positions[k] < |health| && failing[k] == health[positions[k]])
  }

  lemma FailsAtSnoc(health: seq<Health>, failing: seq<Health>, positions: seq<nat>)
    requires health != [] && FailsAt(health[..|health| - 1], failing, positions)
    ensures var n := |health| - 1;
            if health[n].ok then FailsAt(health, failing, positions)
            else FailsAt(health, failing + [health[n]], positions + [n])
  {
    var n := |health| - 1;
    assert forall i :: 0 <= i < n ==> health[..n][i] == health[i];
  }

  function ApplyDestinationHealth(was: DestinationStatus, found: Finding, now: int): DestinationStatus {
    match found
    case AllThere => DestinationStatus(false, None, [], was.lastUnavailableTs, was.lastRecoveredTs)
    case Away(ids, reason) =>
      var since := if !was.paused || was.lastUnavailableTs.None? then Some(now) else was.lastUnavailableTs;
      DestinationStatus(true, Some(reason), ids, since, was.lastRecoveredTs)
  }

  predicate Recovered(was: DestinationStatus, found: Finding) {
    was.paused && found.AllThere?
  }

  function ClearPauseError(error: Option<string>): Option<string> {
    if error.Some? && UNAVAILABLE <= error.value then None else error
  }

  /** The cycle's copy of the state after the destinations were probed. */
  function AfterProbe(state: CycleState, input: Input): CycleState {
    var found := ApplyDestinationHealth(state.destination, input.found, input.now);
    var back := Recovered(state.destination, input.found);
    state.(report := state.report.(lastDirtyCount := input.dirty,
                                   lastError := if back then ClearPauseError(state.report.lastError)
                                     else state.report.lastError),
           destination := if back then found.(lastRecoveredTs := Some(input.now), unavailableIds := []) else found)
  }

  // ----- Scan decision -----

  datatype Decision = RunFullScan | SkipClean(forceDueIn: nat)

  predicate FirstCycle(state: CycleState) {
    match (state.startTs, state.lastRunTs)
    case (_, None) => true
    case (Some(start), Some(last)) => last < start
    case (None, Some(_)) => false
  }

  function DecideScan(dirty: nat, state: CycleState, cfg: Config, force: bool): Decision {
    if force then RunFullScan
    else if dirty > 0 then RunFullScan
    else if FirstCycle(state) then RunFullScan
    else if cfg.Interval() <= 1 then RunFullScan
    else if state.cyclesSinceFullScan >= cfg.Interval() - 1 then RunFullScan
    else SkipClean(cfg.Interval() - 1 - state.cyclesSinceFullScan)
  }

  /** The number reported with a skip is how many further clean cycles may pass before a forced scan. */
  lemma ForcedScanComesDue(state: CycleState, cfg: Config, k: nat)
    requires DecideScan(0, state, cfg, false).SkipClean?
    ensures var later := state.(cyclesSinceFullScan := state.cyclesSinceFullScan + k);
            DecideScan(0, later, cfg, false) ==
            var due := DecideScan(0, state, cfg, false).forceDueIn;
            if k < due then SkipClean(due - k) else RunFullScan
  {
  }

  // ----- One cycle -----

  datatype Engine =
    | EngineFailed
    | EngineDone(versionsCreated: nat, warnings: seq<Warning>, replication: Option<Replication>)

  datatype Replication = Replicated(summary: ReplicationSummary, message: string) | ReplicationFailed(error: string)

  /** What one cycle meets: clocks, watchers, probes and the engine. */
  datatype Input = Input(now: int, safeNow: int, dirty: nat, drained: nat, found: Finding, engine: Engine)

  function Bump(state: CycleState): nat {
    SaturatingAdd(state.cyclesSinceFullScan, 1)
  }

  /** The end of a cycle that wrote nothing. */
  function WithoutBackup(state: CycleState, now: int, error: Option<string>): CycleState {
    state.(lastRunTs := Some(now), cyclesSinceFullScan := Bump(state),
      report := Report(error, 0, state.report.lastDirtyCount))
  }

  function ApplyBackupResult(state: CycleState, engine: Engine, now: int): CycleState
    requires engine.EngineDone?
  {
    state.(lastRunTs := Some(now), cyclesSinceFullScan := 0,
           report := Report(None, engine.versionsCreated, state.report.lastDirtyCount))
  }

  function LastWarning(engine: Engine, was: Option<Warning>): Option<Warning>
    requires engine.EngineDone?
  {
    if engine.warnings == [] then was else Some(engine.warnings[|engine.warnings| - 1])
  }

  function ApplyReplication(was: ReplicationStatus, replication: Option<Replication>, now: int): ReplicationStatus {
    match replication
    case None => was
    case Some(Replicated(summary, message)) =>
      var ok := summary.pairsFailed == 0;
      ReplicationStatus(Some(now), Some(if ok then "ok" else "degraded"), if ok then None else Some(message), summary)
    case Some(ReplicationFailed(error)) =>
      ReplicationStatus(Some(now), Some("failed"), Some(error), was.summary)
  }

  datatype Kind = SafeCycle | PausedCycle | SkippedCycle | FullCycle

  /** A cycle ends by committing its copy of the state, or the engine fails and it commits nothing. */
  datatype Outcome = Commit(kind: Kind, local: StoredState) | Abandon

  /** `run_cycle` from the baseline it read and the safe mode it saw. */
  function CycleOutcome(cfg: Config, baseline: StoredState, safe: bool, input: Input): Outcome {
    var state := AfterProbe(baseline.cycle, input);
    var local := baseline.(safeMode := safe);
    if cfg.safeMode || safe then
      Commit(SafeCycle, local.(cycle := WithoutBackup(state, input.safeNow, Some("Safe mode: no writes performed"))))
    else if state.destination.paused then
      Commit(PausedCycle, local.(cycle := WithoutBackup(state, input.now, state.destination.pauseReason)))
    else
      var drained := state.(report := state.report.(lastDirtyCount := input.drained));
      match DecideScan(input.drained, drained, cfg, Recovered(baseline.cycle.destination, input.found))
      case SkipClean(_) => Commit(SkippedCycle, local.(cycle := WithoutBackup(drained, input.now, None)))
      case RunFullScan =>
        if input.engine.EngineFailed? then Abandon
        else Commit(FullCycle, AfterBackup(local, drained, input))
  }

  function AfterBackup(local: StoredState, state: CycleState, input: Input): StoredState
    requires input.engine.EngineDone?
  {
    var backed := ApplyBackupResult(state, input.engine, input.now);
    local.(cycle := backed.(replication := ApplyReplication(backed.replication, input.engine.replication, input.now)),
           warning := LastWarning(input.engine, local.warning))
  }

  // ----- What a cycle comes to -----

  /** A healthy cycle has to scan: something changed, a pause ended, it is the first one, or the interval is over. */
  predicate MustScan(cfg: Config, was: CycleState, input: Input) {
    || input.drained > 0
    || was.destination.paused
    || was.lastRunTs.None?
    || (was.startTs.Some? && was.lastRunTs.value < was.startTs.value)
    || was.cyclesSinceFullScan + 1 >= cfg.forceFullScanIntervalCycles
  }

  /** How a cycle ends, by what it started from and what it met; None if the engine failed. */
  ghost predicate RightEnd(cfg: Config, was: CycleState, safe: bool, healthy: bool, input: Input, end: Option<Kind>) {
    var writes := !cfg.safeMode && !safe && healthy;
    && (end == Some(SafeCycle) <==> cfg.safeMode || safe)
    && (end == Some(PausedCycle) <==> !cfg.safeMode && !safe && !healthy)
    && (end == Some(SkippedCycle) <==> writes && !MustScan(cfg, was, input))
    && (end == Some(FullCycle) <==> writes && MustScan(cfg, was, input) && input.engine.EngineDone?)
    && (end.None? <==> writes && MustScan(cfg, was, input) && input.engine.EngineFailed?)
  }

  function EndOf(out: Outcome): Option<Kind> {
    if out.Commit? then Some(out.kind) else None
  }

  lemma OutcomeRight(cfg: Config, baseline: StoredState, safe: bool, input: Input)
    ensures RightEnd(cfg, baseline.cycle, safe, input.found.AllThere?, input,
                     EndOf(CycleOutcome(cfg, baseline, safe, input)))
  {
  }

  /** The same for the probes of the destinations. */
  lemma ProbedRight(cfg: Config, baseline: StoredState, safe: bool, probes: seq<Health>, rest: Input)
    ensures RightEnd(cfg, baseline.cycle, safe, Healthy(probes), rest,
                     EndOf(CycleOutcome(cfg, baseline, safe, rest.(found := Examine(probes)))))
  {
    ExamineHealthy(probes);
    OutcomeRight(cfg, baseline, safe, rest.(found := Examine(probes)));
  }

  /** What a committed cycle reports of itself. */
  ghost predicate RightReport(was: CycleState, input: Input, kind: Kind, now: CycleState) {
    && now.startTs == was.startTs
    && now.lastRunTs == Some(if kind == SafeCycle then input.safeNow else input.now)
    && now.cyclesSinceFullScan == (if kind == FullCycle then 0 else Min(was.cyclesSinceFullScan + 1, U64_MAX))
    && now.report.lastFilesBackedUp == (if kind == FullCycle then EngineVersions(input.engine) else 0)
    && now.report.lastDirtyCount == (if kind == SafeCycle || kind == PausedCycle then input.dirty else input.drained)
    && now.report.lastError ==
       (match kind
        case SafeCycle => Some("Safe mode: no writes performed")
        case PausedCycle => if input.found.Away? then Some(input.found.reason) else None
        case SkippedCycle => None
        case FullCycle => None)
  }

  function EngineVersions(engine: Engine): nat {
    if engine.EngineDone? then engine.versionsCreated else 0
  }

  /** What it records of the destinations: paused exactly while one is away, since when, and when they came back. */
  ghost predicate RightDestinations(was: DestinationStatus, input: Input, now: DestinationStatus) {
    && (now.paused <==> input.found.Away?)
    && (input.found.Away? ==>
          && now.pauseReason == Some(input.found.reason) && now.unavailableIds == input.found.ids
          && now.lastRecoveredTs == was.lastRecoveredTs
          && (was.paused && was.lastUnavailableTs.Some? ==> now.lastUnavailableTs == was.lastUnavailableTs)
          && (!(was.paused && was.lastUnavailableTs.Some?) ==> now.lastUnavailableTs == Some(input.now)))
    && (input.found.AllThere? ==>
          && now.pauseReason.None? && now.unavailableIds == [] && now.lastUnavailableTs == was.lastUnavailableTs
          && now.lastRecoveredTs == if was.paused then Some(input.now) else was.lastRecoveredTs)
  }

  /** What it records of a replication: only an engine run that replicated changes it. */
  ghost predicate RightReplication(was: ReplicationStatus, input: Input, kind: Kind, now: ReplicationStatus) {
    if kind == FullCycle && input.engine.EngineDone? && input.engine.replication.Some? then
      && now.runTs == Some(input.now)
      && match input.engine.replication.value
         case ReplicationFailed(error) =>
           now.status == Some("failed") && now.error == Some(error) && now.summary == was.summary
         case Replicated(summary, message) =>
           && now.summary == summary
           && (summary.pairsFailed == 0 ==> now.status == Some("ok") && now.error.None?)
           && (summary.pairsFailed != 0 ==> now.status == Some("degraded") && now.error == Some(message))
    else
      now == was
  }

  lemma OutcomeState(cfg: Config, baseline: StoredState, safe: bool, input: Input)
    requires CycleOutcome(cfg, baseline, safe, input).Commit?
    ensures var Commit(kind, local) := CycleOutcome(cfg, baseline, safe, input);
            && RightReport(baseline.cycle, input, kind, local.cycle)
            && RightDestinations(baseline.cycle.destination, input, local.cycle.destination)
            && RightReplication(baseline.cycle.replication, input, kind, local.cycle.replication)
  {
  }

  /** `merge_cycle_state`. */
  function Merge(current: StoredState, baselineWarning: Option<Warning>, cycle: StoredState): StoredState {
    cycle.(safeMode := current.safeMode,
           verify := current.verify,
           lastScrubFullTs := current.lastScrubFullTs,
           warning := if current.warning != baselineWarning then current.warning else cycle.warning)
  }

  datatype VerifyUpdate = VerifyUpdate(verify: VerifyStatus, scrubFullTs: Option<int>)

  function ApplyVerify(state: StoredState, update: VerifyUpdate): StoredState {
    state.(verify := update.verify,
           lastScrubFullTs := if update.scrubFullTs.Some? then update.scrubFullTs else state.lastScrubFullTs)
  }

  // ----- The system: one cycle task, verification, and any number of requests -----

  datatype Running = Running(baseline: StoredState, safeSeen: Option<bool>)

  /** The holder of the commit lock and the snapshot it is writing. */
  datatype Saver = Saver(byCycle: bool, snapshot: nat)

  /**
    The shared state, the running cycle, who holds the commit lock, every snapshot committed in
    order, and which of them reached the disk, in the order they did.
   */
  datatype Sys = Sys(
    shared: StoredState,
    cycle: Option<Running>,
    saving: Option<Saver>,
    commits: seq<StoredState>,
    disk: seq<nat>)
  {
    predicate CycleSaves() {
      saving.Some? && saving.value.byCycle
    }
  }

  datatype Event =
    | SetSafeMode(enabled: bool)
    | ClearWarning
    | BeginCycle
    | SeeSafeMode
    | CommitCycle(input: Input, kind: Kind, local: StoredState)
    | AbandonCycle
    | CommitVerify(update: VerifyUpdate)
    | Written
    | Released

  predicate Enabled(cfg: Config, s: Sys, e: Event) {
    match e
    case SetSafeMode(_) => true
    case ClearWarning => true
    case BeginCycle => s.cycle.None?
    case SeeSafeMode => s.cycle.Some? && !s.CycleSaves()
    case CommitCycle(input, kind, local) =>
      && s.cycle.Some? && s.saving.None?
      && s.cycle.value.safeSeen.Some?
      && CycleOutcome(cfg, s.cycle.value.baseline, s.cycle.value.safeSeen.value, input) == Commit(kind, local)
    case AbandonCycle => s.cycle.Some? && !s.CycleSaves()
    case CommitVerify(_) => s.saving.None?
    case Written => s.saving.Some?
    case Released => s.saving.Some?
  }

  /** Change the shared state and take the snapshot to save, both under the commit lock. */
  function Snapshot(s: Sys, shared: StoredState, byCycle: bool): Sys {
    s.(shared := shared, saving := Some(Saver(byCycle, |s.commits|)), commits := s.commits + [shared])
  }

  function Step(cfg: Config, s: Sys, e: Event): Sys
    requires Enabled(cfg, s, e)
  {
    match e
    case SetSafeMode(enabled) => s.(shared := s.shared.(safeMode := enabled))
    case ClearWarning => s.(shared := s.shared.(warning := None))
    case BeginCycle => s.(cycle := Some(Running(s.shared, None)))
    case SeeSafeMode => s.(cycle := Some(s.cycle.value.(safeSeen := Some(s.shared.safeMode))))
    case CommitCycle(_, _, local) => Snapshot(s, Merge(s.shared, s.cycle.value.baseline.warning, local), true)
    case AbandonCycle => s.(cycle := None)
    case CommitVerify(update) => Snapshot(s, ApplyVerify(s.shared, update), false)
    case Written => s.(disk := s.disk + [s.saving.value.snapshot])
    case Released => s.(saving := None, cycle := if s.CycleSaves() then None else s.cycle)
  }

  /** A run is a list of states joined by enabled events. */
  datatype Run = Run(states: seq<Sys>, events: seq<Event>)
  {
    ghost predicate Valid(cfg: Config) {
      && |states| == |events| + 1
      && states[0].cycle.None? && states[0].saving.None? && states[0].commits == [] && states[0].disk == []
      && forall k :: 0 <= k < |events| ==>
        Enabled(cfg, states[k], events[k]) && states[k + 1] == Step(cfg, states[k], events[k])
    }

    /** Event `k` commits a cycle of the given kind. */
    ghost predicate Commits(k: nat, kind: Kind)
      requires k < |events|
    {
      events[k].CommitCycle? && events[k].kind == kind
    }
  }

  /** One more event. */
  lemma Extended(cfg: Config, run: Run, e: Event) returns (more: Run)
    requires run.Valid(cfg) && Enabled(cfg, run.states[|run.events|], e)
    ensures more.Valid(cfg) && more.events == run.events + [e]
    ensures more.states == run.states + [Step(cfg, run.states[|run.events|], e)]
  {
    more := Run(run.states + [Step(cfg, run.states[|run.events|], e)], run.events + [e]);
  }

  // ----- What every step keeps -----

  /** `a` and `b` agree on everything but the fields requests and verification write. */
  predicate SameCycleFields(a: StoredState, b: StoredState) {
    a.cycle == b.cycle
  }

  predicate Ordered(disk: seq<nat>) {
    forall i, j :: 0 <= i <= j < |disk| ==> disk[i] <= disk[j]
  }

  /** Only the holder of the lock has an unsaved snapshot, the newest; the cycle's copy is current. */
  ghost predicate Inv(s: Sys) {
    && (s.CycleSaves() ==> s.cycle.Some?)
    && (s.cycle.Some? && !s.CycleSaves() ==> SameCycleFields(s.cycle.value.baseline, s.shared))
    && (s.saving.Some? ==> s.saving.value.snapshot + 1 == |s.commits|)
    && Ordered(s.disk)
    && (forall i :: 0 <= i < |s.disk| ==> s.disk[i] < |s.commits|)
  }

  lemma InvStep(cfg: Config, s: Sys, e: Event)
    requires Inv(s) && Enabled(cfg, s, e)
    ensures Inv(Step(cfg, s, e))
  {
  }

  lemma {:induction false} InvHolds(cfg: Config, run: Run, k: nat)
    requires run.Valid(cfg) && k <= |run.events|
    ensures Inv(run.states[k])
  {
    if k > 0 {
      InvHolds(cfg, run, k - 1);
      InvStep(cfg, run.states[k - 1], run.events[k - 1]);
    }
  }

  // ----- No lost updates -----

  /** The last value a request gave safe mode. */
  function LastSafeMode(initial: bool, events: seq<Event>): bool {
    if events == [] then initial
    else if events[|events| - 1].SetSafeMode? then events[|events| - 1].enabled
    else LastSafeMode(initial, events[..|events| - 1])
  }

  function LastVerify(initial: VerifyStatus, events: seq<Event>): VerifyStatus {
    if events == [] then initial
    else if events[|events| - 1].CommitVerify? then events[|events| - 1].update.verify
    else LastVerify(initial, events[..|events| - 1])
  }

  function LastFullScrub(initial: Option<int>, events: seq<Event>): Option<int> {
    if events == [] then initial
    else if events[|events| - 1].CommitVerify? && events[|events| - 1].update.scrubFullTs.Some?
    then events[|events| - 1].update.scrubFullTs
    else LastFullScrub(initial, events[..|events| - 1])
  }

  /** In every interleaving safe mode is what was last requested and the verify fields are the last verify commit. */
  lemma {:induction false} NoLostUpdates(cfg: Config, run: Run, k: nat)
    requires run.Valid(cfg) && k <= |run.events|
    ensures var (first, now, past) := (run.states[0].shared, run.states[k].shared, run.events[..k]);
            && now.safeMode == LastSafeMode(first.safeMode, past)
            && now.verify == LastVerify(first.verify, past)
            && now.lastScrubFullTs == LastFullScrub(first.lastScrubFullTs, past)
  {
    if k > 0 {
      NoLostUpdates(cfg, run, k - 1);
      assert run.events[..k][..k - 1] == run.events[..k - 1];
      assert run.states[k] == Step(cfg, run.states[k - 1], run.events[k - 1]);
    }
  }

  /** The cycle begun at `i` is still at work just before event `k`. */
  ghost predicate SameCycle(run: Run, i: nat, k: nat)
    requires i < k <= |run.events|
  {
    && run.events[i].BeginCycle?
    && forall m :: i < m < k ==>
      !run.events[m].BeginCycle? && !run.events[m].CommitCycle? && !run.events[m].AbandonCycle?
  }

  lemma {:induction false} BaselineHeld(cfg: Config, run: Run, i: nat, k: nat)
    requires run.Valid(cfg) && i < k <= |run.events| && SameCycle(run, i, k)
    ensures var s := run.states[k];
            s.cycle.Some? && !s.CycleSaves() && s.cycle.value.baseline == run.states[i].shared
    decreases k
  {
    assert run.states[k] == Step(cfg, run.states[k - 1], run.events[k - 1]);
    if k == i + 1 {
      InvHolds(cfg, run, i);
    } else {
      BaselineHeld(cfg, run, i, k - 1);
    }
  }

  /**
    In every run a cycle that commits ends as what it started from and met calls for, and leaves
    exactly that behind in the shared state.
   */
  lemma CommitsRight(cfg: Config, run: Run, i: nat, k: nat)
    requires run.Valid(cfg) && i < k < |run.events| && SameCycle(run, i, k) && run.events[k].CommitCycle?
    ensures var (was, now, e) := (run.states[i].shared.cycle, run.states[k + 1].shared.cycle, run.events[k]);
            && run.states[k].cycle.Some? && run.states[k].cycle.value.safeSeen.Some?
            && RightEnd(cfg, was, run.states[k].cycle.value.safeSeen.value, e.input.found.AllThere?, e.input,
                        Some(e.kind))
            && RightReport(was, e.input, e.kind, now)
            && RightDestinations(was.destination, e.input, now.destination)
            && RightReplication(was.replication, e.input, e.kind, now.replication)
  {
    BaselineHeld(cfg, run, i, k);
    var cycle, e := run.states[k].cycle.value, run.events[k];
    assert Enabled(cfg, run.states[k], e);
    OutcomeRight(cfg, cycle.baseline, cycle.safeSeen.value, e.input);
    OutcomeState(cfg, cycle.baseline, cycle.safeSeen.value, e.input);
    assert run.states[k + 1] == Step(cfg, run.states[k], e);
  }

  /** In every run nothing that changed is skipped: a clean skip drained no changes. */
  lemma SkipsNothingDirty(cfg: Config, run: Run, k: nat)
    requires run.Valid(cfg) && k < |run.events| && run.Commits(k, SkippedCycle)
    ensures run.events[k].input.drained == 0 && run.events[k].input.found.AllThere?
  {
    var cycle, e := run.states[k].cycle.value, run.events[k];
    assert Enabled(cfg, run.states[k], e);
    OutcomeRight(cfg, cycle.baseline, cycle.safeSeen.value, e.input);
  }

  lemma {:induction false} ClearedStays(cfg: Config, run: Run, j: nat, k: nat)
    requires run.Valid(cfg) && j < k <= |run.events| && run.events[j].ClearWarning?
    requires forall m :: j < m < k ==> !run.events[m].CommitCycle?
    ensures run.states[k].shared.warning.None?
    decreases k
  {
    assert run.states[k] == Step(cfg, run.states[k - 1], run.events[k - 1]);
    if k > j + 1 {
      ClearedStays(cfg, run, j, k - 1);
    }
  }

  /**
    A warning cleared while a cycle runs is not brought back by its commit: what is there
    afterwards, if anything, is a warning this cycle's engine newly raised.
   */
  lemma ClearedNotBroughtBack(cfg: Config, run: Run, i: nat, j: nat, k: nat)
    requires run.Valid(cfg) && i < j < k < |run.events|
    requires SameCycle(run, i, k) && run.events[j].ClearWarning? && run.events[k].CommitCycle?
    ensures var (after, input) := (run.states[k + 1].shared.warning, run.events[k].input);
            after.Some? ==>
              && run.Commits(k, FullCycle) && input.engine.EngineDone? && input.engine.warnings != []
              && after.value == input.engine.warnings[|input.engine.warnings| - 1]
              && run.states[i].shared.warning.None?
  {
    BaselineHeld(cfg, run, i, k);
    ClearedStays(cfg, run, j, k);
    assert run.states[k + 1] == Step(cfg, run.states[k], run.events[k]);
    LocalWarning(cfg, run.states[k].cycle.value.baseline, run.states[k].cycle.value.safeSeen.value,
      run.events[k].input);
  }

  /** The cycle's copy carries the baseline's warning or a new one of its engine. */
  lemma LocalWarning(cfg: Config, baseline: StoredState, safe: bool, input: Input)
    requires CycleOutcome(cfg, baseline, safe, input).Commit?
    ensures var out := CycleOutcome(cfg, baseline, safe, input);
            || out.local.warning == baseline.warning
            || (&& out.kind == FullCycle && input.engine.EngineDone? && input.engine.warnings != []
                && out.local.warning == Some(input.engine.warnings[|input.engine.warnings| - 1]))
  {
  }

  /** While a cycle works, the shared warning can only be cleared. */
  lemma {:induction false} WarningHeld(cfg: Config, run: Run, i: nat, k: nat)
    requires run.Valid(cfg) && i < k <= |run.events| && SameCycle(run, i, k)
    requires forall m :: i < m < k ==> !run.events[m].ClearWarning?
    ensures run.states[k].shared.warning == run.states[i].shared.warning
    decreases k
  {
    assert run.states[k] == Step(cfg, run.states[k - 1], run.events[k - 1]);
    if k > i + 1 {
      WarningHeld(cfg, run, i, k - 1);
    }
  }

  /** Event `k` ends a cycle whose engine raised warnings. */
  ghost predicate Warns(run: Run, k: nat)
    requires k < |run.events|
  {
    run.Commits(k, FullCycle) && run.events[k].input.engine.EngineDone? && run.events[k].input.engine.warnings != []
  }

  /**
    The last warning a cycle's engine raised is in the shared state after its commit exactly when
    there was none when the cycle began or none was cleared while it worked.
   */
  lemma NewWarningKeptIff(cfg: Config, run: Run, i: nat, k: nat)
    requires run.Valid(cfg) && i < k < |run.events| && SameCycle(run, i, k) && Warns(run, k)
    ensures var warnings := run.events[k].input.engine.warnings;
            run.states[k + 1].shared.warning == Some(warnings[|warnings| - 1]) <==>
            run.states[i].shared.warning.None? || forall j :: i < j < k ==> !run.events[j].ClearWarning?
  {
    BaselineHeld(cfg, run, i, k);
    assert run.states[k + 1] == Step(cfg, run.states[k], run.events[k]);
    if forall j :: i < j < k ==> !run.events[j].ClearWarning? {
      WarningHeld(cfg, run, i, k);
    } else {
      var j :| i < j < k && run.events[j].ClearWarning?;
      ClearedStays(cfg, run, j, k);
    }
  }

  function Blank(): CycleState {
    CycleState(None, None, 0, Report(None, 0, 0), DestinationStatus(false, None, [], None, None),
               ReplicationStatus(None, None, None, ReplicationSummary(0, 0, 0, 0, 0, 0, [])))
  }

  /** For instance: the old warning is cleared while a cycle works, and the new one it raises is lost. */
  lemma NewWarningLost() returns (cfg: Config, run: Run)
    ensures run.Valid(cfg) && |run.events| == 4 && SameCycle(run, 0, 3) && Warns(run, 3)
    ensures run.states[4].shared.warning.None?
  {
    cfg := Config(false, 1);
    var w0, w1 := Warning(1, "old", None, None), Warning(2, "new", None, None);
    var s0 := Sys(StoredState(Blank(), VerifyStatus(None, None, None), None, false, Some(w0)), None, None, [], []);
    var s1 := Step(cfg, s0, BeginCycle);
    var s2 := Step(cfg, s1, SeeSafeMode);
    var s3 := Step(cfg, s2, ClearWarning);
    var input := Input(5, 5, 1, 1, AllThere, EngineDone(0, [w1], None));
    var out := CycleOutcome(cfg, s0.shared, false, input);
    var e := CommitCycle(input, out.kind, out.local);
    run := Run([s0, s1, s2, s3, Step(cfg, s3, e)], [BeginCycle, SeeSafeMode, ClearWarning, e]);
  }

  /** Snapshots reach the disk in the order they were committed, each as it was committed. */
  lemma DiskInCommitOrder(cfg: Config, run: Run, k: nat)
    requires run.Valid(cfg) && k <= |run.events|
    ensures var s := run.states[k];
            && Ordered(s.disk)
            && (forall i :: 0 <= i < |s.disk| ==> s.disk[i] < |s.commits|)
            && (s.saving.Some? ==> s.commits != [] && forall i :: 0 <= i < |s.disk| ==>
              s.disk[i] <= s.saving.value.snapshot)
  {
    InvHolds(cfg, run, k);
  }

  // ----- Bounded skipping -----

  /** Clean skips among the events from `a` up to `b`. */
  ghost function Skips(run: Run, a: nat, b: nat): nat
    requires a <= b <= |run.events|
    decreases b
  {
    if a == b then 0
    else Skips(run, a, b - 1) + if run.Commits(b - 1, SkippedCycle) then 1 else 0
  }

  ghost predicate NoFullScan(run: Run, a: nat, b: nat)
    requires a <= b <= |run.events|
  {
    forall m :: a <= m < b ==> !run.Commits(m, FullCycle)
  }

  /** A commit without a full scan raises the counter; a skip is only taken below the interval. */
  lemma CounterStep(cfg: Config, s: Sys, e: Event)
    requires Inv(s) && Enabled(cfg, s, e)
    ensures var (before, after) := (s.shared.cycle.cyclesSinceFullScan,
              Step(cfg, s, e).shared.cycle.cyclesSinceFullScan);
            if !e.CommitCycle? then after == before
            else match e.kind
              case FullCycle => after == 0
              case SkippedCycle => before + 1 < cfg.Interval() && after == Bump(s.shared.cycle)
              case _ => after == Bump(s.shared.cycle)
  {
  }

  /**
    As long as no engine run succeeds there are at most `interval - 1` clean skips, whatever
    paused, safe-mode, failed and abandoned cycles lie between them.
   */
  lemma BoundedSkipping(cfg: Config, run: Run, a: nat, b: nat)
    requires run.Valid(cfg) && a <= b <= |run.events| && NoFullScan(run, a, b)
    requires cfg.Interval() <= U64_MAX && run.states[a].shared.cycle.cyclesSinceFullScan <= U64_MAX
    ensures Skips(run, a, b) <= cfg.Interval() - 1
  {
    forall k | 0 <= k < |run.events| ensures CounterRule(cfg, run, k) {
      InvHolds(cfg, run, k);
      CounterStep(cfg, run.states[k], run.events[k]);
    }
    SkipsBounded(cfg, run, a, b);
  }

  /** `CounterStep` along a run. */
  ghost predicate CounterRule(cfg: Config, run: Run, k: nat)
    requires k < |run.events| && |run.states| == |run.events| + 1
  {
    var (before, after) := (run.states[k].shared.cycle.cyclesSinceFullScan,
      run.states[k + 1].shared.cycle.cyclesSinceFullScan);
    if run.Commits(k, FullCycle) then after == 0
    else if run.Commits(k, SkippedCycle) then before + 1 < cfg.Interval() && after == SaturatingAdd(before, 1)
    else after == before || after == SaturatingAdd(before, 1)
  }

  lemma {:induction false} SkipsBounded(cfg: Config, run: Run, a: nat, b: nat)
    requires a <= b <= |run.events| && |run.states| == |run.events| + 1 && NoFullScan(run, a, b)
    requires forall k :: 0 <= k < |run.events| ==> CounterRule(cfg, run, k)
    requires cfg.Interval() <= U64_MAX && run.states[a].shared.cycle.cyclesSinceFullScan <= U64_MAX
    ensures Skips(run, a, b) <= cfg.Interval() - 1
    ensures Skips(run, a, b) <= run.states[b].shared.cycle.cyclesSinceFullScan <= U64_MAX
    decreases b
  {
    if a < b {
      assert !run.Commits(b - 1, FullCycle) && CounterRule(cfg, run, b - 1);
      SkipsBounded(cfg, run, a, b - 1);
    }
  }

  // ----- Start and recovery scans -----

  /** A full scan is owed: destinations were away, or no cycle has run since the daemon started. */
  predicate ScanOwed(state: StoredState) {
    state.cycle.destination.paused || FirstCycle(state.cycle)
  }

  /** With safe mode off, a healthy cycle that owes a scan attempts it, and a failed attempt commits nothing. */
  lemma OwedScanAttempted(cfg: Config, baseline: StoredState, input: Input)
    requires !cfg.safeMode && ScanOwed(baseline) && input.found.AllThere?
    ensures var out := CycleOutcome(cfg, baseline, false, input);
            if input.engine.EngineFailed? then out.Abandon? else out.Commit? && out.kind == FullCycle
  {
  }

  /** A safe-mode cycle leaves the scan owed: destinations are away, or its clock is before the daemon's start. */
  predicate SafeCycleKeeps(state: StoredState, input: Input) {
    !input.found.AllThere? || (state.cycle.startTs.Some? && input.safeNow < state.cycle.startTs.value)
  }

  /** While a scan is owed there is no clean skip, and only a success or a safe-mode cycle can end that. */
  lemma OwedStep(cfg: Config, s: Sys, e: Event)
    requires Inv(s) && Enabled(cfg, s, e) && ScanOwed(s.shared)
    ensures !(e.CommitCycle? && e.kind == SkippedCycle)
    ensures !(e.CommitCycle? && e.kind == FullCycle) ==>
              (ScanOwed(Step(cfg, s, e).shared) <==>
                 (e.CommitCycle? && e.kind == SafeCycle ==> SafeCycleKeeps(s.shared, e.input)))
  {
  }

  lemma OwedAt(cfg: Config, run: Run, k: nat)
    requires run.Valid(cfg) && k < |run.events| && ScanOwed(run.states[k].shared)
    ensures !run.Commits(k, SkippedCycle)
    ensures !run.Commits(k, FullCycle) ==>
              (ScanOwed(run.states[k + 1].shared) <==>
                 (run.Commits(k, SafeCycle) ==> SafeCycleKeeps(run.states[k].shared, run.events[k].input)))
  {
    InvHolds(cfg, run, k);
    OwedStep(cfg, run.states[k], run.events[k]);
  }

  ghost predicate SafeCyclesKeep(run: Run, a: nat, b: nat)
    requires a <= b <= |run.events| && |run.states| == |run.events| + 1
  {
    forall m :: a <= m < b && run.Commits(m, SafeCycle) ==> SafeCycleKeeps(run.states[m].shared, run.events[m].input)
  }

  lemma {:induction false} OwedWhileKept(cfg: Config, run: Run, a: nat, b: nat)
    requires run.Valid(cfg) && a <= b <= |run.events| && ScanOwed(run.states[a].shared)
    requires NoFullScan(run, a, b) && SafeCyclesKeep(run, a, b)
    ensures ScanOwed(run.states[b].shared)
    decreases b
  {
    if a < b {
      assert !run.Commits(b - 1, FullCycle);
      OwedWhileKept(cfg, run, a, b - 1);
      OwedAt(cfg, run, b - 1);
    }
  }

  /**
    Until an engine run succeeds, a scan that is owed stays owed exactly when every safe-mode cycle
    meanwhile finds destinations away or has its clock before the start.  `ScanOwed` holds at the
    start of a daemon whose last run is older and after every paused cycle.
   */
  lemma OwedIff(cfg: Config, run: Run, a: nat, b: nat)
    requires run.Valid(cfg) && a <= b <= |run.events| && ScanOwed(run.states[a].shared) && NoFullScan(run, a, b)
    ensures (forall m :: a <= m <= b ==> ScanOwed(run.states[m].shared)) <==> SafeCyclesKeep(run, a, b)
  {
    if SafeCyclesKeep(run, a, b) {
      forall m | a <= m <= b ensures ScanOwed(run.states[m].shared) {
        OwedWhileKept(cfg, run, a, m);
      }
    }
    if forall m :: a <= m <= b ==> ScanOwed(run.states[m].shared) {
      forall m | a <= m < b && run.Commits(m, SafeCycle)
        ensures SafeCycleKeeps(run.states[m].shared, run.events[m].input)
      {
        OwedAt(cfg, run, m);
        assert ScanOwed(run.states[m + 1].shared);
      }
    }
  }

  /** And as long as it is owed no clean skip happens. */
  lemma OwedUntilSuccess(cfg: Config, run: Run, a: nat, b: nat)
    requires run.Valid(cfg) && a <= b <= |run.events| && ScanOwed(run.states[a].shared)
    requires NoFullScan(run, a, b) && SafeCyclesKeep(run, a, b)
    ensures forall m :: a <= m < b ==> !run.Commits(m, SkippedCycle)
  {
    forall m | a <= m < b ensures !run.Commits(m, SkippedCycle) {
      OwedWhileKept(cfg, run, a, m);
      OwedAt(cfg, run, m);
    }
  }

  /** Safe mode is off in the configuration and at the start, and never requested up to `b`. */
  ghost predicate SafeModeOff(cfg: Config, run: Run, b: nat)
    requires run.Valid(cfg) && b <= |run.events|
  {
    && !cfg.safeMode && !run.states[0].shared.safeMode
    && forall m :: 0 <= m < b ==> run.events[m] != SetSafeMode(true)
  }

  lemma {:induction false} NeverSeesSafeMode(cfg: Config, run: Run, b: nat, k: nat)
    requires run.Valid(cfg) && k <= b <= |run.events| && SafeModeOff(cfg, run, b)
    ensures !run.states[k].shared.safeMode
    ensures run.states[k].cycle.Some? ==> run.states[k].cycle.value.safeSeen != Some(true)
  {
    if k > 0 {
      NeverSeesSafeMode(cfg, run, b, k - 1);
      assert run.states[k] == Step(cfg, run.states[k - 1], run.events[k - 1]);
    }
  }

  /** With safe mode off there are no safe-mode cycles, so all of the above applies. */
  lemma SafeModeOffKeeps(cfg: Config, run: Run, b: nat, m: nat)
    requires run.Valid(cfg) && m < b <= |run.events| && SafeModeOff(cfg, run, b)
    ensures !run.Commits(m, SafeCycle)
  {
    NeverSeesSafeMode(cfg, run, b, m);
  }

  /** A paused cycle leaves a scan owed. */
  lemma PauseOwesScan(cfg: Config, run: Run, k: nat)
    requires run.Valid(cfg) && k < |run.events| && run.Commits(k, PausedCycle)
    ensures ScanOwed(run.states[k + 1].shared)
  {
  }

  ghost predicate Idle(s: Sys) {
    s.cycle.None? && s.saving.None?
  }

  /** One whole cycle with nothing in between. */
  lemma WholeCycle(cfg: Config, run: Run, input: Input) returns (more: Run)
    requires run.Valid(cfg)
    requires var s := run.states[|run.events|];
             Idle(s) && CycleOutcome(cfg, s.shared, s.shared.safeMode, input).Commit?
    ensures more.Valid(cfg) && |more.events| == |run.events| + 4 && more.states[..|run.states|] == run.states
    ensures var n := |run.events|;
            var (s, t) := (run.states[n].shared, more.states[n + 4]);
            var out := CycleOutcome(cfg, s, s.safeMode, input);
            && more.events[..n] == run.events && more.Commits(n + 2, out.kind)
            && !more.events[n].CommitCycle? && !more.events[n + 1].CommitCycle? && !more.events[n + 3].CommitCycle?
            && Idle(t) && t.shared == Merge(s, s.warning, out.local)
  {
    var s := run.states[|run.events|].shared;
    var out := CycleOutcome(cfg, s, s.safeMode, input);
    more := Extended(cfg, run, BeginCycle);
    more := Extended(cfg, more, SeeSafeMode);
    more := Extended(cfg, more, CommitCycle(input, out.kind, out.local));
    more := Extended(cfg, more, Released);
  }

  /** A destination comes back while safe mode is on, and safe mode is switched off again. */
  lemma BackWhileSafe(cfg: Config) returns (run: Run)
    requires cfg == Config(false, 10)
    ensures run.Valid(cfg) && |run.events| == 5 && NoFullScan(run, 0, 5)
    ensures run.states[0].shared.cycle.destination.paused && run.Commits(2, SafeCycle)
    ensures var s := run.states[5];
            Idle(s) && !s.shared.safeMode && !ScanOwed(s.shared) && s.shared.cycle.cyclesSinceFullScan == 1
  {
    var away := DestinationStatus(true, Some(UNAVAILABLE), ["main"], Some(20), None);
    var cycle := Blank().(startTs := Some(10), lastRunTs := Some(20), destination := away);
    var shared := StoredState(cycle, VerifyStatus(None, None, None), None, true, None);
    var input := Input(30, 30, 0, 0, AllThere, EngineFailed);
    var first := WholeCycle(cfg, Run([Sys(shared, None, None, [], [])], []), input);
    run := Extended(cfg, first, SetSafeMode(false));
    assert run.states[0] == first.states[..1][0];
  }

  /** For instance: after that the next cycle is skipped as clean, and the owed scan was never made. */
  lemma SafeModeForgetsScan() returns (cfg: Config, run: Run)
    ensures run.Valid(cfg) && |run.events| == 9 && NoFullScan(run, 0, 9)
    ensures run.states[0].shared.cycle.destination.paused && run.Commits(2, SafeCycle) && run.Commits(7, SkippedCycle)
  {
    cfg := Config(false, 10);
    var off := BackWhileSafe(cfg);
    run := WholeCycle(cfg, off, Input(40, 40, 0, 0, AllThere, EngineFailed));
    forall k | 0 <= k < 5 ensures run.events[k] == off.events[k] {
      assert run.events[k] == run.events[..5][k];
    }
    forall m | 0 <= m < 5 ensures !run.Commits(m, FullCycle) {
      assert !off.Commits(m, FullCycle);
    }
    assert run.states[0] == run.states[..6][0];
  }
}
