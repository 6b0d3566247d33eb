/**
  The runtime's operations on the shared state, as they interleave: between any two steps of a
  cycle other tasks may act.  Every run of these methods is a run of the system in `Cycle`.
 */
module Daemon {
  import opened Common
  import opened Cycle

  /** Who holds the commit lock. */
  datatype Holder = Nobody | TheCycle | Verification

  function HolderOf(saving: Option<Saver>): Holder {
    match saving
    case None => Nobody
    case Some(saver) => if saver.byCycle then TheCycle else Verification
  }

  /** `events` goes on from `past` without committing a cycle. */
  ghost predicate NoCommit(past: seq<Event>, events: seq<Event>) {
    && |past| <= |events| && events[..|past|] == past
    && forall m :: |past| <= m < |events| ==> !events[m].CommitCycle?
  }

  /** `events` goes on from `past` and commits one cycle, at `at`. */
  ghost predicate OneCommit(past: seq<Event>, events: seq<Event>, at: nat, commit: Event) {
    && |past| <= at < |events| && events[..|past|] == past
    && events[at] == commit
    && forall m :: |past| <= m < |events| && m != at ==> !events[m].CommitCycle?
  }

  lemma NoCommitTransitive(a: seq<Event>, b: seq<Event>, c: seq<Event>)
    requires NoCommit(a, b) && NoCommit(b, c)
    ensures NoCommit(a, c)
  {
  }

  lemma OneCommitBetween(a: seq<Event>, b: seq<Event>, commit: Event, c: seq<Event>)
    requires NoCommit(a, b) && NoCommit(b + [commit], c)
    ensures OneCommit(a, c, |b|, commit)
  {
  }

  class Daemon {
    const cfg: Config
    var shared: StoredState
    var holder: Holder
    var pending: StoredState
    var disk: StoredState
    ghost var run: Run

    constructor (cfg: Config, loaded: StoredState)
      ensures Valid() && this.cfg == cfg && fresh(this)
      ensures run.events == [] && shared == loaded.(safeMode := cfg.safeMode) && disk == loaded
    {
      this.cfg := cfg;
      shared := loaded.(safeMode := cfg.safeMode);
      holder, pending, disk := Nobody, loaded, loaded;
      run := Run([Sys(loaded.(safeMode := cfg.safeMode), None, None, [], [])], []);
    }

    ghost function Now(): Sys
      requires run.states != []
      reads this
    {
      run.states[|run.states| - 1]
    }

    /** The fields are what the system's state says; the state file holds the last snapshot written. */
    ghost predicate Matches(s: Sys)
      reads this
    {
      && s.shared == shared && HolderOf(s.saving) == holder
      && (s.saving.Some? ==> s.saving.value.snapshot < |s.commits| && pending == s.commits[s.saving.value.snapshot])
      && (s.disk != [] ==> s.disk[|s.disk| - 1] < |s.commits| && disk == s.commits[s.disk[|s.disk| - 1]])
    }

    ghost predicate Valid()
      reads this
    {
      run.Valid(cfg) && Inv(Now()) && Matches(Now())
    }

    /** The run up to `past` is still there, and no cycle was committed since. */
    ghost predicate Quiet(past: seq<Event>)
      reads this
    {
      NoCommit(past, run.events)
    }

    /** Append an event whose effect on the fields has just been carried out. */
    ghost method Record(e: Event)
      requires run.Valid(cfg) && Inv(Now()) && Enabled(cfg, Now(), e) && Matches(Step(cfg, Now(), e))
      modifies this`run
      ensures Valid() && run.events == old(run.events) + [e] && Now() == Step(cfg, old(Now()), e)
    {
      InvStep(cfg, Now(), e);
      run := Run(run.states + [Step(cfg, Now(), e)], run.events + [e]);
    }

    // ----- Requests and verification -----

    method SetSafeModeRequest(enabled: bool)
      requires Valid()
      modifies this
      ensures Valid() && run.events == old(run.events) + [SetSafeMode(enabled)]
      ensures Now() == Step(cfg, old(Now()), SetSafeMode(enabled))
      ensures Quiet(old(run.events)) && Now().cycle == old(Now().cycle)
    {
      shared := shared.(safeMode := enabled);
      Record(SetSafeMode(enabled));
    }

    method ClearWarningRequest()
      requires Valid()
      modifies this
      ensures Valid() && run.events == old(run.events) + [ClearWarning]
      ensures Now() == Step(cfg, old(Now()), ClearWarning)
      ensures Quiet(old(run.events)) && Now().cycle == old(Now().cycle)
    {
      shared := shared.(warning := None);
      Record(ClearWarning);
    }

    /** `apply_verify_update` and its snapshot, once the commit lock is free. */
    method CommitVerifyUpdate(update: VerifyUpdate)
      requires Valid() && holder.Nobody?
      modifies this
      ensures Valid() && run.events == old(run.events) + [CommitVerify(update)]
      ensures Now() == Step(cfg, old(Now()), CommitVerify(update))
      ensures Quiet(old(run.events)) && Now().cycle == old(Now().cycle)
    {
      holder := Verification;
      shared := shared.(verify := update.verify);
      if update.scrubFullTs.Some? {
        shared := shared.(lastScrubFullTs := update.scrubFullTs);
      }
      pending := shared;
      Record(CommitVerify(update));
    }

    /** `persist_snapshot`: the file may be replaced or not, whatever is reported. */
    method PersistSnapshot() returns (reported: bool)
      requires Valid() && !holder.Nobody?
      modifies this
      ensures Valid() && Quiet(old(run.events))
      ensures Now().cycle == old(Now().cycle) && Now().saving == old(Now().saving)
    {
      var written: bool := *;
      if written {
        disk := pending;
        Record(Written);
      }
      reported := *;
      reported := reported && written;
    }

    method Release()
      requires Valid() && !holder.Nobody?
      modifies this
      ensures Valid() && Quiet(old(run.events)) && holder.Nobody?
      ensures Now() == Step(cfg, old(Now()), Released)
    {
      holder := Nobody;
      Record(Released);
    }

    /** One step of some other task. */
    method OtherStep()
      requires Valid()
      modifies this
      ensures Valid() && Quiet(old(run.events))
      ensures Now().cycle == old(Now().cycle) && (holder.TheCycle? <==> old(holder).TheCycle?)
    {
      var who: int, enabled: bool, update: VerifyUpdate := *, *, *;
      if who == 0 {
        SetSafeModeRequest(enabled);
      } else if who == 1 {
        ClearWarningRequest();
      } else if holder.Nobody? {
        CommitVerifyUpdate(update);
      } else if holder.Verification? {
        if enabled {
          var _ := PersistSnapshot();
        } else {
          Release();
        }
      }
    }

    /** Any number of steps of other tasks. */
    method Others()
      requires Valid()
      modifies this
      ensures Valid() && Quiet(old(run.events))
      ensures Now().cycle == old(Now().cycle) && (holder.TheCycle? <==> old(holder).TheCycle?)
    {
      var n: int := *;
      for i := 0 to if n < 0 then 0 else n
        invariant Valid() && Quiet(old(run.events))
        invariant Now().cycle == old(Now().cycle) && (holder.TheCycle? <==> old(holder).TheCycle?)
      {
        ghost var before := run.events;
        OtherStep();
        NoCommitTransitive(old(run.events), before, run.events);
      }
    }

    // ----- The cycle -----

    /** The commit lock is awaited; its holder finishes in between. */
    method AcquireCommitLock()
      requires Valid() && !holder.TheCycle?
      modifies this
      ensures Valid() && Quiet(old(run.events)) && holder.Nobody? && Now().cycle == old(Now().cycle)
    {
      Others();
      if holder.Verification? {
        ghost var before := run.events;
        Release();
        NoCommitTransitive(old(run.events), before, run.events);
      }
    }

    /** The running cycle has seen safe mode and comes out with this state to commit. */
    ghost predicate Ends(commit: Event)
      requires run.states != []
      reads this
    {
      commit.CommitCycle? && Enabled(cfg, Now().(saving := None), commit)
    }

    /** `commit_cycle_state`: merge into the shared state and save a snapshot, under the lock. */
    method CommitCycleState(baseline: StoredState, local: StoredState, ghost input: Input, ghost kind: Kind)
      returns (reported: bool, ghost at: nat)
      requires Valid() && !holder.TheCycle? && Ends(CommitCycle(input, kind, local))
      requires baseline.warning == Now().cycle.value.baseline.warning
      modifies this
      ensures Valid() && Now().cycle.None? && holder.Nobody?
      ensures OneCommit(old(run.events), run.events, at, CommitCycle(input, kind, local))
    {
      AcquireCommitLock();
      ghost var before := run.events;
      MergeAndSnapshot(baseline, local, input, kind);
      reported := SaveAndRelease();
      at := |before|;
      OneCommitBetween(old(run.events), before, CommitCycle(input, kind, local), run.events);
    }

    method MergeAndSnapshot(baseline: StoredState, local: StoredState, ghost input: Input, ghost kind: Kind)
      requires Valid() && holder.Nobody? && Ends(CommitCycle(input, kind, local))
      requires baseline.warning == Now().cycle.value.baseline.warning
      modifies this
      ensures Valid() && holder.TheCycle? && run.events == old(run.events) + [CommitCycle(input, kind, local)]
    {
      ghost var commit := CommitCycle(input, kind, local);
      assert Now().(saving := None) == Now();
      holder := TheCycle;
      MergeCycleState(baseline, local);
      pending := shared;
      Record(commit);
    }

    method SaveAndRelease() returns (reported: bool)
      requires Valid() && holder.TheCycle?
      modifies this
      ensures Valid() && Quiet(old(run.events)) && Now().cycle.None? && holder.Nobody?
    {
      Others();
      ghost var one := run.events;
      reported := PersistSnapshot();
      NoCommitTransitive(old(run.events), one, run.events);
      ghost var two := run.events;
      Others();
      NoCommitTransitive(old(run.events), two, run.events);
      ghost var three := run.events;
      Release();
      NoCommitTransitive(old(run.events), three, run.events);
    }

    /** `merge_cycle_state`. */
    method MergeCycleState(baseline: StoredState, cycle: StoredState)
      modifies this`shared
      ensures shared == Merge(old(shared), baseline.warning, cycle)
    {
      var merged := cycle;
      merged := merged.(safeMode := shared.safeMode);
      merged := merged.(verify := shared.verify);
      merged := merged.(lastScrubFullTs := shared.lastScrubFullTs);
      if shared.warning != baseline.warning {
        merged := merged.(warning := shared.warning);
      }
      shared := merged;
    }

    /** Read the baseline. */
    method Begin() returns (baseline: StoredState)
      requires Valid() && Now().cycle.None?
      modifies this
      ensures Valid() && Quiet(old(run.events)) && !holder.TheCycle?
      ensures baseline == old(shared) && Now().cycle == Some(Running(baseline, None))
    {
      baseline := shared;
      Record(BeginCycle);
    }

    /** The safe mode check reads the shared state again. */
    method SeeMode() returns (safe: bool)
      requires Valid() && Now().cycle.Some? && !holder.TheCycle?
      modifies this
      ensures Valid() && Quiet(old(run.events)) && !holder.TheCycle?
      ensures Now().cycle == Some(Running(old(Now()).cycle.value.baseline, Some(safe)))
    {
      safe := shared.safeMode;
      Record(SeeSafeMode);
    }

    method GiveUp()
      requires Valid() && Now().cycle.Some? && !holder.TheCycle?
      modifies this
      ensures Valid() && Quiet(old(run.events)) && Now().cycle.None?
    {
      Record(AbandonCycle);
    }

    /** The cycle up to its end: probes, the safe mode check, and the engine, with other tasks in between. */
    method WorkOnCopy() returns (baseline: StoredState, safe: bool)
      requires Valid() && Now().cycle.None?
      modifies this
      ensures Valid() && Quiet(old(run.events)) && !holder.TheCycle?
      ensures baseline == old(shared) && Now().cycle == Some(Running(baseline, Some(safe)))
    {
      ghost var zero := run.events;
      baseline := Begin();
      ghost var one := run.events;
      Others();
      NoCommitTransitive(zero, one, run.events);
      ghost var two := run.events;
      safe := SeeMode();
      NoCommitTransitive(zero, two, run.events);
      ghost var three := run.events;
      Others();
      NoCommitTransitive(zero, three, run.events);
    }

    /**
      `run_cycle`: whatever other tasks do meanwhile, it commits at most once and exactly what comes
      of the state it read at the start, and it commits nothing only if it ran the engine and that failed.
     */
    method RunCycle(probes: seq<Health>, rest: Input)
      returns (end: Option<Kind>, ghost safe: bool, ghost at: nat, ghost local: StoredState)
      requires Valid() && Now().cycle.None?
      modifies this
      ensures Valid() && Now().cycle.None?
      ensures RightEnd(cfg, old(shared).cycle, safe, Healthy(probes), rest, end)
      ensures var input := rest.(found := Examine(probes));
              && CycleOutcome(cfg, old(shared), safe, input) ==
                (if end.Some? then Commit(end.value, local) else Abandon)
              && (end.None? ==> Quiet(old(run.events)))
              && (end.Some? ==> OneCommit(old(run.events), run.events, at, CommitCycle(input, end.value, local)))
    {
      at := 0;
      var input := rest.(found := Examine(probes));
      var baseline, seen := WorkOnCopy();
      safe := seen;
      ghost var before := run.events;
      var out := CycleOutcome(cfg, baseline, seen, input);
      ProbedRight(cfg, baseline, seen, probes, rest);
      if out.Abandon? {
        local := baseline;
        GiveUp();
        NoCommitTransitive(old(run.events), before, run.events);
        return None, safe, at, local;
      }
      local := out.local;
      var _, k := CommitCycleState(baseline, out.local, input, out.kind);
      LaterCommit(old(run.events), before, run.events, k, CommitCycle(input, out.kind, local));
      end, at := Some(out.kind), k;
    }
  }

  lemma LaterCommit(a: seq<Event>, b: seq<Event>, c: seq<Event>, at: nat, commit: Event)
    requires NoCommit(a, b) && OneCommit(b, c, at, commit)
    ensures OneCommit(a, c, at, commit)
  {
  }
}
