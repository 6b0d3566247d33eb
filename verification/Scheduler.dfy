/**
  The job scheduler: one scheduler thread, any number of submitters and job threads.  The capacity
  check is made outside the lock that guards dispatch and release.
 */
module Scheduler {
  import opened Common

  datatype Status = Queued | Leased | Running | Succeeded | Failed

  datatype Job = Job(workerClass: string, status: Status)

  type JobId = nat

  /** Where the scheduler thread is. */
  datatype Pc =
    | Sleeping
    | Looking(queue: seq<JobId>)
    | Cleared(job: JobId, queue: seq<JobId>)
    | Spawning(job: JobId, queue: seq<JobId>)
    | Dead

  /**
    The shared records, the scheduler's place, the live job threads, and which jobs were dispatched
    (in order) and which have given their capacity back.
   */
  datatype Sys = Sys(
    jobs: map<JobId, Job>,
    active: map<string, int>,
    pc: Pc,
    threads: set<JobId>,
    dispatched: seq<JobId>,
    released: set<JobId>)
  {
    function Active(c: string): int {
      if c in active then active[c] else 0
    }

    /** Dispatched jobs of a class that still hold capacity. */
    function Outstanding(c: string): set<JobId> {
      set j | j in dispatched && j !in released && j in jobs && jobs[j].workerClass == c
    }
  }

  datatype Event =
    | Submit(job: JobId, workerClass: string)
    | Snapshot(queue: seq<JobId>)
    | SkipFull
    | ClearForStart
    | StartJob
    | SpawnThread
    | SchedulerDies
    | EndRound
    | SetStatus(job: JobId, status: Status)
    | Release(job: JobId)
    | ThreadDies(job: JobId)

  type Capacity = map<string, int>

  /** All queued jobs, each once. */
  predicate ListsQueued(jobs: map<JobId, Job>, queue: seq<JobId>) {
    && Distinct(queue)
    && (forall j :: j in queue ==> j in jobs && jobs[j].status.Queued?)
    && (forall j :: j in jobs && jobs[j].status.Queued? ==> j in queue)
  }

  predicate HeadFull(cap: Capacity, s: Sys)
    requires s.pc.Looking? && s.pc.queue != [] && s.pc.queue[0] in s.jobs
  {
    var c := s.jobs[s.pc.queue[0]].workerClass;
    c !in cap || s.Active(c) >= cap[c]
  }

  predicate Enabled(cap: Capacity, s: Sys, e: Event) {
    match e
    case Submit(job, workerClass) => job !in s.jobs && workerClass in cap
    case Snapshot(queue) => s.pc.Sleeping? && ListsQueued(s.jobs, queue)
    case SkipFull => s.pc.Looking? && s.pc.queue != [] && s.pc.queue[0] in s.jobs && HeadFull(cap, s)
    case ClearForStart => s.pc.Looking? && s.pc.queue != [] && s.pc.queue[0] in s.jobs && !HeadFull(cap, s)
    case StartJob => s.pc.Cleared? && s.pc.job in s.jobs
    case SpawnThread => s.pc.Spawning?
    case SchedulerDies => s.pc.Spawning?
    case EndRound => s.pc.Looking? && s.pc.queue == []
    case SetStatus(job, status) => job in s.threads && job in s.jobs && !status.Queued? && !status.Leased?
    case Release(job) => job in s.threads && job in s.jobs
    case ThreadDies(job) => job in s.threads
  }

  function Step(cap: Capacity, s: Sys, e: Event): Sys
    requires Enabled(cap, s, e)
  {
    match e
    case Submit(job, workerClass) => s.(jobs := s.jobs[job := Job(workerClass, Queued)])
    case Snapshot(queue) => s.(pc := Looking(queue))
    case SkipFull => s.(pc := Looking(s.pc.queue[1..]))
    case ClearForStart => s.(pc := Cleared(s.pc.queue[0], s.pc.queue[1..]))
    case StartJob =>
      var (j, job) := (s.pc.job, s.jobs[s.pc.job]);
      if !job.status.Queued? then s.(pc := Looking(s.pc.queue))
      else s.(jobs := s.jobs[j := job.(status := Leased)],
              active := s.active[job.workerClass := s.Active(job.workerClass) + 1],
              dispatched := s.dispatched + [j],
              pc := Spawning(j, s.pc.queue))
    case SpawnThread => s.(threads := s.threads + {s.pc.job}, pc := Looking(s.pc.queue))
    case SchedulerDies => s.(pc := Dead)
    case EndRound => s.(pc := Sleeping)
    case SetStatus(job, status) => s.(jobs := s.jobs[job := s.jobs[job].(status := status)])
    case Release(job) =>
      var c := s.jobs[job].workerClass;
      s.(active := s.active[c := Max0((if c in s.active then s.active[c] else 1) - 1)],
         threads := s.threads - {job},
         released := s.released + {job})
    case ThreadDies(job) => s.(threads := s.threads - {job})
  }

  function Max0(x: int): int {
    if x < 0 then 0 else x
  }

  // ----- What every step keeps -----

  /** Jobs are dispatched once, exactly when they leave the queue, and run in a thread of their own. */
  ghost predicate Records(s: Sys) {
    && Distinct(s.dispatched)
    && (forall j :: j in s.dispatched <==> j in s.jobs && !s.jobs[j].status.Queued?)
    && (forall j :: j in s.threads ==> j in s.dispatched && j !in s.released)
    && (forall j :: j in s.released ==> j in s.dispatched)
    && (s.pc.Spawning? ==> s.pc.job in s.dispatched && s.pc.job !in s.threads && s.pc.job !in s.released)
    && ((s.pc.Cleared? || s.pc.Spawning? || s.pc.Looking?) ==> forall j :: j in s.pc.queue ==> j in s.jobs)
    && (s.pc.Cleared? ==> s.pc.job in s.jobs)
  }

  /** The counters are exact and within capacity, with room for a job that has been cleared. */
  ghost predicate Counters(cap: Capacity, s: Sys) {
    && (forall c :: s.Active(c) == |s.Outstanding(c)|)
    && (forall c :: c in cap ==> s.Active(c) <= Max0(cap[c]))
    && (forall j :: j in s.jobs ==> s.jobs[j].workerClass in cap)
    && (s.pc.Cleared? && s.pc.job in s.jobs ==>
          var c := s.jobs[s.pc.job].workerClass; c in cap && s.Active(c) < cap[c])
  }

  ghost predicate Inv(cap: Capacity, s: Sys) {
    Records(s) && Counters(cap, s)
  }

  lemma DistinctSnoc(s: seq<JobId>, x: JobId)
    requires Distinct(s) && x !in s
    ensures Distinct(s + [x])
  {
  }

  lemma RecordsStep(cap: Capacity, s: Sys, e: Event)
    requires Inv(cap, s) && Enabled(cap, s, e)
    ensures Records(Step(cap, s, e))
  {
    if e.StartJob? && s.jobs[s.pc.job].status.Queued? {
      DistinctSnoc(s.dispatched, s.pc.job);
    }
  }

  /** A dispatch adds its job to the outstanding ones of its class. */
  lemma DispatchCounts(s: Sys, t: Sys, j: JobId, c: string)
    requires j in s.jobs && j !in s.dispatched && j !in s.released
    requires t.jobs == s.jobs[j := s.jobs[j].(status := Leased)] && t.dispatched == s.dispatched + [j] &&
               t.released == s.released
    ensures |t.Outstanding(c)| == |s.Outstanding(c)| + if s.jobs[j].workerClass == c then 1 else 0
  {
    if s.jobs[j].workerClass == c {
      assert t.Outstanding(c) == s.Outstanding(c) + {j};
    } else {
      assert t.Outstanding(c) == s.Outstanding(c);
    }
  }

  /** A release takes its job away again. */
  lemma ReleaseCounts(s: Sys, t: Sys, j: JobId, c: string)
    requires j in s.jobs && j in s.dispatched && j !in s.released
    requires t.jobs == s.jobs && t.dispatched == s.dispatched && t.released == s.released + {j}
    ensures |t.Outstanding(c)| == |s.Outstanding(c)| - if s.jobs[j].workerClass == c then 1 else 0
  {
    if s.jobs[j].workerClass == c {
      assert j in s.Outstanding(c) && t.Outstanding(c) == s.Outstanding(c) - {j};
    } else {
      assert t.Outstanding(c) == s.Outstanding(c);
    }
  }

  lemma OtherwiseSame(cap: Capacity, s: Sys, e: Event, c: string)
    requires Records(s) && Enabled(cap, s, e)
    requires !e.Release? && !(e.StartJob? && s.jobs[s.pc.job].status.Queued?)
    ensures Step(cap, s, e).Outstanding(c) == s.Outstanding(c) && Step(cap, s, e).Active(c) == s.Active(c)
  {
  }

  lemma CountersStep(cap: Capacity, s: Sys, e: Event)
    requires Inv(cap, s) && Enabled(cap, s, e)
    ensures Counters(cap, Step(cap, s, e))
  {
    var t := Step(cap, s, e);
    forall c ensures t.Active(c) == |t.Outstanding(c)| && (c in cap ==> t.Active(c) <= Max0(cap[c])) {
      if e.StartJob? && s.jobs[s.pc.job].status.Queued? {
        DispatchCounts(s, t, s.pc.job, c);
      } else if e.Release? {
        ReleaseCounts(s, t, e.job, c);
      } else {
        OtherwiseSame(cap, s, e, c);
      }
    }
  }

  lemma InvStep(cap: Capacity, s: Sys, e: Event)
    requires Inv(cap, s) && Enabled(cap, s, e)
    ensures Inv(cap, Step(cap, s, e))
  {
    RecordsStep(cap, s, e);
    CountersStep(cap, s, e);
  }

  ghost predicate Initial(s: Sys) {
    s.jobs == map[] && (forall c :: s.Active(c) == 0) && s.pc.Sleeping? && s.threads == {} && s.dispatched == [] &&
      s.released == {}
  }

  ghost predicate Run(cap: Capacity, states: seq<Sys>, events: seq<Event>) {
    && |states| == |events| + 1 && Initial(states[0])
    && forall k :: 0 <= k < |events| ==>
      Enabled(cap, states[k], events[k]) && states[k + 1] == Step(cap, states[k], events[k])
  }

  /**
    In every interleaving the active count of a class is exactly its dispatched, not yet released
    jobs, it never exceeds the capacity, and no job is dispatched twice.
   */
  lemma {:induction false} CapacityKept(cap: Capacity, states: seq<Sys>, events: seq<Event>, k: nat)
    requires Run(cap, states, events) && k < |states|
    ensures Inv(cap, states[k])
  {
    if k == 0 {
      forall c ensures states[0].Outstanding(c) == {} {
      }
    } else {
      CapacityKept(cap, states, events, k - 1);
      InvStep(cap, states[k - 1], events[k - 1]);
    }
  }

  // ----- Queued jobs get their turn -----

  /** Dispatched jobs that were not released use up the capacity of the class. */
  ghost predicate FullUp(cap: Capacity, s: Sys, c: string) {
    c in cap && |s.Outstanding(c)| >= cap[c]
  }

  /** At event `m` the scheduler passed over the job, and its class had no capacity left. */
  ghost predicate PassedOver(cap: Capacity, states: seq<Sys>, events: seq<Event>, m: nat, j: JobId)
    requires |states| == |events| + 1
  {
    && m < |events| && events[m].SkipFull? && states[m].pc.Looking? && states[m].pc.queue != []
    && states[m].pc.queue[0] == j && j in states[m].jobs && FullUp(cap, states[m], states[m].jobs[j].workerClass)
  }

  /** The round has yet to come to the job. */
  predicate Ahead(pc: Pc, j: JobId) {
    match pc
    case Looking(queue) => j in queue
    case Cleared(job, queue) => j == job || j in queue
    case Spawning(job, queue) => j in queue
    case _ => false
  }

  /** What becomes of a job in one step of a round that goes on. */
  lemma OneStep(cap: Capacity, s: Sys, e: Event, j: JobId)
    requires Inv(cap, s) && Enabled(cap, s, e) && !e.Snapshot? && !e.EndRound? && !e.SchedulerDies?
    ensures j in s.dispatched ==> j in Step(cap, s, e).dispatched
    ensures Ahead(s.pc, j) ==>
              || Ahead(Step(cap, s, e).pc, j) || j in Step(cap, s, e).dispatched
              || (e.SkipFull? && s.pc.queue[0] == j && FullUp(cap, s, s.jobs[j].workerClass))
  {
    if e.SkipFull? || e.ClearForStart? {
      var queue := s.pc.queue;
      assert queue == [queue[0]] + queue[1..];
    }
  }

  /** From the snapshot of a round to any later point of it. */
  lemma {:induction false} InRound(cap: Capacity, states: seq<Sys>, events: seq<Event>, i: nat, k: nat, j: JobId)
    returns (m: Option<nat>)
    requires Run(cap, states, events) && i < k <= |events| && events[i].Snapshot? && j in events[i].queue
    requires forall m :: i < m < k ==> !events[m].Snapshot? && !events[m].EndRound? && !events[m].SchedulerDies?
    ensures m.None? ==> Ahead(states[k].pc, j) || j in states[k].dispatched
    ensures m.Some? ==> i < m.value < k && PassedOver(cap, states, events, m.value, j)
    decreases k
  {
    m := None;
    if k == i + 1 {
      FirstInRound(cap, states, events, i, j);
    } else {
      m := InRound(cap, states, events, i, k - 1, j);
      if m.None? {
        m := NextInRound(cap, states, events, k - 1, j);
      }
    }
  }

  lemma FirstInRound(cap: Capacity, states: seq<Sys>, events: seq<Event>, i: nat, j: JobId)
    requires Run(cap, states, events) && i < |events| && events[i].Snapshot? && j in events[i].queue
    ensures Ahead(states[i + 1].pc, j)
  {
    assert states[i + 1] == Step(cap, states[i], events[i]);
  }

  lemma NextInRound(cap: Capacity, states: seq<Sys>, events: seq<Event>, k: nat, j: JobId) returns (m: Option<nat>)
    requires Run(cap, states, events) && k < |events|
    requires !events[k].Snapshot? && !events[k].EndRound? && !events[k].SchedulerDies?
    requires Ahead(states[k].pc, j) || j in states[k].dispatched
    ensures m.None? ==> Ahead(states[k + 1].pc, j) || j in states[k + 1].dispatched
    ensures m.Some? ==> m.value == k && PassedOver(cap, states, events, k, j)
  {
    m := None;
    CapacityKept(cap, states, events, k);
    assert Enabled(cap, states[k], events[k]) && states[k + 1] == Step(cap, states[k], events[k]);
    OneStep(cap, states[k], events[k], j);
    if !Ahead(states[k + 1].pc, j) && j !in states[k + 1].dispatched {
      m := Some(k);
    }
  }

  /**
    When a round ends, every job that was queued at its start has been dispatched, or was passed
    over at a moment when its class had no capacity left.
   */
  lemma RoundServes(cap: Capacity, states: seq<Sys>, events: seq<Event>, i: nat, k: nat, j: JobId)
    requires Run(cap, states, events) && i < k < |events| && events[i].Snapshot? && events[k].EndRound?
    requires forall m :: i < m < k ==> !events[m].Snapshot? && !events[m].EndRound? && !events[m].SchedulerDies?
    requires j in states[i].jobs && states[i].jobs[j].status.Queued?
    ensures j in states[k].dispatched || exists m: nat :: i < m < k && PassedOver(cap, states, events, m, j)
  {
    assert Enabled(cap, states[i], events[i]) && Enabled(cap, states[k], events[k]);
    var m := InRound(cap, states, events, i, k, j);
    if m.Some? {
      assert PassedOver(cap, states, events, m.value, j);
    }
  }

  // ----- The scheduler thread among the others -----

  predicate ByScheduler(e: Event) {
    e.Snapshot? || e.SkipFull? || e.ClearForStart? || e.StartJob? || e.SpawnThread? || e.SchedulerDies? || e.EndRound?
  }

  /** `more` goes on from `past`, within the same round. */
  ghost predicate SameRound(past: seq<Event>, more: seq<Event>) {
    && past <= more
    && forall m :: |past| <= m < |more| ==> !more[m].Snapshot? && !more[m].EndRound? && !more[m].SchedulerDies?
  }

  /** The orchestrator, and the run it has gone through so far. */
  class Orchestrator {
    const cap: Capacity
    var sys: Sys
    ghost var states: seq<Sys>
    ghost var events: seq<Event>

    ghost predicate Valid()
      reads this
    {
      Run(cap, states, events) && states[|events|] == sys
    }

    lemma Sound()
      requires Valid()
      ensures Inv(cap, sys)
    {
      CapacityKept(cap, states, events, |events|);
    }

    constructor (cap: Capacity)
      ensures this.cap == cap && Valid() && sys.pc.Sleeping? && sys.jobs == map[] && events == []
    {
      this.cap := cap;
      sys := Sys(map[], map c | c in cap :: 0, Sleeping, {}, [], {});
      states, events := [Sys(map[], map c | c in cap :: 0, Sleeping, {}, [], {})], [];
    }

    method Act(e: Event)
      requires Valid() && Enabled(cap, sys, e)
      modifies this
      ensures Valid() && sys == Step(cap, old(sys), e) && events == old(events) + [e]
      ensures old(states) <= states
    {
      sys := Step(cap, sys, e);
      states, events := states + [sys], events + [e];
    }

    /** Any number of steps of submitters and job threads. */
    method Others()
      requires Valid()
      modifies this
      ensures Valid() && sys.pc == old(sys.pc) && old(sys.jobs.Keys) <= sys.jobs.Keys
      ensures SameRound(old(events), events) && old(states) <= states
    {
      var n: int := *;
      for i := 0 to if n < 0 then 0 else n
        invariant Valid() && sys.pc == old(sys.pc) && old(sys.jobs.Keys) <= sys.jobs.Keys
        invariant SameRound(old(events), events) && old(states) <= states
      {
        var e: Event := *;
        if !ByScheduler(e) && Enabled(cap, sys, e) {
          Act(e);
        }
      }
    }

    /** The locked part of `_start_job`: the status is looked at again, and the job leased if it is still queued. */
    method Lease() returns (leased: bool)
      requires Valid() && sys.pc.Cleared? && sys.pc.job in sys.jobs
      modifies this
      ensures Valid() && SameRound(old(events), events) && old(states) <= states
      ensures leased <==> old(sys).jobs[old(sys).pc.job].status.Queued?
      ensures sys.dispatched == if leased then old(sys).dispatched + [old(sys).pc.job] else old(sys).dispatched
      ensures old(sys).pc.job in sys.dispatched
      ensures sys.pc == if leased then Spawning(old(sys).pc.job, old(sys).pc.queue) else Looking(old(sys).pc.queue)
    {
      Sound();
      Act(StartJob);
      leased := sys.pc.Spawning?;
    }

    /** The job's thread is started, or the scheduler thread dies of the error. */
    method Spawn() returns (alive: bool)
      requires Valid() && sys.pc.Spawning?
      modifies this
      ensures Valid() && old(states) <= states && old(events) <= events
      ensures alive ==> sys.pc == Looking(old(sys.pc.queue)) && SameRound(old(events), events)
      ensures !alive ==> sys.pc.Dead?
    {
      alive := *;
      if alive {
        Act(SpawnThread);
      } else {
        Act(SchedulerDies);
      }
    }

    /** `_start_job`. */
    method Start() returns (alive: bool)
      requires Valid() && sys.pc.Cleared?
      modifies this
      ensures Valid() && old(states) <= states && old(events) <= events
      ensures alive ==> sys.pc == Looking(old(sys.pc.queue)) && SameRound(old(events), events)
      ensures !alive ==> sys.pc.Dead?
    {
      Sound();
      var leased := Lease();
      if !leased {
        return true;
      }
      ghost var past := events;
      Others();
      SameRoundOn(old(events), past, events);
      past := events;
      alive := Spawn();
      if alive {
        SameRoundOn(old(events), past, events);
      }
    }

    /** The capacity check on the head of the queue, made without the lock. */
    method Look() returns (cleared: bool)
      requires Valid() && sys.pc.Looking? && sys.pc.queue != []
      modifies this
      ensures Valid() && SameRound(old(events), events) && old(states) <= states
      ensures sys.pc == if cleared then Cleared(old(sys.pc.queue)[0], old(sys.pc.queue)[1..])
                        else Looking(old(sys.pc.queue)[1..])
    {
      Sound();
      assert sys.pc.queue[0] in sys.pc.queue;
      cleared := !HeadFull(cap, sys);
      if cleared {
        Act(ClearForStart);
      } else {
        Act(SkipFull);
      }
    }

    /** One turn of the loop over the snapshot. */
    method Turn() returns (alive: bool)
      requires Valid() && sys.pc.Looking? && sys.pc.queue != []
      modifies this
      ensures Valid() && old(states) <= states && old(events) <= events
      ensures alive ==> sys.pc == Looking(old(sys.pc.queue)[1..]) && SameRound(old(events), events)
      ensures !alive ==> sys.pc.Dead?
    {
      Others();
      ghost var past := events;
      var cleared := Look();
      SameRoundOn(old(events), past, events);
      if !cleared {
        return true;
      }
      past := events;
      Others();
      SameRoundOn(old(events), past, events);
      past := events;
      alive := Start();
      if alive {
        SameRoundOn(old(events), past, events);
      }
    }

    /** The snapshot of the queue, taken under the lock. */
    method ListQueued() returns (queue: seq<JobId>)
      ensures ListsQueued(sys.jobs, queue)
    {
      queue := [];
      var todo := sys.jobs.Keys;
      while todo != {}
        invariant todo <= sys.jobs.Keys && Distinct(queue)
        invariant forall j :: j in queue ==> j in sys.jobs && j !in todo && sys.jobs[j].status.Queued?
        invariant forall j :: j in sys.jobs && j !in todo && sys.jobs[j].status.Queued? ==> j in queue
        decreases |todo|
      {
        var j :| j in todo;
        todo := todo - {j};
        if sys.jobs[j].status.Queued? {
          DistinctSnoc(queue, j);
          queue := queue + [j];
        }
      }
    }

    /** One round of `_scheduler_loop`: every queued job is dispatched unless its class is full when its turn comes. */
    method Round() returns (alive: bool)
      requires Valid() && sys.pc.Sleeping?
      modifies this
      ensures Valid() && old(states) <= states && old(events) <= events
      ensures if alive then sys.pc.Sleeping? else sys.pc.Dead?
      ensures alive ==> forall j :: j in old(sys.jobs) && old(sys.jobs)[j].status.Queued? ==>
                || j in sys.dispatched
                || exists m: nat :: |old(events)| < m && PassedOver(cap, states, events, m, j)
    {
      var queue := ListQueued();
      Act(Snapshot(queue));
      ghost var begun, first := events, states;
      while sys.pc.queue != []
        invariant Valid() && sys.pc.Looking? && SameRound(begun, events) && first <= states
        decreases |sys.pc.queue|
      {
        ghost var past := events;
        alive := Turn();
        if !alive {
          return;
        }
        SameRoundOn(begun, past, events);
      }
      Act(EndRound);
      alive := true;
      Served(old(sys), old(|events|), begun);
    }

    lemma Served(start: Sys, i: nat, begun: seq<Event>)
      requires Valid() && |begun| == i + 1 && begun[i].Snapshot? && |events| > i + 1 && states[i] == start
      requires events[|events| - 1].EndRound? && SameRound(begun, events[..|events| - 1])
      ensures forall j :: j in start.jobs && start.jobs[j].status.Queued? ==>
                || j in sys.dispatched
                || exists m: nat :: i < m && PassedOver(cap, states, events, m, j)
    {
      var k := |events| - 1;
      assert events[i] == events[..k][i] == begun[i];
      assert forall m :: i < m < k ==> events[m] == events[..k][m];
      assert Enabled(cap, states[k], events[k]) && states[k + 1] == Step(cap, states[k], events[k]);
      forall j | j in start.jobs && start.jobs[j].status.Queued?
        ensures j in sys.dispatched || exists m: nat :: i < m && PassedOver(cap, states, events, m, j)
      {
        RoundServes(cap, states, events, i, k, j);
      }
    }
  }

  lemma SameRoundOn(a: seq<Event>, b: seq<Event>, c: seq<Event>)
    requires SameRound(a, b) && SameRound(b, c)
    ensures SameRound(a, c)
  {
  }
}
