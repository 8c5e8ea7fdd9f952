/** Workers over the job table in time: no job runs twice at once, a finished job never runs
    again, a crashed worker's job comes back, and retries are bounded. */
module WorkerProtocol {
  import opened Common
  import opened Timestamps
  import opened WorkQueue
  import Text

  /** A worker holds the copy of the row it claimed. */
  datatype Execution = Execution(id: string, claimed: Job)

  /** `claims` and `recoveries` count, per job, the executions started and the stale recoveries since
      its row was written last. */
  datatype World = World(
    now: Instant, jobs: Jobs, running: map<string, Execution>,
    claims: map<string, nat>, recoveries: map<string, nat>)

  datatype Step =
    | Tick(to: Instant)
    | Create(id: string, maxAttempts: int)
    | Claim(worker: string, id: string, listed: Instant, stamp: Instant)
    | Touch(worker: string)
    | Recover(cutoff: Instant)
    | Finish(worker: string, verdict: Verdict, next: Instant)
    | Crash(worker: string)
    | Rewrite(id: string, copied: bool)
    | Remove(id: string)

  function Count(counts: map<string, nat>, id: string): nat {
    if id in counts then counts[id] else 0
  }

  function Started(kind: Kind, w: World, worker: string, id: string, stamp: Instant): World
    requires id in w.jobs
  {
    var row := Claimed(kind, w.jobs[id], stamp);
    w.(jobs := w.jobs[id := row], running := w.running[worker := Execution(id, row)],
       claims := w.claims[id := Count(w.claims, id) + 1])
  }

  function Restored(kind: Kind, w: World, ids: set<string>): World {
    w.(jobs := RecoverIds(kind, w.jobs, ids, w.now),
       recoveries := map id | id in w.jobs :: Count(w.recoveries, id) + if id in ids then 1 else 0)
  }

  function Ended(kind: Kind, w: World, worker: string, verdict: Verdict, next: Instant): World
    requires worker in w.running
  {
    var e := w.running[worker];
    w.(jobs := WriteBack(kind, w.jobs, e.id, e.claimed, verdict, next, w.now), running := w.running - {worker})
  }

  /** A new row, or none, with its counts started afresh. */
  function Replaced(w: World, id: string, jobs: Jobs): World {
    w.(jobs := jobs, claims := w.claims - {id}, recoveries := w.recoveries - {id})
  }

  /** Plugin jobs and deliveries are created once under their key. A replica's row is written over by
      every overwrite, restore and copy of its object, and removed by every delete and overwrite. */
  function Apply(kind: Kind, w: World, step: Step): World {
    match step
    case Tick(to) => w.(now := to)
    case Create(id, maxAttempts) => if kind.Replica? then w else w.(jobs := CreateRow(w.jobs, id, maxAttempts, w.now))
    case Claim(worker, id, listed, stamp) =>
      if worker in w.running || !Claimable(kind, w.jobs, id, listed) then w else Started(kind, w, worker, id, stamp)
    case Touch(worker) =>
      if worker !in w.running then w else w.(jobs := TouchRow(w.jobs, w.running[worker].id, w.now))
    case Recover(cutoff) => Restored(kind, w, StaleIds(w.jobs, cutoff))
    case Finish(worker, verdict, next) =>
      if worker !in w.running then w else Ended(kind, w, worker, verdict, next)
    case Crash(worker) => w.(running := w.running - {worker})
    case Rewrite(id, copied) =>
      if kind.Replica? then Replaced(w, id, PutRow(w.jobs, id, WrittenReplica(copied, w.now))) else w
    case Remove(id) => if kind.Replica? then Replaced(w, id, RemoveRow(w.jobs, id)) else w
  }

  function Run(kind: Kind, w: World, steps: seq<Step>): World
    decreases steps
  {
    if steps == [] then w else Run(kind, Apply(kind, w, steps[0]), steps[1..])
  }

  // ---- the timing assumption -------------------------------------------

  /** Every live worker's row was stamped no more than `bound` nanoseconds ago. */
  ghost predicate HeartbeatsKept(w: World, bound: nat) {
    forall worker :: worker in w.running && w.running[worker].id in w.jobs
      ==> Nanos(w.now) <= Nanos(w.jobs[w.running[worker].id].updatedAt) + bound
  }

  /** A recovery's cutoff was computed from an earlier reading of the clock. */
  predicate CutoffIsOld(w: World, step: Step, staleAfter: nat) {
    step.Recover? ==> Nanos(step.cutoff) + staleAfter <= Nanos(w.now)
  }

  ghost predicate Timed(kind: Kind, w: World, steps: seq<Step>, bound: nat, staleAfter: nat)
    decreases steps
  {
    && HeartbeatsKept(w, bound)
    && (steps != [] ==> (CutoffIsOld(w, steps[0], staleAfter)
        && Timed(kind, Apply(kind, w, steps[0]), steps[1..], bound, staleAfter)))
  }

  // ---- mutual exclusion ------------------------------------------------

  /** Each live worker's job is running as the worker claimed it, and no two share a job. */
  ghost predicate Exclusive(w: World) {
    && (forall a :: a in w.running ==> Owns(w, a))
    && (forall a, b :: a in w.running && b in w.running && a != b ==> w.running[a].id != w.running[b].id)
  }

  predicate Owns(w: World, worker: string)
    requires worker in w.running
  {
    var e := w.running[worker];
    e.id in w.jobs && w.jobs[e.id].status == Running
    && w.jobs[e.id].attempts == e.claimed.attempts && w.jobs[e.id].maxAttempts == e.claimed.maxAttempts
  }

  /** A row stamped no earlier than the cutoff is taken for stale exactly if the two clash. */
  lemma StaleExactlyInClash(j: Job, cutoff: Instant)
    requires j.status == Running && Nanos(cutoff) <= Nanos(j.updatedAt)
    ensures Stale(j, cutoff) <==> FractionClash(j.updatedAt, cutoff)
  {
    EarlyExactlyInClash(j.updatedAt, cutoff);
  }

  /** A row touched within the bound is never stale, even by a second's slack of its text. */
  lemma FreshRowIsNotStale(j: Job, cutoff: Instant, now: Instant, bound: nat, staleAfter: nat)
    requires bound + SECOND <= staleAfter
    requires Nanos(now) <= Nanos(j.updatedAt) + bound && Nanos(cutoff) + staleAfter <= Nanos(now)
    ensures !Stale(j, cutoff)
  {
    TextOrderSlack(cutoff, j.updatedAt);
    Text.Trichotomy(Format(cutoff), Format(j.updatedAt));
  }

  predicate Disturbed(w: World, ids: set<string>, worker: string)
    requires worker in w.running
  {
    w.running[worker].id in ids
  }

  lemma StartedExclusive(kind: Kind, w: World, worker: string, id: string, stamp: Instant)
    requires Exclusive(w) && worker !in w.running && id in w.jobs && w.jobs[id].status == Pending
    ensures Exclusive(Started(kind, w, worker, id, stamp))
  {
    var after := Started(kind, w, worker, id, stamp);
    forall a | a in after.running ensures Owns(after, a) && (a != worker ==> after.running[a].id != id) {
      if a != worker {
        assert Owns(w, a);
      }
    }
  }

  /** A recovery keeps exclusion exactly when it takes no live worker's job away. */
  lemma RestoredExclusive(kind: Kind, w: World, ids: set<string>)
    requires Exclusive(w)
    ensures Exclusive(Restored(kind, w, ids)) <==> forall a :: a in w.running ==> !Disturbed(w, ids, a)
  {
    var after := Restored(kind, w, ids);
    forall a | a in after.running ensures Owns(after, a) <==> !Disturbed(w, ids, a) {
      assert Owns(w, a);
    }
  }

  lemma EndedExclusive(kind: Kind, w: World, worker: string, verdict: Verdict, next: Instant)
    requires Exclusive(w) && worker in w.running
    ensures Exclusive(Ended(kind, w, worker, verdict, next))
  {
    var after := Ended(kind, w, worker, verdict, next);
    assert Owns(w, worker);
    forall a | a in after.running ensures Owns(after, a) {
      assert Owns(w, a);
    }
  }

  /** Some live worker executes this job. */
  predicate Executed(w: World, id: string) {
    exists a :: a in w.running && w.running[a].id == id
  }

  /** Writing over a replica's row, or removing it, takes the job from a worker exactly if one
      executes it: no clock is involved. */
  lemma ReplacedExclusive(w: World, id: string, jobs: Jobs)
    requires Exclusive(w) && jobs - {id} == w.jobs - {id} && (id in jobs ==> jobs[id].status != Running)
    ensures Exclusive(Replaced(w, id, jobs)) <==> !Executed(w, id)
  {
    var after := Replaced(w, id, jobs);
    forall a | a in after.running ensures Owns(after, a) <==> w.running[a].id != id {
      assert Owns(w, a);
      if w.running[a].id != id {
        assert w.running[a].id in w.jobs - {id};
        assert (jobs - {id})[w.running[a].id] == (w.jobs - {id})[w.running[a].id];
      }
    }
  }

  lemma TouchedExclusive(w: World, worker: string)
    requires Exclusive(w) && worker in w.running
    ensures Exclusive(w.(jobs := TouchRow(w.jobs, w.running[worker].id, w.now)))
  {
    var after := w.(jobs := TouchRow(w.jobs, w.running[worker].id, w.now));
    forall a | a in after.running ensures Owns(after, a) {
      assert Owns(w, a);
    }
  }

  lemma CreatedExclusive(w: World, id: string, row: Job)
    requires Exclusive(w) && id !in w.jobs
    ensures Exclusive(w.(jobs := w.jobs[id := row]))
  {
    var after := w.(jobs := w.jobs[id := row]);
    forall a | a in after.running ensures Owns(after, a) {
      assert Owns(w, a);
    }
  }

  lemma FewerExclusive(w: World, worker: string)
    requires Exclusive(w)
    ensures Exclusive(w.(running := w.running - {worker}))
  {
    var after := w.(running := w.running - {worker});
    forall a | a in after.running ensures Owns(after, a) {
      assert Owns(w, a);
    }
  }

  lemma TickedExclusive(w: World, to: Instant)
    requires Exclusive(w)
    ensures Exclusive(w.(now := to))
  {
    var after := w.(now := to);
    forall a | a in after.running ensures Owns(after, a) {
      assert Owns(w, a);
    }
  }

  /** The stamp of a live worker's row clashes with a recovery's cutoff. */
  ghost predicate ClashesWithLive(w: World, step: Step) {
    exists a :: a in w.running && Clashes(w, step, a)
  }

  predicate Clashes(w: World, step: Step, worker: string)
    requires worker in w.running
  {
    var id := w.running[worker].id;
    step.Recover? && id in w.jobs && FractionClash(w.jobs[id].updatedAt, step.cutoff)
  }

  /** A heartbeat inside the stale window: which live jobs a recovery takes. */
  lemma TakenExactlyInClash(w: World, step: Step, worker: string, bound: nat, staleAfter: nat)
    requires bound <= staleAfter && step.Recover? && worker in w.running
    requires Owns(w, worker) && HeartbeatsKept(w, bound) && CutoffIsOld(w, step, staleAfter)
    ensures Disturbed(w, StaleIds(w.jobs, step.cutoff), worker) <==> Clashes(w, step, worker)
  {
    StaleExactlyInClash(w.jobs[w.running[worker].id], step.cutoff);
  }

  /** A recovery keeps exclusion exactly if it leaves every live worker's row alone. */
  lemma RecoveryByRows(kind: Kind, w: World, cutoff: Instant)
    requires Exclusive(w)
    ensures Exclusive(Apply(kind, w, Recover(cutoff)))
       <==> forall a :: a in w.running ==> !Disturbed(w, StaleIds(w.jobs, cutoff), a)
  {
    var ids := StaleIds(w.jobs, cutoff);
    RecoverIsRestore(kind, w, cutoff);
    RestoredExclusive(kind, w, ids);
  }

  lemma RecoverIsRestore(kind: Kind, w: World, cutoff: Instant)
    ensures Apply(kind, w, Recover(cutoff)) == Restored(kind, w, StaleIds(w.jobs, cutoff))
  {}

  lemma EachTakenInClash(w: World, step: Step, bound: nat, staleAfter: nat)
    requires bound <= staleAfter && step.Recover?
    requires Exclusive(w) && HeartbeatsKept(w, bound) && CutoffIsOld(w, step, staleAfter)
    ensures forall a :: a in w.running ==> (Disturbed(w, StaleIds(w.jobs, step.cutoff), a) <==> Clashes(w, step, a))
  {
    forall a | a in w.running ensures Disturbed(w, StaleIds(w.jobs, step.cutoff), a) <==> Clashes(w, step, a) {
      assert Owns(w, a);
      TakenExactlyInClash(w, step, a, bound, staleAfter);
    }
  }

  lemma RecoveryByClash(kind: Kind, w: World, step: Step)
    requires Exclusive(w) && step.Recover?
    requires forall a :: a in w.running ==> (Disturbed(w, StaleIds(w.jobs, step.cutoff), a) <==> Clashes(w, step, a))
    ensures Exclusive(Apply(kind, w, step)) <==> !ClashesWithLive(w, step)
  {
    RecoveryByRows(kind, w, step.cutoff);
  }

  /** With heartbeats inside the stale window, a recovery keeps one worker per job exactly if no
      live worker's stamp clashes with its cutoff. */
  lemma RecoveryExclusiveExactly(kind: Kind, w: World, step: Step, bound: nat, staleAfter: nat)
    requires bound <= staleAfter && step.Recover?
    requires Exclusive(w) && HeartbeatsKept(w, bound) && CutoffIsOld(w, step, staleAfter)
    ensures Exclusive(Apply(kind, w, step)) <==> !ClashesWithLive(w, step)
  {
    EachTakenInClash(w, step, bound, staleAfter);
    RecoveryByClash(kind, w, step);
  }

  /** A job taken in such a clash is executed twice as soon as another worker claims it. */
  lemma TakenJobRunsTwice(kind: Kind, w: World, cutoff: Instant, live: string, other: string, listed: Instant,
                          stamp: Instant)
    requires live in w.running && Owns(w, live) && other !in w.running
    requires Nanos(cutoff) <= Nanos(w.jobs[w.running[live].id].updatedAt) && Clashes(w, Recover(cutoff), live)
    requires Due(Recovered(kind, w.jobs[w.running[live].id], w.now), listed)
    ensures var id := w.running[live].id;
            var after := Apply(kind, Apply(kind, w, Recover(cutoff)), Claim(other, id, listed, stamp)).running;
            live in after && other in after && after[live].id == id && after[other].id == id
  {
    var id := w.running[live].id;
    StaleExactlyInClash(w.jobs[id], cutoff);
    assert id in StaleIds(w.jobs, cutoff);
    DueJobCanStart(kind, Apply(kind, w, Recover(cutoff)), id, other, listed, stamp);
  }

  /** One worker, executing one job. */
  function Alone(row: Job, now: Instant): World {
    World(now, map["j" := row], map["w" := Execution("j", row)], map[], map[])
  }

  lemma AloneExclusive(row: Job, now: Instant)
    requires row.status == Running
    ensures Exclusive(Alone(row, now))
  {}

  lemma AloneTaken(kind: Kind, row: Job, now: Instant, cutoff: Instant)
    requires row.status == Running && Stale(row, cutoff)
    ensures !Exclusive(Apply(kind, Alone(row, now), Recover(cutoff)))
  {
    var w := Alone(row, now);
    AloneExclusive(row, now);
    assert "j" in StaleIds(w.jobs, cutoff);
    assert Disturbed(w, StaleIds(w.jobs, cutoff), "w");
    RecoveryByRows(kind, w, cutoff);
  }

  /** Such a recovery exists: a row stamped after the cutoff can be taken. */
  lemma FreshRowTaken(kind: Kind, now: Instant) returns (row: Job, cutoff: Instant)
    ensures row.status == Running && Nanos(cutoff) < Nanos(row.updatedAt)
    ensures Exclusive(Alone(row, now)) && !Exclusive(Apply(kind, Alone(row, now), Recover(cutoff)))
  {
    var earlier, later := ClashExists();
    row, cutoff := Job(Running, 1, 3, now, later), earlier;
    AloneExclusive(row, now);
    StaleExactlyInClash(row, cutoff);
    AloneTaken(kind, row, now, cutoff);
  }

  /** The step writes over, or removes, the row of a replica that a live worker executes. */
  predicate ReplacesLive(kind: Kind, w: World, step: Step) {
    kind.Replica? && Replaces(step) && Executed(w, step.id)
  }

  predicate Replaces(step: Step) {
    step.Rewrite? || step.Remove?
  }

  /** Every step but a recovery or a rewritten replica keeps exclusion whatever the clock does. */
  lemma UntimedExclusive(kind: Kind, w: World, step: Step)
    requires Exclusive(w) && !step.Recover? && !(kind.Replica? && Replaces(step))
    ensures Exclusive(Apply(kind, w, step))
  {
    match step
    case Tick(to) => TickedExclusive(w, to);
    case Create(id, maxAttempts) =>
      if id !in w.jobs { CreatedExclusive(w, id, Job(Pending, 0, maxAttempts, w.now, w.now)); }
    case Claim(worker, id, listed, stamp) =>
      if worker !in w.running && Claimable(kind, w.jobs, id, listed) { StartedExclusive(kind, w, worker, id, stamp); }
    case Touch(worker) => if worker in w.running { TouchedExclusive(w, worker); }
    case Finish(worker, verdict, next) => if worker in w.running { EndedExclusive(kind, w, worker, verdict, next); }
    case Crash(worker) => FewerExclusive(w, worker);
    case _ =>
  }

  lemma RewriteExclusive(kind: Kind, w: World, step: Step)
    requires Exclusive(w) && kind.Replica? && Replaces(step)
    ensures Exclusive(Apply(kind, w, step)) <==> !Executed(w, step.id)
  {
    match step
    case Rewrite(id, copied) =>
      var jobs := PutRow(w.jobs, id, WrittenReplica(copied, w.now));
      assert jobs - {id} == w.jobs - {id};
      ReplacedExclusive(w, id, jobs);
    case Remove(id) =>
      assert RemoveRow(w.jobs, id) - {id} == w.jobs - {id};
      ReplacedExclusive(w, id, RemoveRow(w.jobs, id));
  }

  /** The step takes a job from a live worker: by a recovery in a clash, or by replacing its row. */
  ghost predicate Disrupts(kind: Kind, w: World, step: Step) {
    ClashesWithLive(w, step) || ReplacesLive(kind, w, step)
  }

  lemma DisruptsHow(kind: Kind, w: World, step: Step)
    ensures step.Recover? ==> (Disrupts(kind, w, step) <==> ClashesWithLive(w, step))
    ensures !step.Recover? ==> (Disrupts(kind, w, step) <==> ReplacesLive(kind, w, step))
  {}

  /** Every step, exactly: only those two can end exclusion. */
  lemma StepExclusive(kind: Kind, w: World, step: Step, bound: nat, staleAfter: nat)
    requires bound <= staleAfter
    requires Exclusive(w) && HeartbeatsKept(w, bound) && CutoffIsOld(w, step, staleAfter)
    ensures Exclusive(Apply(kind, w, step)) <==> !Disrupts(kind, w, step)
  {
    DisruptsHow(kind, w, step);
    if step.Recover? {
      RecoveryExclusiveExactly(kind, w, step, bound, staleAfter);
    } else if kind.Replica? && Replaces(step) {
      RewriteExclusive(kind, w, step);
    } else {
      UntimedExclusive(kind, w, step);
    }
  }

  ghost predicate NeverDisrupted(kind: Kind, w: World, steps: seq<Step>)
    decreases steps
  {
    steps == [] || (!Disrupts(kind, w, steps[0]) && NeverDisrupted(kind, Apply(kind, w, steps[0]), steps[1..]))
  }

  /** Timed mutual exclusion: if every live worker's row is stamped within the stale window, no cutoff
      clashes with such a stamp, and no replica is written over while it runs, no two workers ever
      execute one job at once. */
  lemma {:induction false} AlwaysExclusive(kind: Kind, w: World, steps: seq<Step>, bound: nat, staleAfter: nat)
    requires bound <= staleAfter && NeverDisrupted(kind, w, steps)
    requires Exclusive(w) && Timed(kind, w, steps, bound, staleAfter)
    ensures Exclusive(Run(kind, w, steps))
    decreases steps
  {
    if steps != [] {
      StepExclusive(kind, w, steps[0], bound, staleAfter);
      AlwaysExclusive(kind, Apply(kind, w, steps[0]), steps[1..], bound, staleAfter);
    }
  }

  /** An overwrite while a replica runs queues it again: another worker claims it and both execute it,
      with no clash and within the stale window. */
  lemma RewrittenRunsTwice(w: World, live: string, other: string, listed: Instant, stamp: Instant)
    requires live in w.running && other !in w.running
    ensures var id := w.running[live].id;
            var after := Apply(Replica, Apply(Replica, w, Rewrite(id, false)), Claim(other, id, listed, stamp)).running;
            live in after && other in after && after[live].id == id && after[other].id == id
  {}

  /** A finished replica that is queued again is executed again. */
  lemma RewrittenRunsAgain(w: World, id: string, worker: string, listed: Instant, stamp: Instant)
    requires Over(w, id) && worker !in w.running
    ensures var after := Apply(Replica, Apply(Replica, w, Rewrite(id, false)), Claim(worker, id, listed, stamp));
            && worker in after.running && after.running[worker].id == id && Owns(after, worker)
            && !SameJob(w, after, id)
  {}

  ghost predicate NeverReplaced(kind: Kind, w: World, steps: seq<Step>)
    decreases steps
  {
    steps == [] || (!ReplacesLive(kind, w, steps[0]) && NeverReplaced(kind, Apply(kind, w, steps[0]), steps[1..]))
  }

  /** Plugin jobs and deliveries are never replaced. */
  lemma {:induction false} OthersNeverReplaced(kind: Kind, w: World, steps: seq<Step>)
    requires !kind.Replica?
    ensures NeverReplaced(kind, w, steps)
    decreases steps
  {
    if steps != [] {
      OthersNeverReplaced(kind, Apply(kind, w, steps[0]), steps[1..]);
    }
  }

  /** With heartbeats a second or more inside the window only a replaced replica disrupts. */
  lemma {:induction false} MarginNeverDisrupts(kind: Kind, w: World, steps: seq<Step>, bound: nat, staleAfter: nat)
    requires bound + SECOND <= staleAfter && NeverReplaced(kind, w, steps)
    requires Exclusive(w) && Timed(kind, w, steps, bound, staleAfter)
    ensures NeverDisrupted(kind, w, steps) && Exclusive(Run(kind, w, steps))
    decreases steps
  {
    if steps != [] {
      MarginStep(w, steps[0], bound, staleAfter);
      StepExclusive(kind, w, steps[0], bound, staleAfter);
      MarginNeverDisrupts(kind, Apply(kind, w, steps[0]), steps[1..], bound, staleAfter);
    }
  }

  lemma MarginStep(w: World, step: Step, bound: nat, staleAfter: nat)
    requires bound + SECOND <= staleAfter
    requires Exclusive(w) && HeartbeatsKept(w, bound) && CutoffIsOld(w, step, staleAfter)
    ensures !ClashesWithLive(w, step)
  {
    if step.Recover? {
      forall a | a in w.running ensures !Clashes(w, step, a) {
        assert Owns(w, a);
        var row := w.jobs[w.running[a].id];
        FreshRowIsNotStale(row, step.cutoff, w.now, bound, staleAfter);
        StaleExactlyInClash(row, step.cutoff);
      }
    }
  }

  predicate Terminal(s: Status) {
    s == Succeeded || s == Failed || s == Status.Superseded
  }

  ghost predicate SameJob(w: World, after: World, id: string) {
    (id in w.jobs ==> id in after.jobs && after.jobs[id] == w.jobs[id])
        && Count(after.claims, id) == Count(w.claims, id)
  }

  predicate Over(w: World, id: string) {
    id in w.jobs && Terminal(w.jobs[id].status)
  }

  lemma NotStale(w: World, id: string, cutoff: Instant)
    requires Over(w, id)
    ensures id !in StaleIds(w.jobs, cutoff)
  {}

  /** The step writes over or removes this replica's row. */
  predicate ReplacesRow(kind: Kind, step: Step, id: string) {
    kind.Replica? && Replaces(step) && step.id == id
  }

  lemma StepKeepsFinished(kind: Kind, w: World, step: Step, id: string)
    requires Exclusive(w) && Over(w, id) && !ReplacesRow(kind, step, id)
    ensures SameJob(w, Apply(kind, w, step), id)
  {
    match step
    case Recover(cutoff) => NotStale(w, id, cutoff);
    case Finish(worker, verdict, next) => assert worker in w.running ==> Owns(w, worker);
    case _ =>
  }

  /** A finished job keeps its row until it is written over, which only happens to replicas: it is
      never claimed, touched or recovered again. */
  lemma {:induction false} FinishedForGood(kind: Kind, w: World, steps: seq<Step>, bound: nat, staleAfter: nat,
                                           id: string)
    requires bound <= staleAfter && NeverDisrupted(kind, w, steps)
    requires Exclusive(w) && Timed(kind, w, steps, bound, staleAfter) && Over(w, id)
    requires forall i :: 0 <= i < |steps| ==> !ReplacesRow(kind, steps[i], id)
    ensures SameJob(w, Run(kind, w, steps), id)
    decreases steps
  {
    if steps != [] {
      StepExclusive(kind, w, steps[0], bound, staleAfter);
      StepKeepsFinished(kind, w, steps[0], id);
      FinishedForGood(kind, Apply(kind, w, steps[0]), steps[1..], bound, staleAfter, id);
    }
  }

  // ---- recovery --------------------------------------------------------

  /** A crashed worker's job is not lost: a running row whose stamp is a second before the cutoff
      is pending again after the recovery, with its attempts; a plugin job is due at once, other
      jobs keep their due time. */
  lemma CrashedJobComesBack(kind: Kind, w: World, id: string, cutoff: Instant)
    requires id in w.jobs && w.jobs[id].status == Running
    requires Nanos(w.jobs[id].updatedAt) + SECOND <= Nanos(cutoff)
    ensures var back := Apply(kind, w, Recover(cutoff)).jobs;
            && id in back && back[id].status == Pending && back[id].updatedAt == w.now
            && back[id].attempts == w.jobs[id].attempts && back[id].maxAttempts == w.jobs[id].maxAttempts
            && back[id].nextAttemptAt == if kind == PluginJob then w.now else w.jobs[id].nextAttemptAt
  {
    StaleByClock(w.jobs[id], cutoff);
    assert id in StaleIds(w.jobs, cutoff);
  }

  lemma StaleByClock(j: Job, cutoff: Instant)
    requires j.status == Running && Nanos(j.updatedAt) + SECOND <= Nanos(cutoff)
    ensures Stale(j, cutoff)
  {
    TextOrderSlack(j.updatedAt, cutoff);
  }

  /** A due pending row can be claimed by any free worker, which then executes it. */
  lemma DueJobCanStart(kind: Kind, w: World, id: string, worker: string, listed: Instant, stamp: Instant)
    requires id in w.jobs && Due(w.jobs[id], listed) && worker !in w.running
    ensures var after := Apply(kind, w, Claim(worker, id, listed, stamp));
            && worker in after.running && after.running[worker].id == id && Owns(after, worker)
  {
    assert Claimable(kind, w.jobs, id, listed);
  }

  /** From crash to new execution: once recovered, any free worker whose clock is a second past the
      recovery and past the due time can claim the job, and then owns it. */
  lemma CrashedJobRunsAgain(kind: Kind, w: World, id: string, cutoff: Instant, worker: string, listed: Instant,
                            stamp: Instant)
    requires id in w.jobs && w.jobs[id].status == Running && worker !in w.running
    requires Nanos(w.jobs[id].updatedAt) + SECOND <= Nanos(cutoff)
    requires Nanos(w.now) + SECOND <= Nanos(listed) && Nanos(w.jobs[id].nextAttemptAt) + SECOND <= Nanos(listed)
    ensures var after := Apply(kind, Apply(kind, w, Recover(cutoff)), Claim(worker, id, listed, stamp));
            && worker in after.running && after.running[worker].id == id && Owns(after, worker)
  {
    CrashedJobComesBack(kind, w, id, cutoff);
    DueByClock(Recovered(kind, w.jobs[id], w.now), listed);
    DueJobCanStart(kind, Apply(kind, w, Recover(cutoff)), id, worker, listed, stamp);
  }

  lemma DueByClock(j: Job, listed: Instant)
    requires j.status == Pending && Nanos(j.nextAttemptAt) + SECOND <= Nanos(listed)
    ensures Due(j, listed)
  {
    TextOrderSlack(j.nextAttemptAt, listed);
  }

  // ---- retry bound -----------------------------------------------------

  /** The attempts a job may use; a replica is always queued with the same number. */
  function Limit(kind: Kind, j: Job): int {
    if kind.Replica? then REPLICA_ATTEMPTS else j.maxAttempts
  }

  /** How often a job has been started, given its row and its recoveries. */
  predicate Bounded(kind: Kind, j: Job, claims: nat, recoveries: nat) {
    && claims <= Limit(kind, j) + recoveries
    && match kind
       case PluginJob =>
         && j.attempts == claims
         && (j.status == Pending ==> j.attempts < j.maxAttempts + recoveries)
       case Replica =>
         !Terminal(j.status) ==>
           && j.maxAttempts == REPLICA_ATTEMPTS && j.attempts == claims
           && (j.status == Pending ==> j.attempts < REPLICA_ATTEMPTS + recoveries)
           && (j.status == Running ==> 0 < j.attempts)
       case HookDelivery =>
         && j.attempts <= j.maxAttempts
         && (j.status == Pending ==> claims == j.attempts + recoveries && j.attempts < j.maxAttempts)
         && (j.status == Running ==> claims == j.attempts + recoveries + 1 && j.attempts < j.maxAttempts)
  }

  predicate BoundedAt(kind: Kind, w: World, id: string) {
    if id in w.jobs then Bounded(kind, w.jobs[id], Count(w.claims, id), Count(w.recoveries, id))
    else Count(w.claims, id) == 0 && Count(w.recoveries, id) == 0
  }

  ghost predicate AllBounded(kind: Kind, w: World) {
    forall id :: BoundedAt(kind, w, id)
  }

  predicate AllowsAttempts(step: Step) {
    step.Create? ==> step.maxAttempts >= 1
  }

  lemma StartedBounded(kind: Kind, w: World, worker: string, id: string, stamp: Instant, other: string)
    requires BoundedAt(kind, w, other) && id in w.jobs && w.jobs[id].status == Pending
    ensures BoundedAt(kind, Started(kind, w, worker, id, stamp), other)
  {}

  lemma RestoredBounded(kind: Kind, w: World, ids: set<string>, other: string)
    requires BoundedAt(kind, w, other) && forall id :: id in ids ==> id in w.jobs && w.jobs[id].status == Running
    ensures BoundedAt(kind, Restored(kind, w, ids), other)
  {}

  lemma EndedBounded(kind: Kind, w: World, worker: string, verdict: Verdict, next: Instant, other: string)
    requires BoundedAt(kind, w, other) && worker in w.running && Owns(w, worker)
    ensures BoundedAt(kind, Ended(kind, w, worker, verdict, next), other)
  {}

  lemma ReplacedBounded(kind: Kind, w: World, step: Step, other: string)
    requires BoundedAt(kind, w, other) && Replaces(step)
    ensures BoundedAt(kind, Apply(kind, w, step), other)
  {}

  lemma FinishBounded(kind: Kind, w: World, step: Step, id: string)
    requires Exclusive(w) && BoundedAt(kind, w, id) && step.Finish?
    ensures BoundedAt(kind, Apply(kind, w, step), id)
  {
    if step.worker in w.running {
      assert Owns(w, step.worker);
      EndedBounded(kind, w, step.worker, step.verdict, step.next, id);
    }
  }

  lemma QuietBounded(kind: Kind, w: World, step: Step, id: string)
    requires BoundedAt(kind, w, id) && AllowsAttempts(step)
    requires step.Tick? || step.Create? || step.Touch? || step.Crash?
    ensures BoundedAt(kind, Apply(kind, w, step), id)
  {}

  lemma StepBounded(kind: Kind, w: World, step: Step, id: string)
    requires Exclusive(w) && BoundedAt(kind, w, id) && AllowsAttempts(step)
    ensures BoundedAt(kind, Apply(kind, w, step), id)
  {
    if step.Claim? {
      if step.worker !in w.running && Claimable(kind, w.jobs, step.id, step.listed) {
        StartedBounded(kind, w, step.worker, step.id, step.stamp, id);
      }
    } else if step.Recover? {
      RestoredBounded(kind, w, StaleIds(w.jobs, step.cutoff), id);
    } else if step.Finish? {
      FinishBounded(kind, w, step, id);
    } else if Replaces(step) {
      ReplacedBounded(kind, w, step, id);
    } else {
      QuietBounded(kind, w, step, id);
    }
  }

  /** Retry bound: a job recovered r times since its row was written has been started at most max + r
      times since; while it waits it has an attempt left, and without recoveries attempts never pass
      max. */
  lemma {:induction false} RetriesAreBounded(kind: Kind, w: World, steps: seq<Step>, bound: nat, staleAfter: nat)
    requires bound <= staleAfter && NeverDisrupted(kind, w, steps)
    requires Exclusive(w) && AllBounded(kind, w) && Timed(kind, w, steps, bound, staleAfter)
    requires forall i :: 0 <= i < |steps| ==> AllowsAttempts(steps[i])
    ensures AllBounded(kind, Run(kind, w, steps))
    decreases steps
  {
    if steps != [] {
      StepExclusive(kind, w, steps[0], bound, staleAfter);
      forall id ensures BoundedAt(kind, Apply(kind, w, steps[0]), id) {
        StepBounded(kind, w, steps[0], id);
      }
      RetriesAreBounded(kind, Apply(kind, w, steps[0]), steps[1..], bound, staleAfter);
    }
  }
}
