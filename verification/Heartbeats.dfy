/** From heartbeats to exclusion: what a claim and a touch stamp, and that workers which beat often
    enough are never disrupted by a recovery. */
module Heartbeats {
  import opened Common
  import opened Timestamps
  import opened WorkQueue
  import opened WorkerProtocol

  /** The time of each live worker's last claim or touch. */
  type Beats = map<string, Instant>

  /** What a step does to that: a claim that starts an execution beats with its stamp, a touch with
      the clock. */
  function Beaten(kind: Kind, w: World, step: Step, beats: Beats): Beats {
    match step
    case Claim(worker, id, listed, stamp) =>
      if worker !in w.running && Claimable(kind, w.jobs, id, listed) then beats[worker := stamp] else beats
    case Touch(worker) => if worker in w.running then beats[worker := w.now] else beats
    case _ => beats
  }

  // ---- what is stamped -------------------------------------------------

  /** A heartbeat of a worker that owns its row stamps that row with the clock and changes nothing else. */
  lemma TouchStamps(kind: Kind, w: World, worker: string)
    requires worker in w.running && Owns(w, worker)
    ensures var id, after := w.running[worker].id, Apply(kind, w, Touch(worker));
            && after.jobs[id].updatedAt == w.now && after.jobs[id] == w.jobs[id].(updatedAt := w.now)
            && after.jobs - {id} == w.jobs - {id} && after.running == w.running && after.claims == w.claims
  {}

  /** A claim stamps the row with its time, takes it from pending to running, and counts an attempt
      except of a delivery. */
  lemma ClaimStamps(kind: Kind, w: World, worker: string, id: string, listed: Instant, stamp: Instant)
    requires worker !in w.running && id in w.jobs && Due(w.jobs[id], listed)
    ensures var after := Apply(kind, w, Claim(worker, id, listed, stamp));
            && after.jobs[id].status == Running && after.jobs[id].updatedAt == stamp
            && after.jobs[id].attempts == w.jobs[id].attempts + (if kind == HookDelivery then 0 else 1)
            && after.jobs[id].maxAttempts == w.jobs[id].maxAttempts
            && after.jobs - {id} == w.jobs - {id}
            && after.running == w.running[worker := Execution(id, after.jobs[id])]
  {}

  ghost predicate StampedAt(w: World, beats: Beats, a: string)
    requires a in w.running
  {
    a in beats && w.running[a].id in w.jobs && w.jobs[w.running[a].id].updatedAt == beats[a]
  }

  /** Every live worker's row carries the time of its last beat. */
  ghost predicate Stamped(w: World, beats: Beats) {
    forall a :: a in w.running ==> StampedAt(w, beats, a)
  }

  /** The stamp that a step leaves on the row of a worker that stays live. */
  function StampOf(w: World, step: Step, a: string): Instant
    requires a in w.running && w.running[a].id in w.jobs
  {
    if step == Touch(a) then w.now else w.jobs[w.running[a].id].updatedAt
  }

  /** The worker is live before and after the step, owning its row. */
  ghost predicate StaysLive(kind: Kind, w: World, step: Step, a: string) {
    && Exclusive(w) && a in w.running && Owns(w, a)
    && a in Apply(kind, w, step).running && Owns(Apply(kind, w, step), a)
  }

  lemma BeatingRows(kind: Kind, w: World, step: Step, a: string)
    requires StaysLive(kind, w, step, a) && (step.Claim? || step.Touch?)
    ensures var after := Apply(kind, w, step);
            after.running[a] == w.running[a] && after.jobs[w.running[a].id].updatedAt == StampOf(w, step, a)
  {
    if step.Touch? && step.worker in w.running && step.worker != a {
      assert w.running[step.worker].id != w.running[a].id;
    }
  }

  lemma FinishRows(kind: Kind, w: World, step: Step, a: string)
    requires StaysLive(kind, w, step, a) && step.Finish?
    ensures var after := Apply(kind, w, step);
            after.running[a] == w.running[a] && after.jobs[w.running[a].id].updatedAt == StampOf(w, step, a)
  {
    if step.worker in w.running {
      assert Owns(w, step.worker) && w.running[step.worker].id != w.running[a].id;
    }
  }

  lemma QuietRows(kind: Kind, w: World, step: Step, a: string)
    requires StaysLive(kind, w, step, a) && !step.Claim? && !step.Touch? && !step.Finish?
    ensures var after := Apply(kind, w, step);
            after.running[a] == w.running[a] && after.jobs[w.running[a].id].updatedAt == StampOf(w, step, a)
  {}

  /** The row of a worker that stays live is stamped only by that worker. */
  lemma OtherRowsStay(kind: Kind, w: World, step: Step, a: string)
    requires StaysLive(kind, w, step, a)
    ensures var after := Apply(kind, w, step);
            after.running[a] == w.running[a] && after.jobs[w.running[a].id].updatedAt == StampOf(w, step, a)
  {
    if step.Claim? || step.Touch? {
      BeatingRows(kind, w, step, a);
    } else if step.Finish? {
      FinishRows(kind, w, step, a);
    } else {
      QuietRows(kind, w, step, a);
    }
  }

  lemma NewcomerStamped(kind: Kind, w: World, step: Step, beats: Beats, a: string)
    requires a !in w.running && a in Apply(kind, w, step).running
    ensures StampedAt(Apply(kind, w, step), Beaten(kind, w, step, beats), a)
  {}

  /** A step that disrupts nobody keeps that. */
  lemma StepStamped(kind: Kind, w: World, step: Step, beats: Beats)
    requires Exclusive(w) && Stamped(w, beats) && Exclusive(Apply(kind, w, step))
    ensures Stamped(Apply(kind, w, step), Beaten(kind, w, step, beats))
  {
    var after := Apply(kind, w, step);
    forall a | a in after.running ensures StampedAt(after, Beaten(kind, w, step, beats), a) {
      if a in w.running {
        assert Owns(w, a) && Owns(after, a) && StampedAt(w, beats, a);
        OtherRowsStay(kind, w, step, a);
      } else {
        NewcomerStamped(kind, w, step, beats, a);
      }
    }
  }

  // ---- schedules -------------------------------------------------------

  /** Every live worker claimed or touched its job no more than `bound` nanoseconds ago. */
  ghost predicate BeatsKept(w: World, beats: Beats, bound: nat) {
    forall a :: a in w.running ==> a in beats && Nanos(w.now) <= Nanos(beats[a]) + bound
  }

  /** Throughout the run workers beat in time, and recoveries use cutoffs a stale window ago. */
  ghost predicate Scheduled(kind: Kind, w: World, steps: seq<Step>, beats: Beats, bound: nat, staleAfter: nat)
    decreases steps
  {
    && BeatsKept(w, beats, bound)
    && (steps != [] ==>
          && CutoffIsOld(w, steps[0], staleAfter)
          && Scheduled(kind, Apply(kind, w, steps[0]), steps[1..], Beaten(kind, w, steps[0], beats), bound, staleAfter))
  }

  lemma BeatsAreHeartbeats(w: World, beats: Beats, bound: nat)
    requires Stamped(w, beats) && BeatsKept(w, beats, bound)
    ensures HeartbeatsKept(w, bound)
  {
    forall a | a in w.running && w.running[a].id in w.jobs
      ensures Nanos(w.now) <= Nanos(w.jobs[w.running[a].id].updatedAt) + bound
    {
      assert StampedAt(w, beats, a);
    }
  }

  /** Workers that claim or touch at least every `bound`, a second or more inside the stale window, keep
      their stamps fresh and their jobs to themselves, unless a replica is written over while it runs. */
  lemma {:induction false} BeatingExcludes(kind: Kind, w: World, steps: seq<Step>, beats: Beats, bound: nat,
                                           staleAfter: nat)
    requires bound + SECOND <= staleAfter && NeverReplaced(kind, w, steps)
    requires Exclusive(w) && Stamped(w, beats) && Scheduled(kind, w, steps, beats, bound, staleAfter)
    ensures Timed(kind, w, steps, bound, staleAfter) && NeverDisrupted(kind, w, steps)
    ensures Exclusive(Run(kind, w, steps))
    decreases steps
  {
    BeatsAreHeartbeats(w, beats, bound);
    if steps != [] {
      MarginStep(w, steps[0], bound, staleAfter);
      StepExclusive(kind, w, steps[0], bound, staleAfter);
      StepStamped(kind, w, steps[0], beats);
      BeatingExcludes(kind, Apply(kind, w, steps[0]), steps[1..], Beaten(kind, w, steps[0], beats), bound, staleAfter);
    }
  }

  /** From an idle table: with workers that beat in time nothing else is asked of plugin jobs and deliveries. */
  lemma IdleStart(kind: Kind, w: World, steps: seq<Step>, bound: nat, staleAfter: nat)
    requires kind != Replica && w.running == map[] && bound + SECOND <= staleAfter
    requires Scheduled(kind, w, steps, map[], bound, staleAfter)
    ensures Exclusive(Run(kind, w, steps))
  {
    OthersNeverReplaced(kind, w, steps);
    BeatingExcludes(kind, w, steps, map[], bound, staleAfter);
  }

  // ---- the end of an execution -----------------------------------------

  /** What the end of an execution leaves: a success and a replacement are final; a failure waits for the
      given time if it may be retried, and is final otherwise; only a delivery counts its attempt now. */
  lemma EndOfExecution(kind: Kind, w: World, worker: string, verdict: Verdict, next: Instant)
    requires worker in w.running && Owns(w, worker)
    requires kind == Replica ==> w.running[worker].claimed.attempts > 0 && w.running[worker].claimed.maxAttempts > 0
    ensures var id, after := w.running[worker].id, Apply(kind, w, Finish(worker, verdict, next));
            var was, row := w.running[worker].claimed, after.jobs[id];
            var used := was.attempts + if kind == HookDelivery && verdict != Failure(true) then 1 else 0;
            && worker !in after.running && after.jobs - {id} == w.jobs - {id} && row.updatedAt == w.now
            && (verdict == Success ==> row.status == Succeeded)
            && (verdict == Replaced ==> row.status == Status.Superseded)
            && (verdict == Failure(true) ==> row.status == Failed)
            && (verdict == Failure(false) ==>
                  if used < was.maxAttempts then row.status == Pending && row.nextAttemptAt == next
                  else row.status == Failed)
            && (kind != Replica || verdict != Failure(true)
                ==> row.attempts == used && row.maxAttempts == was.maxAttempts)
  {}

  /** A failure that may be retried is due again once its time has passed, and not before it. */
  lemma RetryIsDueThen(kind: Kind, w: World, worker: string, next: Instant, clock: Instant)
    requires kind != Replica && worker in w.running && Owns(w, worker)
    requires var was := w.running[worker].claimed;
             was.attempts + (if kind == HookDelivery then 1 else 0) < was.maxAttempts
    ensures var row := Apply(kind, w, Finish(worker, Failure(false), next)).jobs[w.running[worker].id];
            && (Nanos(next) + SECOND <= Nanos(clock) ==> Due(row, clock))
            && (Nanos(clock) + SECOND <= Nanos(next) ==> !Due(row, clock))
  {
    EndOfExecution(kind, w, worker, Failure(false), next);
    TextOrderSlack(next, clock);
  }

  // ---- the start of a job ----------------------------------------------

  /** A new job waits with all its attempts and is due at once; a known one is left alone. */
  lemma CreatedIsDue(kind: Kind, w: World, id: string, maxAttempts: int)
    requires kind != Replica
    ensures var after := Apply(kind, w, Create(id, maxAttempts));
            && after.jobs - {id} == w.jobs - {id} && after.running == w.running
            && if id in w.jobs then after.jobs == w.jobs
               else id in after.jobs && after.jobs[id].attempts == 0 && after.jobs[id].maxAttempts == maxAttempts
                    && Due(after.jobs[id], w.now)
  {}

  /** A queued replica waits with no attempt used and is due at once; one that a copy has stored is
      finished, and no worker can claim it. */
  lemma RewrittenIs(w: World, id: string, copied: bool, worker: string, listed: Instant, stamp: Instant)
    requires worker !in w.running
    ensures var after := Apply(Replica, w, Rewrite(id, copied));
            && id in after.jobs && after.jobs - {id} == w.jobs - {id} && after.jobs[id].attempts == 0
            && if copied then Over(after, id) && Apply(Replica, after, Claim(worker, id, listed, stamp)) == after
               else Due(after.jobs[id], w.now)
  {}

  /** A crash loses the worker and nothing of the table. */
  lemma CrashLosesWorker(kind: Kind, w: World, worker: string)
    ensures var after := Apply(kind, w, Crash(worker));
            worker !in after.running && after.jobs == w.jobs && after.running == w.running - {worker}
  {}

  /** Only a pending job is claimed, and a delivery only once it is due. */
  lemma ClaimedOnlyWhenDue(kind: Kind, w: World, worker: string, id: string, listed: Instant, stamp: Instant)
    requires id !in w.jobs || w.jobs[id].status != Pending || (kind == HookDelivery && !Due(w.jobs[id], listed))
    ensures Apply(kind, w, Claim(worker, id, listed, stamp)) == w
  {}

  /** A replica that is never recovered is started at most five times before it is queued again. */
  lemma ReplicaStartsAtMostFive(w: World, steps: seq<Step>, bound: nat, staleAfter: nat, id: string)
    requires bound <= staleAfter && NeverDisrupted(Replica, w, steps)
    requires Exclusive(w) && AllBounded(Replica, w) && Timed(Replica, w, steps, bound, staleAfter)
    requires forall i :: 0 <= i < |steps| ==> AllowsAttempts(steps[i])
    ensures var after := Run(Replica, w, steps);
            id in after.jobs && Count(after.recoveries, id) == 0 ==> Count(after.claims, id) <= 5
  {
    RetriesAreBounded(Replica, w, steps, bound, staleAfter);
    assert BoundedAt(Replica, Run(Replica, w, steps), id);
  }

  /** A queued replica has five attempts, before the last of which a failure queues it again. */
  lemma ReplicaHasFiveAttempts(w: World, id: string, worker: string, next: Instant)
    requires worker in w.running && w.running[worker].id == id && id in w.jobs && w.jobs[id].attempts > 0
    requires w.jobs[id].maxAttempts == WrittenReplica(false, w.now).maxAttempts
    ensures var row := Apply(Replica, w, Finish(worker, Failure(false), next)).jobs[id];
            if w.jobs[id].attempts < 5 then row.status == Pending && row.nextAttemptAt == next else row.status == Failed
  {}
}
