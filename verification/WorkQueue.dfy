/** Durable work: job rows that many workers list, claim by compare-and-set, touch while they
    run, finish, and recover when a worker has gone silent. */
module WorkQueue {
  import opened Common
  import opened Timestamps
  import Text

  datatype Status = Pending | Running | Succeeded | Failed | Superseded

  datatype Kind = PluginJob | Replica | HookDelivery

  /** Plugin jobs and replicas count an attempt when claimed, hook deliveries when it ends. */
  predicate CountsOnClaim(kind: Kind) {
    !kind.HookDelivery?
  }

  datatype Job = Job(status: Status, attempts: nat, maxAttempts: int, nextAttemptAt: Instant, updatedAt: Instant)

  type Jobs = map<string, Job>

  predicate Due(j: Job, now: Instant) {
    j.status == Pending && Text.AtMost(Format(j.nextAttemptAt), Format(now))
  }

  function DueIds(jobs: Jobs, now: Instant): set<string> {
    set id | id in jobs && Due(jobs[id], now)
  }

  // ---- single statements -----------------------------------------------

  /** The compare-and-set of a claim; only hook deliveries check the due time again. */
  predicate Claimable(kind: Kind, jobs: Jobs, id: string, listed: Instant) {
    id in jobs && jobs[id].status == Pending && (kind.HookDelivery? ==> Due(jobs[id], listed))
  }

  function Claimed(kind: Kind, j: Job, stamp: Instant): Job {
    j.(status := Running, attempts := j.attempts + if CountsOnClaim(kind) then 1 else 0, updatedAt := stamp)
  }

  function ClaimRow(kind: Kind, jobs: Jobs, id: string, listed: Instant, stamp: Instant): Jobs {
    if Claimable(kind, jobs, id, listed) then jobs[id := Claimed(kind, jobs[id], stamp)] else jobs
  }

  /** Inserting is skipped when the deduplication key is already there. */
  function CreateRow(jobs: Jobs, id: string, maxAttempts: int, now: Instant): Jobs {
    if id in jobs then jobs else jobs[id := Job(Pending, 0, maxAttempts, now, now)]
  }

  function TouchRow(jobs: Jobs, id: string, now: Instant): Jobs {
    if id in jobs && jobs[id].status == Running then jobs[id := jobs[id].(updatedAt := now)] else jobs
  }

  predicate Stale(j: Job, cutoff: Instant) {
    j.status == Running && Text.Less(Format(j.updatedAt), Format(cutoff))
  }

  /** A recovered plugin job is due at once, the others keep their due time. */
  function Recovered(kind: Kind, j: Job, now: Instant): Job {
    j.(status := Pending, updatedAt := now, nextAttemptAt := if kind.PluginJob? then now else j.nextAttemptAt)
  }

  function StaleIds(jobs: Jobs, cutoff: Instant): set<string> {
    set id | id in jobs && Stale(jobs[id], cutoff)
  }

  function RecoverIds(kind: Kind, jobs: Jobs, ids: set<string>, now: Instant): Jobs {
    map id | id in jobs :: if id in ids then Recovered(kind, jobs[id], now) else jobs[id]
  }

  function RecoverRows(kind: Kind, jobs: Jobs, cutoff: Instant, now: Instant): Jobs {
    RecoverIds(kind, jobs, StaleIds(jobs, cutoff), now)
  }

  function UpdateRow(jobs: Jobs, id: string, row: Job): Jobs {
    if id in jobs then jobs[id := row] else jobs
  }

  /** A replica's row is written over whatever was there: queued anew by an overwrite or restore, or
      already stored by a copy. */
  function WrittenReplica(copied: bool, now: Instant): Job {
    Job(if copied then Succeeded else Pending, 0, REPLICA_ATTEMPTS, now, now)
  }

  function PutRow(jobs: Jobs, id: string, row: Job): Jobs {
    jobs[id := row]
  }

  function RemoveRow(jobs: Jobs, id: string): Jobs {
    jobs - {id}
  }

  const REPLICA_ATTEMPTS := 5

  // ---- the end of an execution -----------------------------------------

  datatype Verdict = Success | Replaced | Failure(permanent: bool)

  /** What the end of an execution makes of a row; `next` is the clock plus the backoff. A failed
      delivery without a usable hook is permanent and does not count. */
  function Finished(kind: Kind, job: Job, verdict: Verdict, next: Instant, now: Instant): Job {
    var counted := job.attempts + if kind.HookDelivery? && verdict != Failure(true) then 1 else 0;
    var row := job.(attempts := counted, updatedAt := now);
    match verdict
    case Success => row.(status := Succeeded)
    case Replaced => row.(status := Status.Superseded)
    case Failure(permanent) =>
      if !permanent && counted < job.maxAttempts then row.(status := Pending, nextAttemptAt := next)
      else row.(status := Failed)
  }

  /** A replica is finished from its row as it is now, with one attempt at least; a row that is gone
      counts as a first attempt. A permanent failure is a row of its own. */
  function FinishedReplica(jobs: Jobs, id: string, verdict: Verdict, next: Instant, now: Instant): Job {
    var most := if id !in jobs then REPLICA_ATTEMPTS
        else if jobs[id].maxAttempts > 0 then jobs[id].maxAttempts
        else if verdict.Success? then 1 else REPLICA_ATTEMPTS;
    var attempts := if id in jobs && jobs[id].attempts > 0 then jobs[id].attempts else 1;
    var due := if id in jobs && !verdict.Success? then jobs[id].nextAttemptAt else now;
    if verdict == Failure(true) then Job(Failed, 1, 1, now, now)
    else Finished(Replica, Job(Running, attempts, most, due, now), verdict, next, now)
  }

  /** The table after an execution: plugin jobs and deliveries are written back from the copy claimed,
      if their row is still there; a replica's row is put in any case. */
  function WriteBack(kind: Kind, jobs: Jobs, id: string, claimed: Job, verdict: Verdict, next: Instant,
                     now: Instant): Jobs {
    if kind.Replica? then PutRow(jobs, id, FinishedReplica(jobs, id, verdict, next, now))
    else UpdateRow(jobs, id, Finished(kind, claimed, verdict, next, now))
  }

  // ---- the table -------------------------------------------------------

  datatype RowStep =
    | ClaimStep(id: string, listed: Instant, stamp: Instant)
    | TouchStep(id: string, now: Instant)
    | RecoverStep(cutoff: Instant, now: Instant)
    | UpdateStep(id: string, row: Job)
    | PutStep(id: string, row: Job)
    | RemoveStep(id: string)

  function ApplyRow(kind: Kind, jobs: Jobs, step: RowStep): Jobs {
    match step
    case ClaimStep(id, listed, stamp) => ClaimRow(kind, jobs, id, listed, stamp)
    case TouchStep(id, now) => TouchRow(jobs, id, now)
    case RecoverStep(cutoff, now) => RecoverRows(kind, jobs, cutoff, now)
    case UpdateStep(id, row) => UpdateRow(jobs, id, row)
    case PutStep(id, row) => PutRow(jobs, id, row)
    case RemoveStep(id) => RemoveRow(jobs, id)
  }

  function RunRows(kind: Kind, jobs: Jobs, steps: seq<RowStep>): Jobs
    decreases steps
  {
    if steps == [] then jobs else RunRows(kind, ApplyRow(kind, jobs, steps[0]), steps[1..])
  }

  /** What the caller of a claim learns: the id, and the row if it is still there when read. */
  datatype ClaimedRow = ClaimedRow(id: string, row: Option<Job>)

  /** What others do, before each compare-and-set and before the read that follows a success. */
  datatype Others = Others(before: nat -> seq<RowStep>, after: nat -> seq<RowStep>, stamps: nat -> Instant)

  /** One compare-and-set per listed id, and a read after a success. A replica whose row is gone by
      then is passed over, the others end the loop. */
  function ClaimLoop(kind: Kind, jobs: Jobs, ids: seq<string>, now: Instant, others: Others, turn: nat)
    : (Jobs, Option<ClaimedRow>)
    requires turn <= |ids|
    decreases |ids| - turn
  {
    if turn == |ids| then (jobs, None) else
      var id, seen := ids[turn], RunRows(kind, jobs, others.before(turn));
      if !Claimable(kind, seen, id, now) then ClaimLoop(kind, seen, ids, now, others, turn + 1)
      else
        var read := RunRows(kind, ClaimRow(kind, seen, id, now, others.stamps(turn)), others.after(turn));
        if id in read then (read, Some(ClaimedRow(id, Some(read[id]))))
        else if kind.Replica? then ClaimLoop(kind, read, ids, now, others, turn + 1)
        else (read, Some(ClaimedRow(id, None)))
  }

  /** What others do before each of the compare-and-sets, without a claim in between. */
  function Interleaved(kind: Kind, jobs: Jobs, others: Others, from: nat, turns: nat): Jobs
    decreases turns
  {
    if turns == 0 then jobs
    else Interleaved(kind, RunRows(kind, jobs, others.before(from)), others, from + 1, turns - 1)
  }

  /** The loop ended at turn `last`, having claimed only what it returns. */
  predicate EndedAt(kind: Kind, jobs: Jobs, ids: seq<string>, now: Instant, others: Others, turn: nat, last: nat,
                    after: Jobs, claim: Option<ClaimedRow>)
    requires turn <= last <= |ids|
  {
    if claim.None? then last == |ids| && after == Interleaved(kind, jobs, others, turn, |ids| - turn)
    else last < |ids| && ClaimedAt(kind, Interleaved(kind, jobs, others, turn, last - turn + 1), ids[last], now, others,
                                   last, after, claim.value)
  }

  /** One claim, from pending, and what others did before it was read. */
  predicate ClaimedAt(kind: Kind, seen: Jobs, id: string, now: Instant, others: Others, turn: nat, after: Jobs,
                      claim: ClaimedRow)
  {
    && Claimable(kind, seen, id, now)
    && after == RunRows(kind, ClaimRow(kind, seen, id, now, others.stamps(turn)), others.after(turn))
    && claim == ClaimedRow(id, if id in after then Some(after[id]) else None)
  }

  /** The loop claims at most one plugin job or delivery, from pending, and changes nothing else. */
  lemma {:induction false} ClaimsOnce(kind: Kind, jobs: Jobs, ids: seq<string>, now: Instant, others: Others, turn: nat)
    returns (last: nat)
    requires turn <= |ids| && !kind.Replica?
    ensures turn <= last <= |ids|
    ensures var (after, claim) := ClaimLoop(kind, jobs, ids, now, others, turn);
            EndedAt(kind, jobs, ids, now, others, turn, last, after, claim)
    decreases |ids| - turn
  {
    last := turn;
    if turn < |ids| {
      var seen := RunRows(kind, jobs, others.before(turn));
      if Claimable(kind, seen, ids[turn], now) {
        assert Interleaved(kind, jobs, others, turn, 1) == seen;
      } else {
        last := ClaimsOnce(kind, seen, ids, now, others, turn + 1);
        var (after, claim) := ClaimLoop(kind, seen, ids, now, others, turn + 1);
        EndsLater(kind, jobs, ids, now, others, turn, last, after, claim);
      }
    }
  }

  lemma EndsLater(kind: Kind, jobs: Jobs, ids: seq<string>, now: Instant, others: Others, turn: nat, last: nat,
                  after: Jobs, claim: Option<ClaimedRow>)
    requires turn + 1 <= last <= |ids|
    requires EndedAt(kind, RunRows(kind, jobs, others.before(turn)), ids, now, others, turn + 1, last, after, claim)
    ensures EndedAt(kind, jobs, ids, now, others, turn, last, after, claim)
  {}

  /** A claimed replica is one whose row was still there to read. */
  lemma {:induction false} ClaimedReplicaIsThere(jobs: Jobs, ids: seq<string>, now: Instant, others: Others, turn: nat)
    requires turn <= |ids|
    ensures var (after, claim) := ClaimLoop(Replica, jobs, ids, now, others, turn);
            claim.Some? ==> claim.value.id in after && claim.value.row == Some(after[claim.value.id])
    decreases |ids| - turn
  {
    if turn < |ids| {
      var seen := RunRows(Replica, jobs, others.before(turn));
      if !Claimable(Replica, seen, ids[turn], now) {
        ClaimedReplicaIsThere(seen, ids, now, others, turn + 1);
      } else {
        var read := RunRows(Replica, ClaimRow(Replica, seen, ids[turn], now, others.stamps(turn)), others.after(turn));
        if ids[turn] !in read {
          ClaimedReplicaIsThere(read, ids, now, others, turn + 1);
        }
      }
    }
  }

  /** A replica whose row is gone when it is read does not keep the next listed one from being claimed. */
  lemma GoneReplicaIsPassed(jobs: Jobs, gone: string, next: string, now: Instant, others: Others)
    requires gone in jobs && jobs[gone].status == Pending && gone != next
    requires next in jobs && jobs[next].status == Pending
    requires others.before(0) == [] && others.after(0) == [RemoveStep(gone)]
    requires others.before(1) == [] && others.after(1) == []
    ensures var (after, claim) := ClaimLoop(Replica, jobs, [gone, next], now, others, 0);
            claim == Some(ClaimedRow(next, Some(Claimed(Replica, jobs[next], others.stamps(1))))) && gone !in after
  {
    var claimed := ClaimRow(Replica, jobs, gone, now, others.stamps(0));
    var left := RemoveRow(claimed, gone);
    assert RunRows(Replica, jobs, []) == jobs;
    assert [RemoveStep(gone)][1..] == [];
    assert RunRows(Replica, claimed, others.after(0)) == RunRows(Replica, left, []) == left;
    assert RunRows(Replica, left, []) == left;
    var ids := [gone, next];
    assert ClaimLoop(Replica, jobs, ids, now, others, 0) == ClaimLoop(Replica, left, ids, now, others, 1);
  }

  /** Without others at work the first listed job is claimed, and read as claimed. */
  lemma ClaimsFirst(kind: Kind, jobs: Jobs, ids: seq<string>, now: Instant, others: Others)
    requires ids != [] && ids[0] in jobs && Due(jobs[ids[0]], now)
    requires others.before(0) == [] && others.after(0) == []
    ensures var row := Claimed(kind, jobs[ids[0]], others.stamps(0));
            ClaimLoop(kind, jobs, ids, now, others, 0) == (jobs[ids[0] := row], Some(ClaimedRow(ids[0], Some(row))))
  {
    assert RunRows(kind, jobs, others.before(0)) == jobs;
  }

  const CLAIM_LIST := 5

  class JobTable {
    const kind: Kind
    var jobs: Jobs

    constructor (kind: Kind)
      ensures this.kind == kind && jobs == map[]
    {
      this.kind, jobs := kind, map[];
    }

    method Create(id: string, maxAttempts: int, now: Instant) returns (created: bool)
      modifies this`jobs
      ensures jobs == CreateRow(old(jobs), id, maxAttempts, now)
      ensures created <==> id !in old(jobs)
    {
      created := id !in jobs;
      if created {
        jobs := jobs[id := Job(Pending, 0, maxAttempts, now, now)];
      }
    }

    method TryClaim(id: string, listed: Instant, stamp: Instant) returns (changed: bool)
      modifies this`jobs
      ensures jobs == ClaimRow(kind, old(jobs), id, listed, stamp)
      ensures changed <==> Claimable(kind, old(jobs), id, listed)
    {
      changed := id in jobs && jobs[id].status == Pending;
      if kind.HookDelivery? {
        changed := changed && Text.AtMost(Format(jobs[id].nextAttemptAt), Format(listed));
      }
      if changed {
        var row := jobs[id].(status := Running, updatedAt := stamp);
        if CountsOnClaim(kind) {
          row := row.(attempts := row.attempts + 1);
        }
        jobs := jobs[id := row];
      }
    }

    method Touch(id: string, now: Instant) returns (r: Result<()>)
      modifies this`jobs
      ensures jobs == TouchRow(old(jobs), id, now)
      ensures r == if id in old(jobs) && old(jobs)[id].status == Running then Ok(()) else Err(NotFound)
    {
      if id !in jobs || jobs[id].status != Running {
        return Err(NotFound);
      }
      jobs := jobs[id := jobs[id].(updatedAt := now)];
      return Ok(());
    }

    method RecoverStale(cutoff: Instant, now: Instant) returns (recovered: nat)
      modifies this`jobs
      ensures jobs == RecoverRows(kind, old(jobs), cutoff, now)
      ensures recovered == |StaleIds(old(jobs), cutoff)|
    {
      var stale := StaleIds(jobs, cutoff);
      recovered := |stale|;
      RecoverEach(stale, now);
    }

    method RecoverEach(ids: set<string>, now: Instant)
      requires ids <= jobs.Keys
      modifies this`jobs
      ensures jobs == RecoverIds(kind, old(jobs), ids, now)
    {
      var left := ids;
      while left != {}
        invariant left <= ids
        invariant jobs == RecoverIds(kind, old(jobs), ids - left, now)
      {
        var id :| id in left;
        jobs := jobs[id := Recovered(kind, jobs[id], now)];
        left := left - {id};
      }
    }

    method Update(id: string, row: Job)
      modifies this`jobs
      ensures jobs == UpdateRow(old(jobs), id, row)
    {
      if id in jobs {
        jobs := jobs[id := row];
      }
    }

    predicate DueNoLater(a: string, b: string)
      requires a in jobs && b in jobs
      reads this
    {
      Text.AtMost(Format(jobs[a].nextAttemptAt), Format(jobs[b].nextAttemptAt))
    }

    /** `ids` are the first of `due` by due text, as many as the limit allows. */
    ghost predicate FirstOf(ids: seq<string>, due: set<string>)
      requires due <= jobs.Keys
      reads this
    {
      && |ids| <= CLAIM_LIST
      && (forall i :: 0 <= i < |ids| ==> ids[i] in due)
      && (forall i, j :: 0 <= i < j < |ids| ==> ids[i] != ids[j] && DueNoLater(ids[i], ids[j]))
      && (forall i, id :: 0 <= i < |ids| && id in due && id !in ids ==> DueNoLater(ids[i], id))
      && ((exists id :: id in due && id !in ids) ==> |ids| == CLAIM_LIST)
    }

    /** The due jobs, earliest due text first, at most five. */
    method ListClaimable(now: Instant) returns (ids: seq<string>)
      ensures FirstOf(ids, DueIds(jobs, now))
      ensures |ids| <= 5 && (|ids| < 5 ==> forall id :: id in DueIds(jobs, now) ==> id in ids)
    {
      ids := ListFirst(DueIds(jobs, now));
    }

    /** `ids` are listed so far, `left` are the rest, none of which comes before a listed one. */
    ghost predicate Listed(ids: seq<string>, left: set<string>, due: set<string>)
      requires due <= jobs.Keys
      reads this
    {
      && |ids| <= CLAIM_LIST && left <= due
      && (forall id :: id in due ==> (id in left <==> id !in ids))
      && (forall i :: 0 <= i < |ids| ==> ids[i] in due)
      && (forall i, j :: 0 <= i < j < |ids| ==> ids[i] != ids[j] && DueNoLater(ids[i], ids[j]))
      && (forall i, id :: 0 <= i < |ids| && id in left ==> DueNoLater(ids[i], id))
    }

    lemma ListedGrows(ids: seq<string>, left: set<string>, due: set<string>, first: string)
      requires due <= jobs.Keys && Listed(ids, left, due) && |ids| < CLAIM_LIST && first in left
      requires forall id :: id in left ==> DueNoLater(first, id)
      ensures Listed(ids + [first], left - {first}, due)
    {
      forall id | id in due ensures id in left - {first} <==> id !in ids + [first] {
        assert id in ids + [first] <==> id in ids || id == first;
      }
    }

    method ListFirst(due: set<string>) returns (ids: seq<string>)
      requires due <= jobs.Keys
      ensures FirstOf(ids, due)
    {
      ids := [];
      var left := due;
      while left != {} && |ids| < CLAIM_LIST
        invariant Listed(ids, left, due)
        decreases left
      {
        var first := EarliestDue(left);
        ListedGrows(ids, left, due, first);
        ids := ids + [first];
        left := left - {first};
      }
    }

    method EarliestDue(ids: set<string>) returns (first: string)
      requires ids != {} && ids <= jobs.Keys
      ensures first in ids
      ensures forall id :: id in ids ==> DueNoLater(first, id)
    {
      first :| first in ids;
      var left := ids - {first};
      while left != {}
        invariant first in ids && left <= ids
        invariant forall id :: id in ids - left ==> DueNoLater(first, id)
      {
        var next :| next in left;
        var a, b := Format(jobs[first].nextAttemptAt), Format(jobs[next].nextAttemptAt);
        Text.Trichotomy(a, b);
        if Text.Less(b, a) {
          forall id | id in ids - left ensures Text.AtMost(b, Format(jobs[id].nextAttemptAt)) {
            Text.AtMostTransitive(b, a, Format(jobs[id].nextAttemptAt));
          }
          first := next;
        }
        left := left - {next};
      }
    }

    method Put(id: string, row: Job)
      modifies this`jobs
      ensures jobs == PutRow(old(jobs), id, row)
    {
      jobs := jobs[id := row];
    }

    method Remove(id: string)
      modifies this`jobs
      ensures jobs == RemoveRow(old(jobs), id)
    {
      jobs := jobs - {id};
    }

    /** List, then compare-and-set and read; others act in between. */
    method ClaimNext(now: Instant, others: Others) returns (ids: seq<string>, claim: Option<ClaimedRow>)
      modifies this`jobs
      ensures old(FirstOf(ids, DueIds(jobs, now)))
      ensures (jobs, claim) == ClaimLoop(kind, old(jobs), ids, now, others, 0)
    {
      ids := ListClaimable(now);
      claim := ClaimFirst(ids, now, others);
    }

    method ClaimFirst(ids: seq<string>, now: Instant, others: Others) returns (claim: Option<ClaimedRow>)
      modifies this`jobs
      ensures (jobs, claim) == ClaimLoop(kind, old(jobs), ids, now, others, 0)
    {
      var turn := 0;
      while turn < |ids|
        invariant turn <= |ids|
        invariant ClaimLoop(kind, jobs, ids, now, others, turn) == ClaimLoop(kind, old(jobs), ids, now, others, 0)
      {
        var id := ids[turn];
        Interfere(others.before(turn));
        var changed := TryClaim(id, now, others.stamps(turn));
        if changed {
          Interfere(others.after(turn));
          if id in jobs {
            return Some(ClaimedRow(id, Some(jobs[id])));
          }
          if !kind.Replica? {
            return Some(ClaimedRow(id, None));
          }
        }
        turn := turn + 1;
      }
      return None;
    }

    method Interfere(steps: seq<RowStep>)
      modifies this`jobs
      ensures jobs == RunRows(kind, old(jobs), steps)
      decreases steps
    {
      if steps != [] {
        match steps[0] {
          case ClaimStep(id, listed, stamp) => var _ := TryClaim(id, listed, stamp);
          case TouchStep(id, now) => var _ := Touch(id, now);
          case RecoverStep(cutoff, now) => var _ := RecoverStale(cutoff, now);
          case UpdateStep(id, row) => Update(id, row);
          case PutStep(id, row) => Put(id, row);
          case RemoveStep(id) => Remove(id);
        }
        Interfere(steps[1..]);
      }
    }
  }
}
