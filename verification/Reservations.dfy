/** What one reservation and one provider live through: a grant holds until it is used or expires, the
    usage counter is the sum of what was charged, and an outage keeps new reservations away. */
module Reservations {
  import opened Common
  import opened Timestamps
  import opened Ledger
  import Sums
  import Text

  // ---- a granted reservation -------------------------------------------

  /** A grant adds one row, with the provider, the bytes and the end asked for, and reserves the bytes
      at that provider; nothing else is there that was not before. */
  lemma GrantLeaves(db: Db, r: Request)
    requires Granted(db, r)
    ensures var after := Reserve(db, r);
            && r.id !in db.reservations && Live(after, r.id) && after.reservations - {r.id} == db.reservations
            && after.reservations[r.id].provider == r.provider && after.reservations[r.id].bytes == r.bytes
            && after.reservations[r.id].expiresAt == r.expiresAt
            && after.accounts[r.provider].reserved == db.accounts[r.provider].reserved + r.bytes
            && after.accounts[r.provider].used == db.accounts[r.provider].used
  {}

  predicate NeverMentions(steps: seq<Step>, id: string) {
    forall i :: 0 <= i < |steps| ==> !Mentions(steps[i], id)
  }

  /** The cutoff of a recovery has reached the end of the reservation, as texts. */
  predicate Reaches(step: Step, expiresAt: string) {
    step.RecoverStep? && Text.AtMost(expiresAt, step.cutoff)
  }

  predicate SomeReaches(steps: seq<Step>, expiresAt: string) {
    exists i :: 0 <= i < |steps| && Reaches(steps[i], expiresAt)
  }

  lemma StepKeepsRow(db: Db, step: Step, id: string)
    requires Live(db, id) && !Mentions(step, id)
    ensures var after := Apply(db, step);
            if Reaches(step, db.reservations[id].expiresAt) then id !in after.reservations
            else Live(after, id) && after.reservations[id] == db.reservations[id]
  {}

  /** Whatever others do, a reservation is gone afterwards if and only if a recovery has reached its end;
      otherwise its row is as it was. */
  lemma {:induction false} LiveExactly(db: Db, steps: seq<Step>, id: string)
    requires Live(db, id) && NeverMentions(steps, id)
    ensures Live(Run(db, steps), id) <==> !SomeReaches(steps, db.reservations[id].expiresAt)
    ensures Live(Run(db, steps), id) ==> Run(db, steps).reservations[id] == db.reservations[id]
    decreases steps
  {
    if steps != [] {
      var end, after := db.reservations[id].expiresAt, Apply(db, steps[0]);
      StepKeepsRow(db, steps[0], id);
      assert forall i :: 1 <= i < |steps| ==> steps[1..][i - 1] == steps[i];
      if Reaches(steps[0], end) {
        NeverBack(after, steps[1..], id);
      } else {
        LiveExactly(after, steps[1..], id);
        assert SomeReaches(steps, end) <==> SomeReaches(steps[1..], end) by {
          if i :| 0 <= i < |steps| && Reaches(steps[i], end) {
            assert Reaches(steps[1..][i - 1], end);
          }
        }
      }
    }
  }

  lemma NeverBack(db: Db, steps: seq<Step>, id: string)
    requires id !in db.reservations && NeverMentions(steps, id)
    ensures id !in Run(db, steps).reservations
  {
    DeadStaysDead(db, steps, id);
  }

  /** Every recovery computed its cutoff a second or more before this end. */
  ghost predicate CutsBefore(steps: seq<Step>, end: Instant) {
    forall i :: 0 <= i < |steps| && steps[i].RecoverStep? ==> CutBefore(steps[i].cutoff, end)
  }

  ghost predicate CutBefore(cutoff: string, end: Instant) {
    exists t: Instant :: cutoff == Format(t) && Nanos(t) + SECOND <= Nanos(end)
  }

  /** From grant to commit: through anything others do before its end, a granted reservation stays live
      and its commit moves the stored bytes to the provider's counters, ends it, and ends an outage. */
  lemma GrantedCommits(db: Db, r: Request, end: Instant, steps: seq<Step>, actual: nat)
    requires Granted(db, r) && r.expiresAt == Format(end) && NeverMentions(steps, r.id) && CutsBefore(steps, end)
    ensures var later := Run(Reserve(db, r), steps);
            && Live(later, r.id)
            && later.reservations[r.id] == Reservation(r.provider, r.bytes, r.expiresAt)
            && var before, after := later.accounts[r.provider], Commit(later, r.id, actual).accounts[r.provider];
               && after.used == before.used + actual && after.monthly == before.monthly + actual
               && after.period == before.period && r.id !in Commit(later, r.id, actual).reservations
               && forall now :: Available(after, now)
  {
    GrantLeaves(db, r);
    forall i | 0 <= i < |steps| ensures !Reaches(steps[i], r.expiresAt) {
      if steps[i].RecoverStep? {
        assert CutBefore(steps[i].cutoff, end);
        var t: Instant :| steps[i].cutoff == Format(t) && Nanos(t) + SECOND <= Nanos(end);
        TextOrderSlack(t, end);
        Text.Trichotomy(Format(t), Format(end));
      }
    }
    LiveExactly(Reserve(db, r), steps, r.id);
  }

  // ---- the usage counter -----------------------------------------------

  /** What a step adds to the usage counter of p. */
  function Charge(db: Db, step: Step, p: string): int {
    match step
    case CommitStep(id, actual) =>
      if actual >= 0 && Live(db, id) && db.reservations[id].provider == p then actual else 0
    case UsageStep(q, delta) => if q == p then delta else 0
    case _ => 0
  }

  ghost function TotalCharge(db: Db, steps: seq<Step>, p: string): int
    decreases steps
  {
    if steps == [] then 0 else Charge(db, steps[0], p) + TotalCharge(Apply(db, steps[0]), steps[1..], p)
  }

  /** The counter is never asked to go below zero, and not reconciled with the provider. */
  ghost predicate NeverClamped(db: Db, steps: seq<Step>, p: string)
    requires p in db.accounts
    decreases steps
  {
    steps == [] ||
    (var after := Apply(db, steps[0]);
     && db.accounts[p].used + Charge(db, steps[0], p) >= 0 && !(steps[0].ReconcileStep? && steps[0].provider == p)
     && p in after.accounts && NeverClamped(after, steps[1..], p))
  }

  /** Over every interleaving the usage counter is exactly what it was plus what was charged. */
  lemma {:induction false} UsedIsSum(db: Db, steps: seq<Step>, p: string)
    requires p in db.accounts && NeverClamped(db, steps, p)
    ensures p in Run(db, steps).accounts
    ensures Run(db, steps).accounts[p].used == db.accounts[p].used + TotalCharge(db, steps, p)
    decreases steps
  {
    if steps != [] {
      UsedIsSum(Apply(db, steps[0]), steps[1..], p);
    }
  }

  /** The provider a step is about. */
  predicate About(db: Db, step: Step, p: string) {
    match step
    case ReserveStep(r) => r.provider == p
    case CommitStep(id, _) => id in db.reservations && db.reservations[id].provider == p
    case ReleaseStep(id) => id in db.reservations && db.reservations[id].provider == p
    case RecoverStep(cutoff) => exists id :: id in Expired(db, cutoff) && db.reservations[id].provider == p
    case UsageStep(q, _) => q == p
    case ReconcileStep(q, _) => q == p
    case RemoteQuotaStep(q, _, _) => q == p
    case AvailabilityStep(q, _, _) => q == p
  }

  /** A step leaves every other provider's account as it was. */
  lemma StepIsLocal(db: Db, step: Step, p: string)
    requires Conserved(db) && p in db.accounts && !About(db, step, p)
    ensures p in Apply(db, step).accounts && Apply(db, step).accounts[p] == db.accounts[p]
  {
    if step.RecoverStep? {
      assert HeldIn(db.reservations, Expired(db, step.cutoff), p) == map[];
      Sums.TotalNonNegative(Held(db.reservations, p));
    }
  }

  // ---- the guard -------------------------------------------------------

  /** The bytes fit a limit with the margin kept free; nothing fits a limit the margin uses up, unless
      there is nothing at all. */
  predicate Fits(total: int, margin: int, limit: int) {
    limit <= 0 || total <= 0 || total + margin <= limit
  }

  /** The guard in plain numbers, with the uploads of an older month not counted. */
  lemma GrantedExactly(db: Db, r: Request)
    requires r.provider in db.accounts && r.provider != "" && r.id != "" && r.id !in db.reservations && r.bytes >= 0
    requires r.margin >= 0 && r.limit >= 0
    ensures var a := db.accounts[r.provider];
            var uploads := if a.period == r.period then a.monthly else 0;
            Granted(db, r) <==>
            && a.enabled && Available(a, r.now)
            && Fits(a.used + a.reserved + r.bytes, r.margin, a.capacity)
            && Fits(a.remoteUsed + a.reserved + r.bytes, r.margin, a.remoteCapacity)
            && (r.limit == 0 || uploads + a.reserved + r.bytes <= r.limit)
  {}

  /** A measured remote quota counts at once. */
  lemma RemoteQuotaBinds(db: Db, r: Request, capacity: int, used: int)
    requires capacity > 0 && r.margin >= 0 && Granted(SetRemoteQuota(db, r.provider, capacity, used), r)
    ensures Fits(Max(used, 0) + db.accounts[r.provider].reserved + r.bytes, r.margin, capacity)
  {}

  // ---- outages ---------------------------------------------------------

  predicate Temporary(status: string) {
    status == "throttled" || status == "unavailable"
  }

  /** Once an outage is recorded nothing is reserved at the provider, except after the end of a
      temporary one. */
  lemma OutageRefuses(db: Db, r: Request, status: string, until: string)
    requires r.provider in db.accounts && status != ""
    ensures Granted(SetAvailability(db, r.provider, status, until), r)
        ==> Temporary(status) && until != "" && Text.AtMost(until, r.now)
  {}

  /** After the end of a temporary outage, or a reconciliation that finds the quota freed, the provider
      takes what it would have taken without the outage. */
  lemma OutageEnds(db: Db, r: Request, status: string, until: string)
    requires r.provider in db.accounts && Temporary(status) && until != "" && Text.AtMost(until, r.now)
    requires db.accounts[r.provider].status == ""
    ensures Granted(SetAvailability(db, r.provider, status, until), r) <==> Granted(db, r)
  {}

  lemma ReconciliationFrees(db: Db, p: string, used: nat, until: string)
    requires p in db.accounts
    ensures var full := SetAvailability(db, p, "quota", until);
            var after := SetUsage(full, p, used).accounts[p];
            after.used == used && forall now :: Available(after, now)
    ensures forall status :: status != "quota" ==>
              SetUsage(SetAvailability(db, p, status, until), p, used).accounts[p].status == status
  {}
}
