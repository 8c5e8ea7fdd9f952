/** The capacity ledger: byte reservations that many instances make, commit, release and
    recover against shared provider rows. Each transaction is one atomic step. */
module Ledger {
  import opened Common
  import Sums
  import Text

  datatype Account = Account(
    capacity: int, used: int, remoteCapacity: int, remoteUsed: int,
    reserved: int, monthly: int, period: string,
    enabled: bool, status: string, until: string)

  datatype Reservation = Reservation(provider: string, bytes: int, expiresAt: string)

  datatype Db = Db(accounts: map<string, Account>, reservations: map<string, Reservation>)

  datatype Request = Request(
    id: string, provider: string, bytes: int, margin: int, limit: int,
    period: string, now: string, expiresAt: string)

  // ---- one transaction as a function of the tables ---------------------

  /** The account as a new month sees it. */
  function Rolled(a: Account, period: string): Account {
    if a.period == period then a else a.(monthly := 0, period := period)
  }

  /** An outage may be over only for the two temporary states, at a recorded time. */
  predicate Available(a: Account, now: string) {
    a.status == ""
    || ((a.status == "throttled" || a.status == "unavailable") && a.until != "" && Text.AtMost(a.until, now))
  }

  function Ceiling(capacity: int, margin: int): int {
    if capacity > margin then capacity - margin else 0
  }

  predicate Admits(a: Account, bytes: int, margin: int, limit: int, now: string) {
    && a.enabled
    && Available(a, now)
    && (a.capacity <= 0 || a.used + a.reserved + bytes <= Ceiling(a.capacity, margin))
    && (a.remoteCapacity <= 0 || a.remoteUsed + a.reserved + bytes <= Ceiling(a.remoteCapacity, margin))
    && (limit <= 0 || a.monthly + a.reserved + bytes <= limit)
  }

  predicate Granted(db: Db, r: Request) {
    && r.id != "" && r.provider != "" && r.bytes >= 0
    && r.provider in db.accounts
    && Admits(Rolled(db.accounts[r.provider], r.period), r.bytes, Max(r.margin, 0), Max(r.limit, 0), r.now)
    && r.id !in db.reservations
  }

  function Reserve(db: Db, r: Request): Db {
    if !Granted(db, r) then db else
      var a := Rolled(db.accounts[r.provider], r.period);
      Db(db.accounts[r.provider := a.(reserved := a.reserved + r.bytes)],
         db.reservations[r.id := Reservation(r.provider, r.bytes, r.expiresAt)])
  }

  predicate Live(db: Db, id: string) {
    id in db.reservations && db.reservations[id].provider in db.accounts
  }

  /** What is left of a counter after a reservation goes, never below zero. */
  function Without(reserved: int, bytes: int): int {
    if reserved < bytes then 0 else reserved - bytes
  }

  function Commit(db: Db, id: string, actual: int): Db {
    if actual < 0 || !Live(db, id) then db else
      var r := db.reservations[id];
      var a := db.accounts[r.provider];
      Db(db.accounts[r.provider := a.(reserved := Without(a.reserved, r.bytes), used := a.used + actual,
                                      monthly := a.monthly + actual, status := "", until := "")],
         db.reservations - {id})
  }

  function Release(db: Db, id: string): Db {
    if !Live(db, id) then db else
      var r := db.reservations[id];
      var a := db.accounts[r.provider];
      Db(db.accounts[r.provider := a.(reserved := Without(a.reserved, r.bytes))], db.reservations - {id})
  }

  function Expired(db: Db, cutoff: string): set<string> {
    set id | id in db.reservations && Text.AtMost(db.reservations[id].expiresAt, cutoff)
  }

  /** The byte column of one provider's reservations. */
  function Held(reservations: map<string, Reservation>, provider: string): map<string, int> {
    map id | id in reservations && reservations[id].provider == provider :: reservations[id].bytes
  }

  function HeldIn(reservations: map<string, Reservation>, ids: set<string>, provider: string): map<string, int> {
    map id | id in reservations && id in ids && reservations[id].provider == provider :: reservations[id].bytes
  }

  /** A provider's sum over some rows, and one row more. */
  ghost function WithRow(reservations: map<string, Reservation>, done: set<string>, id: string, p: string): int
    requires id in reservations
  {
    Sums.Total(HeldIn(reservations, done, p)) + if p == reservations[id].provider then reservations[id].bytes else 0
  }

  lemma HeldInGrows(reservations: map<string, Reservation>, done: set<string>, id: string, p: string)
    requires id in reservations && id !in done
    ensures Sums.Total(HeldIn(reservations, done + {id}, p)) == WithRow(reservations, done, id, p)
  {
    var before, after := HeldIn(reservations, done, p), HeldIn(reservations, done + {id}, p);
    if p == reservations[id].provider {
      Sums.TotalInsert(before, id, reservations[id].bytes);
      assert after == before[id := reservations[id].bytes];
    } else {
      assert after == before;
    }
  }

  ghost function Recover(db: Db, cutoff: string): Db {
    var expired := Expired(db, cutoff);
    Db(map p | p in db.accounts ::
         db.accounts[p].(reserved := Without(db.accounts[p].reserved, Sums.Total(HeldIn(db.reservations, expired, p)))),
       db.reservations - expired)
  }

  function AddUsage(db: Db, provider: string, delta: int): Db {
    if provider !in db.accounts then db else
      var a := db.accounts[provider];
      db.(accounts := db.accounts[provider := a.(used := Max(a.used + delta, 0))])
  }

  function SetUsage(db: Db, provider: string, used: int): Db {
    if provider !in db.accounts then db else
      var a := db.accounts[provider];
      var cleared := if a.status == "quota" then "" else a.status;
      db.(accounts := db.accounts[provider := a.(used := Max(used, 0), status := cleared)])
  }

  function SetAvailability(db: Db, provider: string, status: string, until: string): Db {
    if provider !in db.accounts then db else
      db.(accounts := db.accounts[provider := db.accounts[provider].(status := status, until := until)])
  }

  function SetRemoteQuota(db: Db, provider: string, capacity: int, used: int): Db {
    if provider !in db.accounts then db else
      var a := db.accounts[provider];
      db.(accounts := db.accounts[provider := a.(remoteCapacity := Max(capacity, 0), remoteUsed := Max(used, 0))])
  }

  // ---- the store -------------------------------------------------------

  class LedgerStore {
    var accounts: map<string, Account>
    var reservations: map<string, Reservation>

    ghost function State(): Db
      reads this
    {
      Db(accounts, reservations)
    }

    constructor (accounts: map<string, Account>)
      ensures State() == Db(accounts, map[])
    {
      this.accounts, this.reservations := accounts, map[];
    }

    /** The transaction's two updates and its insert; every early return rolls back. */
    method ReserveProviderCapacity(r: Request) returns (result: Result<bool>)
      modifies this
      ensures State() == Reserve(old(State()), r)
      ensures result == Ok(true) <==> old(Granted(State(), r))
      ensures result == Err(InvalidArgument) <==> r.id == "" || r.provider == "" || r.bytes < 0
      ensures result.Err? && result.error != InvalidArgument ==> result.error == Conflict && r.id in old(reservations)
    {
      if r.id == "" || r.provider == "" || r.bytes < 0 {
        return Err(InvalidArgument);
      }
      var margin, limit := if r.margin < 0 then 0 else r.margin, if r.limit < 0 then 0 else r.limit;
      var begun := accounts;
      if r.provider in accounts && accounts[r.provider].period != r.period {
        accounts := accounts[r.provider := accounts[r.provider].(monthly := 0, period := r.period)];
      }
      if r.provider !in accounts || !Admits(accounts[r.provider], r.bytes, margin, limit, r.now) {
        accounts := begun;
        return Ok(false);
      }
      var a := accounts[r.provider];
      accounts := accounts[r.provider := a.(reserved := a.reserved + r.bytes, period := r.period)];
      if r.id in reservations {
        accounts := begun;
        return Err(Conflict);
      }
      reservations := reservations[r.id := Reservation(r.provider, r.bytes, r.expiresAt)];
      return Ok(true);
    }

    method CommitProviderReservation(id: string, actual: int) returns (result: Result<()>)
      modifies this
      ensures State() == Commit(old(State()), id, actual)
      ensures result.Ok? <==> actual >= 0 && old(Live(State(), id))
      ensures result.Err? ==> result.error == if actual < 0 then InvalidArgument else NotFound
    {
      if actual < 0 {
        return Err(InvalidArgument);
      }
      if id !in reservations || reservations[id].provider !in accounts {
        return Err(NotFound);
      }
      var p, bytes := reservations[id].provider, reservations[id].bytes;
      var a := accounts[p];
      a := a.(reserved := if a.reserved < bytes then 0 else a.reserved - bytes);
      a := a.(used := a.used + actual, monthly := a.monthly + actual, status := "", until := "");
      accounts := accounts[p := a];
      reservations := reservations - {id};
      return Ok(());
    }

    method ReleaseProviderReservation(id: string)
      modifies this
      ensures State() == Release(old(State()), id)
    {
      if id !in reservations || reservations[id].provider !in accounts {
        return;
      }
      var p, bytes := reservations[id].provider, reservations[id].bytes;
      var a := accounts[p];
      accounts := accounts[p := a.(reserved := if a.reserved < bytes then 0 else a.reserved - bytes)];
      reservations := reservations - {id};
    }

    /** The grouped sum of the expired rows, taken row by row. */
    method SumExpired(expired: set<string>) returns (sums: map<string, int>)
      requires expired <= reservations.Keys
      ensures forall p :: Due(sums, p) == Sums.Total(HeldIn(reservations, expired, p))
    {
      sums := map[];
      var left := expired;
      forall p ensures HeldIn(reservations, {}, p) == map[] {}
      assert expired - left == {};
      while left != {}
        invariant left <= expired
        invariant forall p :: Due(sums, p) == Sums.Total(HeldIn(reservations, expired - left, p))
      {
        var id :| id in left;
        var row := reservations[id];
        ghost var done := expired - left;
        forall p ensures Sums.Total(HeldIn(reservations, done + {id}, p)) == WithRow(reservations, done, id, p) {
          HeldInGrows(reservations, done, id, p);
        }
        assert expired - (left - {id}) == done + {id};
        sums := sums[row.provider := Due(sums, row.provider) + row.bytes];
        left := left - {id};
      }
      assert expired - left == expired;
    }

    method RecoverExpiredProviderReservations(cutoff: string) returns (recovered: nat)
      modifies this
      ensures State() == Recover(old(State()), cutoff)
      ensures recovered == |old(Expired(State(), cutoff))|
    {
      var expired := set id | id in reservations && Text.AtMost(reservations[id].expiresAt, cutoff);
      var sums := SumExpired(expired);
      accounts := TakeOff(accounts, sums);
      reservations := reservations - expired;
      recovered := |expired|;
    }

    /** The update of every provider that has expired reservations. */
    function TakeOff(accounts: map<string, Account>, sums: map<string, int>): (after: map<string, Account>)
      ensures after.Keys == accounts.Keys
      ensures forall p :: p in after ==>
                after[p] == accounts[p].(reserved := Without(accounts[p].reserved, Due(sums, p)))
    {
      map p | p in accounts :: accounts[p].(reserved := Without(accounts[p].reserved, Due(sums, p)))
    }

    function Due(sums: map<string, int>, p: string): int {
      if p in sums then sums[p] else 0
    }

    method AddProviderUsage(provider: string, delta: int)
      modifies this
      ensures State() == AddUsage(old(State()), provider, delta)
    {
      if provider in accounts {
        var a := accounts[provider];
        accounts := accounts[provider := a.(used := if a.used + delta < 0 then 0 else a.used + delta)];
      }
    }

    method SetProviderUsage(provider: string, used: int)
      modifies this
      ensures State() == SetUsage(old(State()), provider, used)
    {
      var clamped := if used < 0 then 0 else used;
      if provider in accounts {
        var a := accounts[provider];
        accounts := accounts[provider := a.(used := clamped, status := if a.status == "quota" then "" else a.status)];
      }
    }

    method SetProviderRemoteQuota(provider: string, capacity: int, used: int)
      modifies this
      ensures State() == SetRemoteQuota(old(State()), provider, capacity, used)
    {
      var c, u := if capacity < 0 then 0 else capacity, if used < 0 then 0 else used;
      if provider in accounts {
        accounts := accounts[provider := accounts[provider].(remoteCapacity := c, remoteUsed := u)];
      }
    }

    method MarkProviderUnavailable(provider: string, status: string, until: string)
      modifies this
      ensures State() == SetAvailability(old(State()), provider, status, until)
    {
      if provider in accounts {
        accounts := accounts[provider := accounts[provider].(status := status, until := until)];
      }
    }
  }

  // ---- runs ------------------------------------------------------------

  /** One transaction of some instance; a run is any interleaving of them. */
  datatype Step =
    | ReserveStep(request: Request)
    | CommitStep(id: string, actual: int)
    | ReleaseStep(id: string)
    | RecoverStep(cutoff: string)
    | UsageStep(provider: string, delta: int)
    | ReconcileStep(provider: string, used: int)
    | RemoteQuotaStep(provider: string, capacity: int, used: int)
    | AvailabilityStep(provider: string, status: string, until: string)

  ghost function Apply(db: Db, step: Step): Db {
    match step
    case ReserveStep(r) => Reserve(db, r)
    case CommitStep(id, actual) => Commit(db, id, actual)
    case ReleaseStep(id) => Release(db, id)
    case RecoverStep(cutoff) => Recover(db, cutoff)
    case UsageStep(p, delta) => AddUsage(db, p, delta)
    case ReconcileStep(p, used) => SetUsage(db, p, used)
    case RemoteQuotaStep(p, capacity, used) => SetRemoteQuota(db, p, capacity, used)
    case AvailabilityStep(p, status, until) => SetAvailability(db, p, status, until)
  }

  ghost function Run(db: Db, steps: seq<Step>): Db
    decreases steps
  {
    if steps == [] then db else Run(Apply(db, steps[0]), steps[1..])
  }

  /** The step is about this reservation id. */
  predicate Mentions(step: Step, id: string) {
    match step
    case ReserveStep(r) => r.id == id
    case CommitStep(i, _) => i == id
    case ReleaseStep(i) => i == id
    case _ => false
  }

  // ---- conservation of reserved bytes ----------------------------------

  /** Each provider's counter is the sum of its reservation rows. */
  ghost predicate Conserved(db: Db) {
    && (forall p :: p in db.accounts ==> db.accounts[p].reserved == Sums.Total(Held(db.reservations, p)))
    && (forall id :: id in db.reservations ==> (db.reservations[id].bytes >= 0
        && db.reservations[id].provider in db.accounts))
  }

  lemma HeldUpdate(db: Db, id: string, r: Reservation, p: string)
    requires id !in db.reservations
    ensures Sums.Total(Held(db.reservations[id := r], p))
         == Sums.Total(Held(db.reservations, p)) + (if p == r.provider then r.bytes else 0)
  {
    var before, after := Held(db.reservations, p), Held(db.reservations[id := r], p);
    if p == r.provider {
      Sums.TotalInsert(before, id, r.bytes);
      assert after == before[id := r.bytes];
    } else {
      assert after == before;
    }
  }

  lemma HeldDrop(db: Db, id: string, p: string)
    requires id in db.reservations
    ensures Sums.Total(Held(db.reservations - {id}, p))
         == Sums.Total(Held(db.reservations, p))
            - (if p == db.reservations[id].provider then db.reservations[id].bytes else 0)
  {
    var rest := Db(db.accounts, db.reservations - {id});
    HeldUpdate(rest, id, db.reservations[id], p);
    assert rest.reservations[id := db.reservations[id]] == db.reservations;
  }

  lemma HeldRecover(db: Db, expired: set<string>, p: string)
    ensures Sums.Total(Held(db.reservations - expired, p))
         == Sums.Total(Held(db.reservations, p)) - Sums.Total(HeldIn(db.reservations, expired, p))
  {
    var all := Held(db.reservations, p);
    Sums.TotalSplit(all, expired);
    assert all - expired == Held(db.reservations - expired, p);
    assert HeldIn(db.reservations, expired, p) == map id | id in all && id in expired :: all[id];
  }

  /** No counter is ever smaller than what is taken from it: the three clamps never fire. */
  lemma ClampsNeverFire(db: Db, id: string, cutoff: string, p: string)
    requires Conserved(db)
    ensures Live(db, id) ==> db.accounts[db.reservations[id].provider].reserved >= db.reservations[id].bytes
    ensures p in db.accounts ==> db.accounts[p].reserved >= Sums.Total(HeldIn(db.reservations, Expired(db, cutoff), p))
    ensures p in db.accounts ==> db.accounts[p].reserved >= 0
  {
    if Live(db, id) {
      var rows := Held(db.reservations, db.reservations[id].provider);
      Sums.TotalNonNegative(rows);
      assert id in rows;
    }
    Sums.TotalNonNegative(Held(db.reservations, p));
    Sums.TotalNonNegative(Held(db.reservations - Expired(db, cutoff), p));
    HeldRecover(db, Expired(db, cutoff), p);
  }

  lemma DropConserves(db: Db, id: string, accounts: map<string, Account>)
    requires Conserved(db) && Live(db, id)
    requires accounts.Keys == db.accounts.Keys
    requires forall p :: p in accounts ==>
               (p == db.reservations[id].provider ==>
                  accounts[p].reserved == Without(db.accounts[p].reserved, db.reservations[id].bytes))
               && (p != db.reservations[id].provider ==> accounts[p].reserved == db.accounts[p].reserved)
    ensures Conserved(Db(accounts, db.reservations - {id}))
  {
    ClampsNeverFire(db, id, "", "");
    forall p | p in accounts
      ensures accounts[p].reserved == Sums.Total(Held(db.reservations - {id}, p))
    {
      HeldDrop(db, id, p);
    }
  }

  lemma RecoverConserves(db: Db, cutoff: string)
    requires Conserved(db)
    ensures Conserved(Recover(db, cutoff))
  {
    var after := Recover(db, cutoff);
    forall p | p in after.accounts
      ensures after.accounts[p].reserved == Sums.Total(Held(after.reservations, p))
    {
      ClampsNeverFire(db, "", cutoff, p);
      HeldRecover(db, Expired(db, cutoff), p);
    }
  }

  lemma ReserveConserves(db: Db, r: Request)
    requires Conserved(db) && Granted(db, r)
    ensures Conserved(Reserve(db, r))
  {
    var after := Reserve(db, r);
    forall p | p in after.accounts
      ensures after.accounts[p].reserved == Sums.Total(Held(after.reservations, p))
    {
      HeldUpdate(db, r.id, Reservation(r.provider, r.bytes, r.expiresAt), p);
    }
  }

  lemma StepConserves(db: Db, step: Step)
    requires Conserved(db)
    ensures Conserved(Apply(db, step))
  {
    match step
    case ReserveStep(r) =>
      if Granted(db, r) {
        ReserveConserves(db, r);
      }
    case CommitStep(id, actual) => CommitConserves(db, id, actual);
    case ReleaseStep(id) =>
      if Live(db, id) {
        DropConserves(db, id, Release(db, id).accounts);
      }
    case RecoverStep(cutoff) => RecoverConserves(db, cutoff);
    case _ => OthersConserve(db, step);
  }

  lemma CommitConserves(db: Db, id: string, actual: int)
    requires Conserved(db)
    ensures Conserved(Commit(db, id, actual))
  {
    if actual >= 0 && Live(db, id) {
      DropConserves(db, id, Commit(db, id, actual).accounts);
    }
  }

  lemma OthersConserve(db: Db, step: Step)
    requires Conserved(db)
    requires step.UsageStep? || step.ReconcileStep? || step.RemoteQuotaStep? || step.AvailabilityStep?
    ensures Conserved(Apply(db, step))
  {}

  /** Ledger conservation over every interleaving. */
  lemma {:induction false} RunConserves(db: Db, steps: seq<Step>)
    requires Conserved(db)
    ensures Conserved(Run(db, steps))
    decreases steps
  {
    if steps != [] {
      StepConserves(db, steps[0]);
      RunConserves(Apply(db, steps[0]), steps[1..]);
    }
  }

  // ---- capacity safety -------------------------------------------------

  /** Usage grows only by commits: adjustments only take away, and nothing is reconciled. */
  predicate GrowsByCommitsOnly(steps: seq<Step>) {
    forall i :: 0 <= i < |steps| ==> !steps[i].ReconcileStep? && (steps[i].UsageStep? ==> steps[i].delta <= 0)
  }

  /** Bytes by which one commit of provider p exceeds what was reserved for it. */
  function Overshoot(db: Db, step: Step, p: string): nat {
    if step.CommitStep? && step.actual >= 0 && Live(db, step.id) && db.reservations[step.id].provider == p
    then Max(step.actual - db.reservations[step.id].bytes, 0)
    else 0
  }

  ghost function TotalOvershoot(db: Db, steps: seq<Step>, p: string): nat
    decreases steps
  {
    if steps == [] then 0 else Overshoot(db, steps[0], p) + TotalOvershoot(Apply(db, steps[0]), steps[1..], p)
  }

  /** The bytes one account promises away. */
  function Load(a: Account): int {
    a.used + a.reserved
  }

  /** The load of p stays within its capacity and the given slack. */
  ghost predicate LoadWithin(before: Db, after: Db, p: string, slack: int)
    requires p in before.accounts
  {
    && p in after.accounts && after.accounts[p].capacity == before.accounts[p].capacity
    && after.accounts[p].used >= 0 && Load(after.accounts[p]) <= before.accounts[p].capacity + slack
  }

  lemma CommitLoad(db: Db, id: string, actual: int, p: string, slack: nat)
    requires Conserved(db) && p in db.accounts && LoadWithin(db, db, p, slack)
    ensures LoadWithin(db, Commit(db, id, actual), p, slack + Overshoot(db, CommitStep(id, actual), p))
  {
    ClampsNeverFire(db, id, "", p);
  }

  lemma RecoverLoad(db: Db, cutoff: string, p: string, slack: nat)
    requires Conserved(db) && p in db.accounts && LoadWithin(db, db, p, slack)
    ensures LoadWithin(db, Recover(db, cutoff), p, slack)
  {
    ClampsNeverFire(db, "", cutoff, p);
    Sums.TotalNonNegative(HeldIn(db.reservations, Expired(db, cutoff), p));
  }

  /** One step raises the load only within the capacity, or by a commit's overshoot. */
  lemma StepLoad(db: Db, step: Step, p: string, slack: nat)
    requires Conserved(db) && p in db.accounts && GrowsByCommitsOnly([step])
    requires db.accounts[p].capacity > 0 && LoadWithin(db, db, p, slack)
    ensures LoadWithin(db, Apply(db, step), p, slack + Overshoot(db, step, p))
  {
    assert [step][0] == step;
    match step
    case CommitStep(id, actual) => CommitLoad(db, id, actual, p, slack);
    case ReleaseStep(id) => ClampsNeverFire(db, id, "", p);
    case RecoverStep(cutoff) => RecoverLoad(db, cutoff, p, slack);
    case _ =>
  }

  /** Capacity safety: whatever the interleaving, used plus reserved bytes pass a configured
      capacity by no more than the commits overshot their reservations. */
  lemma {:induction false} CapacitySafety(db: Db, steps: seq<Step>, p: string, slack: nat)
    requires Conserved(db) && p in db.accounts && GrowsByCommitsOnly(steps)
    requires db.accounts[p].capacity > 0 && db.accounts[p].used >= 0
    requires Load(db.accounts[p]) <= db.accounts[p].capacity + slack
    ensures var after := Run(db, steps);
            && p in after.accounts
            && after.accounts[p].capacity == db.accounts[p].capacity
            && Load(after.accounts[p]) <= db.accounts[p].capacity + slack + TotalOvershoot(db, steps, p)
    decreases steps
  {
    if steps != [] {
      var step := steps[0];
      StepConserves(db, step);
      StepLoad(db, step, p, slack);
      CapacitySafety(Apply(db, step), steps[1..], p, slack + Overshoot(db, step, p));
    }
  }

  /** Every commit stores at most what was reserved for it. */
  ghost predicate CommitsWithinReservations(db: Db, steps: seq<Step>)
    decreases steps
  {
    steps == [] ||
    (&& (steps[0].CommitStep? && Live(db, steps[0].id) ==> steps[0].actual <= db.reservations[steps[0].id].bytes)
     && CommitsWithinReservations(Apply(db, steps[0]), steps[1..]))
  }

  lemma {:induction false} NoOvershoot(db: Db, steps: seq<Step>, p: string)
    requires CommitsWithinReservations(db, steps)
    ensures TotalOvershoot(db, steps, p) == 0
    decreases steps
  {
    if steps != [] {
      NoOvershoot(Apply(db, steps[0]), steps[1..], p);
    }
  }

  /** Without overshoot a configured capacity is never passed. */
  lemma CapacityNeverExceeded(db: Db, steps: seq<Step>, p: string)
    requires Conserved(db) && p in db.accounts && GrowsByCommitsOnly(steps) && CommitsWithinReservations(db, steps)
    requires db.accounts[p].capacity > 0 && db.accounts[p].used >= 0 && Load(db.accounts[p]) <= db.accounts[p].capacity
    ensures p in Run(db, steps).accounts && Load(Run(db, steps).accounts[p]) <= db.accounts[p].capacity
  {
    CapacitySafety(db, steps, p, 0);
    NoOvershoot(db, steps, p);
  }

  // ---- a recovered reservation stays dead ------------------------------

  predicate NeverReserves(steps: seq<Step>, id: string) {
    forall i :: 0 <= i < |steps| && steps[i].ReserveStep? ==> steps[i].request.id != id
  }

  lemma {:induction false} DeadStaysDead(db: Db, steps: seq<Step>, id: string)
    requires id !in db.reservations && NeverReserves(steps, id)
    ensures id !in Run(db, steps).reservations
    decreases steps
  {
    if steps != [] {
      DeadStaysDead(Apply(db, steps[0]), steps[1..], id);
    }
  }

  /** Committing a reservation that expired and was recovered, at any later time, changes nothing. */
  lemma LateCommitChangesNothing(db: Db, cutoff: string, steps: seq<Step>, id: string, actual: int)
    requires id in Expired(db, cutoff) && NeverReserves(steps, id)
    ensures var later := Run(Recover(db, cutoff), steps);
            Commit(later, id, actual) == later && Release(later, id) == later
  {
    DeadStaysDead(Recover(db, cutoff), steps, id);
  }

  // ---- monthly allowance -----------------------------------------------

  /** Reservations of provider p carry one limit and labels that never go backwards. */
  predicate MonthlySteps(steps: seq<Step>, p: string, limit: int, period: string) {
    steps == [] ||
    (var step := steps[0];
     if step.ReserveStep? && step.request.provider == p then
       step.request.limit == limit && Text.AtMost(period, step.request.period)
       && MonthlySteps(steps[1..], p, limit, step.request.period)
     else MonthlySteps(steps[1..], p, limit, period))
  }

  ghost predicate WithinAllowance(db: Db, p: string, limit: int) {
    p in db.accounts && 0 <= db.accounts[p].monthly && db.accounts[p].monthly + db.accounts[p].reserved <= limit
  }

  /** Bytes that commits of provider p add while its row carries the label `month`. */
  function CountedUnder(db: Db, step: Step, p: string, month: string): nat {
    if && step.CommitStep? && step.actual >= 0 && Live(db, step.id)
       && db.reservations[step.id].provider == p && db.accounts[p].period == month
    then step.actual else 0
  }

  ghost function TotalCounted(db: Db, steps: seq<Step>, p: string, month: string): nat
    decreases steps
  {
    if steps == [] then 0 else (CountedUnder(db, steps[0], p, month)
        + TotalCounted(Apply(db, steps[0]), steps[1..], p, month))
  }

  /** What a step may do to the monthly counter: add what it counts under the current label, or
      start a new label by a granted reservation. */
  ghost predicate Advances(db: Db, step: Step, p: string)
    requires p in db.accounts && p in Apply(db, step).accounts
  {
    var a, b := db.accounts[p], Apply(db, step).accounts[p];
    || (b.period == a.period && b.monthly == a.monthly + CountedUnder(db, step, p, a.period))
    || (step.ReserveStep? && step.request.provider == p
        && b.period == step.request.period != a.period && b.monthly == 0)
  }

  lemma RecoverAllowance(db: Db, cutoff: string, p: string, limit: int)
    requires Conserved(db) && WithinAllowance(db, p, limit)
    ensures WithinAllowance(Recover(db, cutoff), p, limit) && Advances(db, RecoverStep(cutoff), p)
  {
    ClampsNeverFire(db, "", cutoff, p);
    Sums.TotalNonNegative(HeldIn(db.reservations, Expired(db, cutoff), p));
  }

  lemma ReserveAllowance(db: Db, r: Request, p: string, limit: int)
    requires Conserved(db) && WithinAllowance(db, p, limit) && limit > 0 && (r.provider == p ==> r.limit == limit)
    ensures WithinAllowance(Reserve(db, r), p, limit) && Advances(db, ReserveStep(r), p)
  {
    ClampsNeverFire(db, "", "", p);
  }

  lemma CommitAllowance(db: Db, id: string, actual: int, p: string, limit: int)
    requires Conserved(db) && WithinAllowance(db, p, limit)
    requires Live(db, id) ==> actual <= db.reservations[id].bytes
    ensures WithinAllowance(Commit(db, id, actual), p, limit) && Advances(db, CommitStep(id, actual), p)
  {
    ClampsNeverFire(db, id, "", p);
  }

  lemma ReleaseAllowance(db: Db, id: string, p: string, limit: int)
    requires Conserved(db) && WithinAllowance(db, p, limit)
    ensures WithinAllowance(Release(db, id), p, limit) && Advances(db, ReleaseStep(id), p)
  {
    ClampsNeverFire(db, id, "", p);
  }

  lemma OtherAllowance(db: Db, step: Step, p: string, limit: int)
    requires WithinAllowance(db, p, limit)
    requires step.UsageStep? || step.ReconcileStep? || step.RemoteQuotaStep? || step.AvailabilityStep?
    ensures WithinAllowance(Apply(db, step), p, limit) && Advances(db, step, p)
  {}

  lemma StepAllowance(db: Db, step: Step, p: string, limit: int)
    requires Conserved(db) && WithinAllowance(db, p, limit) && limit > 0
    requires step.ReserveStep? && step.request.provider == p ==> step.request.limit == limit
    requires step.CommitStep? && Live(db, step.id) ==> step.actual <= db.reservations[step.id].bytes
    ensures WithinAllowance(Apply(db, step), p, limit) && Advances(db, step, p)
  {
    match step
    case CommitStep(id, actual) => CommitAllowance(db, id, actual, p, limit);
    case ReleaseStep(id) => ReleaseAllowance(db, id, p, limit);
    case RecoverStep(cutoff) => RecoverAllowance(db, cutoff, p, limit);
    case ReserveStep(r) => ReserveAllowance(db, r, p, limit);
    case _ => OtherAllowance(db, step, p, limit);
  }

  /** A label the row has moved past is never counted under again. */
  lemma {:induction false} PastLabelIsClosed(db: Db, steps: seq<Step>, p: string, limit: int, period: string,
                                             month: string)
    requires p in db.accounts && MonthlySteps(steps, p, limit, period)
    requires Text.Less(month, db.accounts[p].period) && Text.Less(month, period)
    ensures TotalCounted(db, steps, p, month) == 0
    decreases steps
  {
    if steps != [] {
      var step := steps[0];
      Text.Trichotomy(month, db.accounts[p].period);
      var next := if step.ReserveStep? && step.request.provider == p then step.request.period else period;
      Text.AtMostTransitive(month, period, next);
      PastLabelIsClosed(Apply(db, step), steps[1..], p, limit, next, month);
    }
  }

  /** The monthly allowance: at every point of the run the month's uploads and the
      outstanding reservations fit the limit, and what is counted under any one month
      label is at most the limit, across resets and failed reservations. */
  lemma {:induction false} MonthlyAllowance(db: Db, steps: seq<Step>, p: string, limit: int, period: string,
                                            month: string)
    requires Conserved(db) && limit > 0 && WithinAllowance(db, p, limit)
    requires Text.AtMost(db.accounts[p].period, period)
    requires MonthlySteps(steps, p, limit, period) && CommitsWithinReservations(db, steps)
    ensures WithinAllowance(Run(db, steps), p, limit)
    ensures TotalCounted(db, steps, p, month)
        + (if month == db.accounts[p].period then db.accounts[p].monthly else 0) <= limit
    decreases steps
  {
    ClampsNeverFire(db, "", "", p);
    if steps != [] {
      var step := steps[0];
      var after := Apply(db, step);
      StepConserves(db, step);
      StepAllowance(db, step, p, limit);
      var current := db.accounts[p].period;
      var next := if step.ReserveStep? && step.request.provider == p then step.request.period else period;
      Text.AtMostTransitive(current, period, next);
      MonthlyAllowance(after, steps[1..], p, limit, next, month);
      if after.accounts[p].period != current && month == current {
        PastLabelIsClosed(after, steps[1..], p, limit, next, month);
      }
    }
  }
}
