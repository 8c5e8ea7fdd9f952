/** Storing one upload: choose a provider, reserve, store, commit; on a failure that another
    provider may not share, release and try the next. Other instances' transactions run in between. */
module Upload {
  import opened Common
  import Ledger
  import Placement
  import Text
  import opened Timestamps

  datatype FailureKind = Quota | Throttled | Credentials | Unreachable | Permanent | Unclassified

  /** Only classified, non-permanent failures are recorded and move on to another provider. */
  predicate FailoverEligible(kind: FailureKind) {
    kind != Permanent && kind != Unclassified
  }

  function StatusOf(kind: FailureKind): string {
    match kind
    case Quota => "quota"
    case Throttled => "throttled"
    case Credentials => "credentials"
    case Unreachable => "unavailable"
    case _ => "permanent"
  }

  /** What a provider adapter did; a failure carries the end of the outage to record. */
  datatype Outcome = Stored(size: int) | Failed(kind: FailureKind, until: string)

  /** Everything one turn of the loop meets: the router's snapshot, the drawn reservation id,
      the clock, the spool, the adapter, and what other instances do meanwhile. */
  datatype Attempt = Attempt(
    snapshot: seq<Placement.Provider>, id: string, now: Instant, period: string, expiresAt: string,
    rewinds: bool, outcome: Outcome,
    beforeReserve: seq<Ledger.Step>, whileStoring: seq<Ledger.Step>,
    afterFailure: seq<Ledger.Step>, afterRelease: seq<Ledger.Step>)

  datatype Placed = Placed(provider: string, size: int)

  // ---- the history of one upload ---------------------------------------

  datatype Entry = Own(step: Ledger.Step) | Foreign(step: Ledger.Step)

  ghost function After(db: Ledger.Db, trace: seq<Entry>): Ledger.Db {
    if trace == [] then db else Ledger.Apply(After(db, trace[..|trace| - 1]), trace[|trace| - 1].step)
  }

  /** What one step adds to a provider's stored bytes. */
  function UsedGain(before: Ledger.Db, after: Ledger.Db, p: string): int {
    if p in before.accounts && p in after.accounts then after.accounts[p].used - before.accounts[p].used else 0
  }

  /** What one step adds to a provider's upload counter, beyond a reset to a new month. */
  function MonthlyGain(before: Ledger.Db, after: Ledger.Db, p: string): int {
    if p !in before.accounts || p !in after.accounts then 0
    else if after.accounts[p].period == before.accounts[p].period
    then after.accounts[p].monthly - before.accounts[p].monthly
    else after.accounts[p].monthly
  }

  ghost function OwnUsed(db: Ledger.Db, trace: seq<Entry>, p: string): int {
    if trace == [] then 0 else
      var earlier := trace[..|trace| - 1];
      OwnUsed(db, earlier, p)
      + if trace[|trace| - 1].Own? then UsedGain(After(db, earlier), After(db, trace), p) else 0
  }

  ghost function OwnMonthly(db: Ledger.Db, trace: seq<Entry>, p: string): int {
    if trace == [] then 0 else
      var earlier := trace[..|trace| - 1];
      OwnMonthly(db, earlier, p)
      + if trace[|trace| - 1].Own? then MonthlyGain(After(db, earlier), After(db, trace), p) else 0
  }

  /** Reservation ids are drawn at random: no other instance uses one of these. */
  ghost predicate Unguessed(steps: seq<Ledger.Step>, attempts: nat -> Attempt) {
    forall i, k: nat :: 0 <= i < |steps| ==> !Ledger.Mentions(steps[i], attempts(k).id)
  }

  ghost predicate NoneHeld(db: Ledger.Db, attempts: nat -> Attempt) {
    forall k: nat :: attempts(k).id !in db.reservations
  }

  /** So far the upload has added `used` bytes at provider `at` and nothing anywhere else. */
  ghost predicate Grown(db: Ledger.Db, trace: seq<Entry>, at: string, used: int) {
    forall p ::
      && OwnUsed(db, trace, p) == (if p == at then used else 0)
      && OwnMonthly(db, trace, p) == (if p == at then used else 0)
  }

  ghost predicate Unchanged(db: Ledger.Db, trace: seq<Entry>) {
    Grown(db, trace, "", 0)
  }

  /** The upload's own transactions, in order. */
  ghost function OwnSteps(trace: seq<Entry>): seq<Ledger.Step> {
    if trace == [] then [] else
      OwnSteps(trace[..|trace| - 1]) + if trace[|trace| - 1].Own? then [trace[|trace| - 1].step] else []
  }

  lemma Extend(db: Ledger.Db, trace: seq<Entry>, e: Entry)
    ensures After(db, trace + [e]) == Ledger.Apply(After(db, trace), e.step)
    ensures OwnSteps(trace + [e]) == OwnSteps(trace) + if e.Own? then [e.step] else []
    ensures forall p :: OwnUsed(db, trace + [e], p) == OwnUsed(db, trace, p)
              + if e.Own? then UsedGain(After(db, trace), After(db, trace + [e]), p) else 0
    ensures forall p :: OwnMonthly(db, trace + [e], p) == OwnMonthly(db, trace, p)
              + if e.Own? then MonthlyGain(After(db, trace), After(db, trace + [e]), p) else 0
  {
    assert (trace + [e])[..|trace|] == trace;
  }

  /** Reserving, releasing and recording an outage store nothing. */
  lemma QuietStep(db: Ledger.Db, trace: seq<Entry>, step: Ledger.Step)
    requires step.ReserveStep? || step.ReleaseStep? || step.AvailabilityStep?
    requires Unchanged(db, trace)
    ensures Unchanged(db, trace + [Own(step)])
  {
    Extend(db, trace, Own(step));
  }

  /** A commit of a live reservation stores its bytes at the reservation's provider, once. */
  lemma CommitGrows(db: Ledger.Db, trace: seq<Entry>, id: string, actual: int)
    requires Unchanged(db, trace) && actual >= 0 && Ledger.Live(After(db, trace), id)
    ensures Grown(db, trace + [Own(Ledger.CommitStep(id, actual))], After(db, trace).reservations[id].provider, actual)
  {
    Extend(db, trace, Own(Ledger.CommitStep(id, actual)));
  }

  lemma DeadCommitIsQuiet(db: Ledger.Db, trace: seq<Entry>, id: string, actual: int)
    requires Unchanged(db, trace) && (actual < 0 || !Ledger.Live(After(db, trace), id))
    ensures Unchanged(db, trace + [Own(Ledger.CommitStep(id, actual))])
  {
    Extend(db, trace, Own(Ledger.CommitStep(id, actual)));
  }

  // ---- what each turn comes to -----------------------------------------

  /** How a turn ends: the reservation is invalid or refused, the spool cannot be read again, the
      adapter fails, or the bytes are stored and their commit refused or done. */
  datatype Ending =
    | Invalid
    | Refused
    | NotRewound
    | FailedAt(kind: FailureKind, until: string)
    | CommitRefused(size: int)
    | Committed(size: int)

  /** One turn: the provider tried, and the places of its reservation and its commit in the history. */
  datatype Met = Met(
    provider: Placement.Provider, request: Ledger.Request, reserve: nat, commit: nat, ending: Ending)

  /** Another provider is tried after a refused reservation and after a failure of one of these kinds. */
  predicate Continues(e: Ending) {
    || e.Refused?
    || (e.FailedAt? && (e.kind == Quota || e.kind == Throttled || e.kind == Credentials || e.kind == Unreachable))
  }

  /** The upload's own transactions after a granted reservation. */
  function StoreScript(id: string, p: string, e: Ending): seq<Ledger.Step> {
    match e
    case NotRewound => [Ledger.ReleaseStep(id)]
    case FailedAt(kind, until) =>
      [Ledger.ReleaseStep(id)] + if Continues(e) then [Ledger.AvailabilityStep(p, StatusOf(kind), until)] else []
    case CommitRefused(size) => [Ledger.CommitStep(id, size), Ledger.ReleaseStep(id)]
    case Committed(size) => [Ledger.CommitStep(id, size)]
    case _ => []
  }

  /** All of the upload's own transactions in these turns. */
  function Script(met: seq<Met>): seq<Ledger.Step> {
    if met == [] then [] else
      var m := met[|met| - 1];
      Script(met[..|met| - 1]) + [Ledger.ReserveStep(m.request)] + StoreScript(m.request.id, m.provider.id, m.ending)
  }

  predicate OwnAt(trace: seq<Entry>, i: nat, step: Ledger.Step) {
    i < |trace| && trace[i] == Own(step)
  }

  /** Why a turn ended so, once its reservation was granted. */
  ghost predicate StoreEnded(db: Ledger.Db, trace: seq<Entry>, a: Attempt, commit: nat, e: Ending) {
    match e
    case NotRewound => !a.rewinds
    case FailedAt(kind, until) => a.rewinds && a.outcome == Failed(kind, until)
    case CommitRefused(size) =>
      && a.rewinds && a.outcome == Stored(size) && OwnAt(trace, commit, Ledger.CommitStep(a.id, size))
      && (size < 0 || !Ledger.Live(After(db, trace[..commit]), a.id))
    case Committed(size) =>
      && a.rewinds && a.outcome == Stored(size) && OwnAt(trace, commit, Ledger.CommitStep(a.id, size))
      && size >= 0 && Ledger.Live(After(db, trace[..commit]), a.id)
    case _ => false
  }

  /** Why a turn ended so: the guard decided at the reservation, then the spool, the adapter and
      whether the reservation was still live at the commit. */
  ghost predicate Ended(db: Ledger.Db, trace: seq<Entry>, a: Attempt, m: Met) {
    && OwnAt(trace, m.reserve, Ledger.ReserveStep(m.request))
    && if Ledger.Granted(After(db, trace[..m.reserve]), m.request) then StoreEnded(db, trace, a, m.commit, m.ending)
       else if a.id == "" || m.provider.id == "" then m.ending == Invalid
       else m.ending == Refused
  }

  /** What is asked of the ledger for a provider. */
  predicate Asks(request: Ledger.Request, a: Attempt, p: Placement.Provider, size: nat) {
    && request.id == a.id && request.provider == p.id && request.bytes == size
    && request.margin == Max(Placement.AppSetting(p.margin), Placement.AppSetting(p.minFree))
    && request.limit == Placement.AppSetting(p.monthlyLimit)
    && request.period == a.period && request.now == Format(a.now) && request.expiresAt == a.expiresAt
  }

  /** The providers of the turns so far. */
  function TriedIn(met: seq<Met>): set<string> {
    set i | 0 <= i < |met| :: met[i].provider.id
  }

  /** The provider of a turn is the best usable one of the snapshot not tried before. */
  predicate BestLeft(a: Attempt, tried: set<string>, size: nat, p: Placement.Provider) {
    && p in a.snapshot && Placement.Usable(p, tried, size, a.now, a.period)
    && forall q :: q in a.snapshot && Placement.Usable(q, tried, size, a.now, a.period) ==> !Placement.Preferred(q, p)
  }

  ghost predicate Turned(db: Ledger.Db, trace: seq<Entry>, a: Attempt, tried: set<string>, size: nat, m: Met) {
    BestLeft(a, tried, size, m.provider) && Asks(m.request, a, m.provider, size) && Ended(db, trace, a, m)
  }

  /** The turns account for the whole history of the upload. */
  ghost predicate History(db: Ledger.Db, trace: seq<Entry>, attempts: nat -> Attempt, size: nat, met: seq<Met>) {
    && OwnSteps(trace) == Script(met)
    && forall k :: 0 <= k < |met| ==> Turned(db, trace, attempts(k), TriedIn(met[..k]), size, met[k])
  }

  ghost predicate AllContinue(met: seq<Met>) {
    forall k :: 0 <= k < |met| ==> Continues(met[k].ending)
  }

  /** The result of an upload whose last turn did not go on to another provider. */
  predicate Yields(m: Met, r: Result<Placed>) {
    match m.ending
    case Committed(size) => r == Ok(Placed(m.provider.id, size))
    case NotRewound => r == Err(InvalidArgument)
    case FailedAt(_, _) => r == Err(AdapterFailed)
    case _ => r.Err? && r.error != NoProviderAvailable
  }

  /** The upload ends with the first turn that does not go on, or when no usable provider is left. */
  ghost predicate Explained(attempts: nat -> Attempt, size: nat, met: seq<Met>, r: Result<Placed>) {
    if AllContinue(met) then
      var a := attempts(|met|);
      && r == Err(NoProviderAvailable)
      && forall q :: q in a.snapshot ==> !Placement.Usable(q, TriedIn(met), size, a.now, a.period)
    else
      var last := |met| - 1;
      AllContinue(met[..last]) && !Continues(met[last].ending) && Yields(met[last], r)
  }

  ghost predicate Extends(earlier: seq<Entry>, trace: seq<Entry>) {
    |earlier| <= |trace| && trace[..|earlier|] == earlier
  }

  lemma ExtendsFurther(a: seq<Entry>, b: seq<Entry>, c: seq<Entry>)
    requires Extends(a, b) && Extends(b, c)
    ensures Extends(a, c)
  {
    assert c[..|a|] == c[..|b|][..|a|];
  }

  lemma TurnedStays(db: Ledger.Db, earlier: seq<Entry>, trace: seq<Entry>, a: Attempt, tried: set<string>, size: nat,
                    m: Met)
    requires Turned(db, earlier, a, tried, size, m) && Extends(earlier, trace)
    ensures Turned(db, trace, a, tried, size, m)
  {
    assert forall i :: 0 <= i < |earlier| ==> earlier[..i] == trace[..i] && earlier[i] == trace[i];
  }

  // ---- foreign transactions --------------------------------------------

  method ApplyForeign(store: Ledger.LedgerStore, step: Ledger.Step)
    modifies store
    ensures store.State() == Ledger.Apply(old(store.State()), step)
  {
    match step {
      case ReserveStep(r) => var _ := store.ReserveProviderCapacity(r);
      case CommitStep(id, actual) => var _ := store.CommitProviderReservation(id, actual);
      case ReleaseStep(id) => store.ReleaseProviderReservation(id);
      case RecoverStep(cutoff) => var _ := store.RecoverExpiredProviderReservations(cutoff);
      case UsageStep(p, delta) => store.AddProviderUsage(p, delta);
      case ReconcileStep(p, used) => store.SetProviderUsage(p, used);
      case RemoteQuotaStep(p, capacity, used) => store.SetProviderRemoteQuota(p, capacity, used);
      case AvailabilityStep(p, status, until) => store.MarkProviderUnavailable(p, status, until);
    }
  }

  /** What foreign steps leave true of the upload's own reservations and growth. */
  method Interfere(store: Ledger.LedgerStore, steps: seq<Ledger.Step>, attempts: nat -> Attempt,
                   ghost db: Ledger.Db, ghost earlier: seq<Entry>)
    returns (ghost trace: seq<Entry>)
    requires Ledger.Conserved(store.State()) && Unguessed(steps, attempts)
    requires store.State() == After(db, earlier) && Unchanged(db, earlier)
    modifies store
    ensures Ledger.Conserved(store.State())
    ensures store.State() == After(db, trace) && Unchanged(db, trace)
    ensures Extends(earlier, trace) && OwnSteps(trace) == OwnSteps(earlier)
    ensures forall k: nat :: attempts(k).id in store.reservations
              ==> attempts(k).id in old(store.reservations)
                  && store.reservations[attempts(k).id] == old(store.reservations)[attempts(k).id]
  {
    trace := earlier;
    for i := 0 to |steps|
      invariant Ledger.Conserved(store.State())
      invariant store.State() == After(db, trace) && Unchanged(db, trace)
      invariant Extends(earlier, trace) && OwnSteps(trace) == OwnSteps(earlier)
      invariant forall k: nat :: attempts(k).id in store.reservations
                  ==> attempts(k).id in old(store.reservations)
                      && store.reservations[attempts(k).id] == old(store.reservations)[attempts(k).id]
    {
      Ledger.StepConserves(store.State(), steps[i]);
      OwnRowsSurviveOnly(store.State(), steps[i], attempts, steps);
      Extend(db, trace, Foreign(steps[i]));
      ApplyForeign(store, steps[i]);
      trace := trace + [Foreign(steps[i])];
    }
  }

  lemma OwnRowsSurviveOnly(db: Ledger.Db, step: Ledger.Step, attempts: nat -> Attempt, steps: seq<Ledger.Step>)
    requires Unguessed(steps, attempts) && step in steps
    ensures var after := Ledger.Apply(db, step);
            forall k: nat :: attempts(k).id in after.reservations
              ==> attempts(k).id in db.reservations
                  && after.reservations[attempts(k).id] == db.reservations[attempts(k).id]
  {
    var i :| 0 <= i < |steps| && steps[i] == step;
    forall k: nat ensures !Ledger.Mentions(step, attempts(k).id) {
      assert !Ledger.Mentions(steps[i], attempts(k).id);
    }
  }

  // ---- the loop --------------------------------------------------------

  /** Each turn draws a fresh id, and the router only ever sees the enabled providers. */
  ghost predicate WellDrawn(db: Ledger.Db, attempts: nat -> Attempt, enabled: set<string>) {
    && NoneHeld(db, attempts)
    && (forall i: nat, j: nat :: i != j ==> attempts(i).id != attempts(j).id)
    && (forall k: nat, p :: p in attempts(k).snapshot && p.account.enabled ==> p.id in enabled)
    && (forall k: nat :: OthersUnguessed(attempts(k), attempts))
  }

  /** What one turn leaves to the loop: the next provider, or the result. */
  datatype Turn = TryNext | Finished(result: Result<Placed>)

  /** The state between two turns: nothing reserved, nothing stored. */
  ghost predicate Idle(store: Ledger.LedgerStore, attempts: nat -> Attempt, db: Ledger.Db, trace: seq<Entry>)
    reads store
  {
    && Ledger.Conserved(store.State()) && NoneHeld(store.State(), attempts)
    && store.State() == After(db, trace) && Unchanged(db, trace)
  }

  /** What holds when the upload has ended. `left` are the bytes that adapters stored for it and
      were not asked to delete. */
  ghost predicate Settled(store: Ledger.LedgerStore, attempts: nat -> Attempt, db: Ledger.Db, trace: seq<Entry>,
                          r: Result<Placed>, left: set<Placed>)
    reads store
  {
    && Ledger.Conserved(store.State()) && NoneHeld(store.State(), attempts) && store.State() == After(db, trace)
    && (if r.Ok? then Grown(db, trace, r.value.provider, r.value.size) else Unchanged(db, trace))
    && left == if r.Ok? then {r.value} else {}
  }

  ghost predicate OthersUnguessed(a: Attempt, attempts: nat -> Attempt) {
    && Unguessed(a.beforeReserve, attempts) && Unguessed(a.whileStoring, attempts)
    && Unguessed(a.afterFailure, attempts) && Unguessed(a.afterRelease, attempts)
  }

  /** The turn goes on or ends as its ending says. */
  predicate TurnOf(turn: Turn, m: Met) {
    if Continues(m.ending) then turn.TryNext? else turn.Finished? && Yields(m, turn.result)
  }

  /** After a failed store: the reservation is given back and the failure recorded. */
  method GiveUp(store: Ledger.LedgerStore, a: Attempt, kind: FailureKind, until: string, primary: string,
                attempts: nat -> Attempt, ghost db: Ledger.Db, ghost earlier: seq<Entry>)
    returns (ghost trace: seq<Entry>)
    requires Ledger.Conserved(store.State()) && store.State() == After(db, earlier) && Unchanged(db, earlier)
    requires HeldOnly(store.State(), attempts, a.id, primary) && OthersUnguessed(a, attempts)
    modifies store
    ensures Idle(store, attempts, db, trace) && Extends(earlier, trace)
    ensures OwnSteps(trace) == OwnSteps(earlier) + StoreScript(a.id, primary, FailedAt(kind, until))
  {
    trace := Interfere(store, a.afterFailure, attempts, db, earlier);
    ghost var first := trace;
    trace := ReleaseOwn(store, a.id, attempts, db, trace);
    ExtendsFurther(earlier, first, trace);
    ghost var second := trace;
    trace := Interfere(store, a.afterRelease, attempts, db, trace);
    ExtendsFurther(earlier, second, trace);
    ghost var third := trace;
    trace := RecordFailure(store, primary, kind, until, db, trace);
    ExtendsFurther(earlier, third, trace);
  }

  /** The commit of stored bytes; a refused one gives the reservation back and deletes them. */
  method CommitStored(store: Ledger.LedgerStore, a: Attempt, actual: int, primary: string, attempts: nat -> Attempt,
                      ghost db: Ledger.Db, ghost earlier: seq<Entry>)
    returns (r: Result<Placed>, left: set<Placed>, ghost trace: seq<Entry>)
    requires Ledger.Conserved(store.State()) && store.State() == After(db, earlier) && Unchanged(db, earlier)
    requires HeldOnly(store.State(), attempts, a.id, primary) && OthersUnguessed(a, attempts)
    modifies store
    ensures Settled(store, attempts, db, trace, r, left)
    ensures Extends(earlier, trace) && OwnAt(trace, |earlier|, Ledger.CommitStep(a.id, actual))
    ensures var done := actual >= 0 && old(Ledger.Live(store.State(), a.id));
            && (if done then r == Ok(Placed(primary, actual)) else r.Err? && r.error != NoProviderAvailable)
            && OwnSteps(trace) == OwnSteps(earlier)
                 + StoreScript(a.id, primary, if done then Committed(actual) else CommitRefused(actual))
  {
    left := {Placed(primary, actual)};
    var committed: Result<()>;
    committed, trace := CommitOwn(store, a.id, primary, actual, attempts, db, earlier);
    if committed.Err? {
      ghost var first := trace;
      trace := Interfere(store, a.afterFailure, attempts, db, trace);
      ExtendsFurther(earlier, first, trace);
      ghost var second := trace;
      trace := ReleaseOwn(store, a.id, attempts, db, trace);
      ExtendsFurther(earlier, second, trace);
      ExtendsFurther(first, second, trace);
      assert trace[|earlier|] == trace[..|first|][|earlier|];
      left := left - {Placed(primary, actual)};
      return Err(committed.error), left, trace;
    }
    return Ok(Placed(primary, actual)), left, trace;
  }

  /** Storing the bytes under a reservation, and the commit or release that ends it. */
  method StoreReserved(store: Ledger.LedgerStore, a: Attempt, primary: string, attempts: nat -> Attempt,
                       ghost k: nat, ghost db: Ledger.Db, ghost earlier: seq<Entry>, ghost granted: Met)
    returns (turn: Turn, left: set<Placed>, ghost trace: seq<Entry>, ghost m: Met)
    requires Ledger.Conserved(store.State()) && store.State() == After(db, earlier) && Unchanged(db, earlier)
    requires a == attempts(k) && HeldOnly(store.State(), attempts, a.id, primary) && OthersUnguessed(a, attempts)
    requires granted.provider.id == primary
    modifies store
    ensures turn.Finished? ==> Settled(store, attempts, db, trace, turn.result, left)
    ensures turn.TryNext? ==> Idle(store, attempts, db, trace) && left == {}
    ensures m == granted.(commit := m.commit, ending := m.ending) && TurnOf(turn, m)
    ensures Extends(earlier, trace) && OwnSteps(trace) == OwnSteps(earlier) + StoreScript(a.id, primary, m.ending)
    ensures StoreEnded(db, trace, a, m.commit, m.ending)
  {
    left := {};
    if !a.rewinds {
      trace := Interfere(store, a.afterFailure, attempts, db, earlier);
      ghost var first := trace;
      trace := ReleaseOwn(store, a.id, attempts, db, trace);
      ExtendsFurther(earlier, first, trace);
      return Finished(Err(InvalidArgument)), left, trace, granted.(ending := NotRewound);
    }
    trace := Interfere(store, a.whileStoring, attempts, db, earlier);
    ghost var begun := trace;
    match a.outcome {
      case Failed(kind, until) =>
        trace := GiveUp(store, a, kind, until, primary, attempts, db, trace);
        ExtendsFurther(earlier, begun, trace);
        m := granted.(ending := FailedAt(kind, until));
        if FailoverEligible(kind) {
          return TryNext, left, trace, m;
        }
        return Finished(Err(AdapterFailed)), left, trace, m;
      case Stored(actual) =>
        ghost var live := Ledger.Live(store.State(), a.id);
        var r: Result<Placed>;
        r, left, trace := CommitStored(store, a, actual, primary, attempts, db, trace);
        ExtendsFurther(earlier, begun, trace);
        m := granted.(commit := |begun|,
                      ending := if actual >= 0 && live then Committed(actual) else CommitRefused(actual));
        return Finished(r), left, trace, m;
    }
  }

  /** One turn: reserve at the chosen provider, then store there. */
  method ReserveAndStore(store: Ledger.LedgerStore, a: Attempt, primary: Placement.Provider, size: nat,
                         attempts: nat -> Attempt, ghost k: nat, ghost db: Ledger.Db, ghost earlier: seq<Entry>)
    returns (turn: Turn, left: set<Placed>, ghost trace: seq<Entry>, ghost m: Met)
    requires Idle(store, attempts, db, earlier) && a == attempts(k) && OthersUnguessed(a, attempts)
    modifies store
    ensures turn.Finished? ==> Settled(store, attempts, db, trace, turn.result, left)
    ensures turn.TryNext? ==> Idle(store, attempts, db, trace) && left == {}
    ensures m.provider == primary && Asks(m.request, a, primary, size) && TurnOf(turn, m)
    ensures Extends(earlier, trace) && Ended(db, trace, a, m)
    ensures OwnSteps(trace) == OwnSteps(earlier) + [Ledger.ReserveStep(m.request)]
                               + StoreScript(m.request.id, primary.id, m.ending)
  {
    left := {};
    trace := Interfere(store, a.beforeReserve, attempts, db, earlier);
    var request := Ledger.Request(a.id, primary.id, size, Placement.ReservationMargin(primary),
                                  Placement.AppSetting(primary.monthlyLimit), a.period, Format(a.now), a.expiresAt);
    ghost var before := trace;
    m := Met(primary, request, |before|, 0, Refused);
    var reserved: Result<bool>;
    reserved, trace := ReserveOwn(store, request, db, trace);
    assert trace[..|before|] == before;
    if reserved.Err? {
      m := m.(ending := Invalid);
      return Finished(Err(reserved.error)), left, trace, m;
    }
    if !reserved.value {
      return TryNext, left, trace, m;
    }
    ghost var after := trace;
    turn, left, trace, m := StoreReserved(store, a, primary.id, attempts, k, db, trace, m);
    assert trace[..|before|] == trace[..|after|][..|before|] == before;
    assert trace[|before|] == trace[..|after|][|before|] == Own(Ledger.ReserveStep(request));
  }

  lemma TurnsStay(db: Ledger.Db, earlier: seq<Entry>, trace: seq<Entry>, attempts: nat -> Attempt, size: nat,
                  met: seq<Met>)
    requires History(db, earlier, attempts, size, met) && Extends(earlier, trace)
    ensures forall k :: 0 <= k < |met| ==> Turned(db, trace, attempts(k), TriedIn(met[..k]), size, met[k])
  {
    forall k | 0 <= k < |met| ensures Turned(db, trace, attempts(k), TriedIn(met[..k]), size, met[k]) {
      TurnedStays(db, earlier, trace, attempts(k), TriedIn(met[..k]), size, met[k]);
    }
  }

  lemma ScriptGrows(met: seq<Met>, m: Met)
    ensures Script(met + [m])
         == Script(met) + [Ledger.ReserveStep(m.request)] + StoreScript(m.request.id, m.provider.id, m.ending)
  {
    assert (met + [m])[..|met|] == met;
  }

  lemma LastTurned(db: Ledger.Db, trace: seq<Entry>, attempts: nat -> Attempt, size: nat, met: seq<Met>, m: Met)
    requires forall k :: 0 <= k < |met| ==> Turned(db, trace, attempts(k), TriedIn(met[..k]), size, met[k])
    requires Turned(db, trace, attempts(|met|), TriedIn(met), size, m)
    ensures var more := met + [m];
            forall k :: 0 <= k < |more| ==> Turned(db, trace, attempts(k), TriedIn(more[..k]), size, more[k])
  {
    var more := met + [m];
    forall k | 0 <= k < |more| ensures Turned(db, trace, attempts(k), TriedIn(more[..k]), size, more[k]) {
      assert more[..k] == met[..k];
    }
  }

  /** The turns with one more. */
  lemma OneMoreTurn(db: Ledger.Db, earlier: seq<Entry>, trace: seq<Entry>, attempts: nat -> Attempt, size: nat,
                    met: seq<Met>, m: Met)
    requires History(db, earlier, attempts, size, met) && Extends(earlier, trace)
    requires Turned(db, trace, attempts(|met|), TriedIn(met), size, m)
    requires OwnSteps(trace) == OwnSteps(earlier) + [Ledger.ReserveStep(m.request)]
                                + StoreScript(m.request.id, m.provider.id, m.ending)
    ensures History(db, trace, attempts, size, met + [m])
    ensures TriedIn(met + [m]) == TriedIn(met) + {m.provider.id}
  {
    TurnsStay(db, earlier, trace, attempts, size, met);
    LastTurned(db, trace, attempts, size, met, m);
    ScriptGrows(met, m);
    TriedGrows(met, m);
  }

  lemma TriedGrows(met: seq<Met>, m: Met)
    ensures TriedIn(met + [m]) == TriedIn(met) + {m.provider.id}
  {
    var more := met + [m];
    forall id | id in TriedIn(met) ensures id in TriedIn(more) {
      var i :| 0 <= i < |met| && met[i].provider.id == id;
      assert more[i] == met[i];
    }
    assert more[|met|] == m;
  }

  /** The last turn says how the upload ends. */
  lemma LastTurn(attempts: nat -> Attempt, size: nat, met: seq<Met>, m: Met, turn: Turn)
    requires AllContinue(met) && TurnOf(turn, m)
    ensures turn.TryNext? ==> AllContinue(met + [m])
    ensures turn.Finished? ==> Explained(attempts, size, met + [m], turn.result)
  {
    var more := met + [m];
    assert more[..|met|] == met && more[|met|] == m;
    assert forall k :: 0 <= k < |met| ==> more[k] == met[k];
  }

  /** The loop ends, leaves no reservation of its own behind, and stores the bytes at exactly
      one provider on success and at none on failure, whatever the adapters do and whatever others
      do between any two of its steps. Of the bytes that adapters stored for it, exactly those it
      placed are left. The turns it met account for its result and for every transaction it made:
      it goes on to the best provider left exactly after a refusal or a failure that another
      provider may not share, and gives up only when none is left. */
  method PutOnSomeProvider(store: Ledger.LedgerStore, size: nat, attempts: nat -> Attempt, ghost enabled: set<string>)
    returns (r: Result<Placed>, left: set<Placed>, ghost trace: seq<Entry>, ghost met: seq<Met>)
    requires Ledger.Conserved(store.State()) && WellDrawn(store.State(), attempts, enabled)
    modifies store
    ensures store.State() == After(old(store.State()), trace) && Ledger.Conserved(store.State())
    ensures NoneHeld(store.State(), attempts)
    ensures r.Ok? ==> Grown(old(store.State()), trace, r.value.provider, r.value.size)
    ensures r.Err? ==> Unchanged(old(store.State()), trace)
    ensures left == if r.Ok? then {r.value} else {}
    ensures History(old(store.State()), trace, attempts, size, met) && Explained(attempts, size, met, r)
  {
    ghost var db := store.State();
    var excluded: set<string> := {};
    var k := 0;
    left, trace, met := {}, [], [];
    while true
      invariant Idle(store, attempts, db, trace) && left == {}
      invariant k == |met| && excluded == TriedIn(met) && AllContinue(met)
      invariant History(db, trace, attempts, size, met)
      decreases enabled - excluded
    {
      var a := attempts(k);
      var choice := Placement.Choose(a.snapshot, excluded, size, a.now, a.period);
      if choice.Err? {
        return Err(choice.error), left, trace, met;
      }
      var turn: Turn;
      ghost var earlier, m := trace, *;
      turn, left, trace, m := ReserveAndStore(store, a, choice.value, size, attempts, k, db, trace);
      OneMoreTurn(db, earlier, trace, attempts, size, met, m);
      LastTurn(attempts, size, met, m, turn);
      met := met + [m];
      if turn.Finished? {
        return turn.result, left, trace, met;
      }
      assert choice.value.id in enabled && choice.value.id !in excluded;
      excluded := excluded + {choice.value.id};
      k := k + 1;
    }
  }

  /** At most the reservation `id` of the upload is outstanding, at provider `p`. */
  ghost predicate HeldOnly(db: Ledger.Db, attempts: nat -> Attempt, id: string, p: string) {
    && (forall k: nat :: attempts(k).id in db.reservations ==> attempts(k).id == id)
    && (id in db.reservations ==> db.reservations[id].provider == p)
  }

  method ReserveOwn(store: Ledger.LedgerStore, request: Ledger.Request, ghost db: Ledger.Db, ghost earlier: seq<Entry>)
    returns (reserved: Result<bool>, ghost trace: seq<Entry>)
    requires Ledger.Conserved(store.State()) && store.State() == After(db, earlier) && Unchanged(db, earlier)
    modifies store
    ensures Ledger.Conserved(store.State()) && store.State() == After(db, trace) && Unchanged(db, trace)
    ensures store.State() == Ledger.Reserve(old(store.State()), request)
    ensures trace == earlier + [Own(Ledger.ReserveStep(request))]
    ensures OwnSteps(trace) == OwnSteps(earlier) + [Ledger.ReserveStep(request)]
    ensures reserved.Err? ==> reserved.error != NoProviderAvailable
    ensures request.id !in old(store.reservations)
        ==> (reserved.Err? <==> request.id == "" || request.provider == "" || request.bytes < 0)
    ensures reserved == Ok(true) <==> old(Ledger.Granted(store.State(), request))
  {
    var step := Ledger.ReserveStep(request);
    Ledger.StepConserves(store.State(), step);
    Extend(db, earlier, Own(step));
    QuietStep(db, earlier, step);
    reserved := store.ReserveProviderCapacity(request);
    trace := earlier + [Own(step)];
  }

  method ReleaseOwn(store: Ledger.LedgerStore, id: string, attempts: nat -> Attempt, ghost db: Ledger.Db,
                    ghost earlier: seq<Entry>)
    returns (ghost trace: seq<Entry>)
    requires Ledger.Conserved(store.State()) && store.State() == After(db, earlier) && Unchanged(db, earlier)
    requires forall k: nat :: attempts(k).id in store.reservations ==> attempts(k).id == id
    modifies store
    ensures Ledger.Conserved(store.State()) && store.State() == After(db, trace) && Unchanged(db, trace)
    ensures NoneHeld(store.State(), attempts)
    ensures Extends(earlier, trace) && OwnSteps(trace) == OwnSteps(earlier) + [Ledger.ReleaseStep(id)]
  {
    var step := Ledger.ReleaseStep(id);
    Ledger.StepConserves(store.State(), step);
    Extend(db, earlier, Own(step));
    QuietStep(db, earlier, step);
    store.ReleaseProviderReservation(id);
    trace := earlier + [Own(step)];
  }

  method CommitOwn(store: Ledger.LedgerStore, id: string, p: string, actual: int, attempts: nat -> Attempt,
                   ghost db: Ledger.Db, ghost earlier: seq<Entry>)
    returns (committed: Result<()>, ghost trace: seq<Entry>)
    requires Ledger.Conserved(store.State()) && store.State() == After(db, earlier) && Unchanged(db, earlier)
    requires HeldOnly(store.State(), attempts, id, p)
    modifies store
    ensures Ledger.Conserved(store.State()) && store.State() == After(db, trace)
    ensures HeldOnly(store.State(), attempts, id, p)
    ensures trace == earlier + [Own(Ledger.CommitStep(id, actual))]
    ensures OwnSteps(trace) == OwnSteps(earlier) + [Ledger.CommitStep(id, actual)]
    ensures committed.Ok? <==> actual >= 0 && old(Ledger.Live(store.State(), id))
    ensures committed.Err? ==> committed.error != NoProviderAvailable
    ensures committed.Ok? ==> Grown(db, trace, p, actual) && NoneHeld(store.State(), attempts)
    ensures committed.Err? ==> Unchanged(db, trace)
  {
    var step := Ledger.CommitStep(id, actual);
    Ledger.StepConserves(store.State(), step);
    Extend(db, earlier, Own(step));
    if actual >= 0 && Ledger.Live(store.State(), id) {
      CommitGrows(db, earlier, id, actual);
    } else {
      DeadCommitIsQuiet(db, earlier, id, actual);
    }
    committed := store.CommitProviderReservation(id, actual);
    trace := earlier + [Own(step)];
  }

  /** The provider is marked only for a failure another provider may not share. */
  method RecordFailure(store: Ledger.LedgerStore, p: string, kind: FailureKind, until: string,
                       ghost db: Ledger.Db, ghost earlier: seq<Entry>)
    returns (ghost trace: seq<Entry>)
    requires Ledger.Conserved(store.State()) && store.State() == After(db, earlier) && Unchanged(db, earlier)
    modifies store
    ensures Ledger.Conserved(store.State()) && store.State() == After(db, trace) && Unchanged(db, trace)
    ensures store.State() == if FailoverEligible(kind)
        then Ledger.SetAvailability(old(store.State()), p, StatusOf(kind), until) else old(store.State())
    ensures Extends(earlier, trace)
    ensures OwnSteps(trace) == OwnSteps(earlier)
        + if FailoverEligible(kind) then [Ledger.AvailabilityStep(p, StatusOf(kind), until)] else []
  {
    trace := earlier;
    if FailoverEligible(kind) {
      var step := Ledger.AvailabilityStep(p, StatusOf(kind), until);
      Ledger.StepConserves(store.State(), step);
      Extend(db, earlier, Own(step));
      QuietStep(db, earlier, step);
      store.MarkProviderUnavailable(p, StatusOf(kind), until);
      trace := earlier + [Own(step)];
    }
  }

  /** Each kind of failure is recorded under a status of its own. */
  lemma StatusTellsKind(a: FailureKind, b: FailureKind)
    requires a != Unclassified && b != Unclassified && a != b
    ensures StatusOf(a) != StatusOf(b)
  {}

  /** What a recorded failure means for later reservations: none before the end of a temporary one,
      none at all otherwise, until a reconciliation frees a quota failure and no other. */
  lemma RecordedFailureBinds(db: Ledger.Db, request: Ledger.Request, kind: FailureKind, until: string, used: nat)
    requires kind == Quota || kind == Throttled || kind == Credentials || kind == Unreachable
    requires request.provider in db.accounts
    ensures var failed := Ledger.SetAvailability(db, request.provider, StatusOf(kind), until);
            && (Ledger.Granted(failed, request)
                ==> (kind == Throttled || kind == Unreachable) && until != "" && Text.AtMost(until, request.now))
            && (Ledger.SetUsage(failed, request.provider, used).accounts[request.provider].status == ""
                <==> kind == Quota)
  {}
}
