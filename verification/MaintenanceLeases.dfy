/** Maintenance leases in the database: a row per name whose expiry is compared as text, and a
    release that backdates the row without asking who holds it. */
module MaintenanceLeases {
  import opened Timestamps
  import Text

  type Leases = map<string, Instant>

  predicate Free(leases: Leases, name: string, now: Instant) {
    name !in leases || Text.Less(Format(leases[name]), Format(now))
  }

  function Acquired(leases: Leases, name: string, now: Instant, until: Instant): Leases {
    if Free(leases, name, now) then leases[name := until] else leases
  }

  function Released(leases: Leases, name: string, past: Instant): Leases {
    if name in leases then leases[name := past] else leases
  }

  class LeaseTable {
    var leases: Leases

    constructor ()
      ensures leases == map[]
    {
      leases := map[];
    }

    method AcquireMaintenanceLease(name: string, now: Instant, until: Instant) returns (acquired: bool)
      modifies this`leases
      ensures leases == Acquired(old(leases), name, now, until)
      ensures acquired <==> Free(old(leases), name, now)
    {
      acquired := true;
      if name in leases {
        acquired := Text.Less(Format(leases[name]), Format(now));
      }
      if acquired {
        leases := leases[name := until];
      }
    }

    /** `past` is the clock minus one second. */
    method ReleaseMaintenanceLease(name: string, past: Instant)
      modifies this`leases
      ensures leases == Released(old(leases), name, past)
    {
      if name in leases {
        leases := leases[name := past];
      }
    }
  }

  // ---- one statement ---------------------------------------------------

  /** A name nobody has leased, or whose lease ended a second ago, goes to the caller until the time asked;
      one that ends a second or more from now stays; no other name is touched. */
  lemma AcquireIsExact(leases: Leases, name: string, now: Instant, until: Instant)
    ensures name !in leases || Nanos(leases[name]) + SECOND <= Nanos(now) ==>
              Acquired(leases, name, now, until) == leases[name := until]
    ensures name in leases && Nanos(now) + SECOND <= Nanos(leases[name]) ==>
              Acquired(leases, name, now, until) == leases
    ensures Acquired(leases, name, now, until) - {name} == leases - {name}
  {
    if name in leases {
      TextOrderSlack(leases[name], now);
      TextOrderSlack(now, leases[name]);
      Text.Trichotomy(Format(leases[name]), Format(now));
    }
  }

  /** An unexpired lease is given away exactly when its expiry and the clock clash as texts. */
  lemma StolenExactlyInClash(leases: Leases, name: string, now: Instant)
    requires name in leases && Nanos(now) <= Nanos(leases[name])
    ensures Free(leases, name, now) <==> FractionClash(leases[name], now)
  {
    EarlyExactlyInClash(leases[name], now);
  }

  /** Backdating by a full second is what makes a released lease free for any later caller. */
  lemma ReleasedIsFree(leases: Leases, name: string, past: Instant, now: Instant)
    requires Nanos(past) + SECOND <= Nanos(now)
    ensures Free(Released(leases, name, past), name, now)
  {
    TextOrderSlack(past, now);
  }

  // ---- runs ------------------------------------------------------------

  datatype Lease = Lease(name: string, until: Instant)

  datatype World = World(leases: Leases, held: map<string, Lease>)

  datatype Step =
    | Acquire(worker: string, name: string, now: Instant, until: Instant)
    | Release(worker: string, past: Instant)

  function Apply(w: World, step: Step): World {
    match step
    case Acquire(worker, name, now, until) =>
      if worker in w.held || !Free(w.leases, name, now) then w
      else World(Acquired(w.leases, name, now, until), w.held[worker := Lease(name, until)])
    case Release(worker, past) =>
      if worker !in w.held then w else World(Released(w.leases, w.held[worker].name, past), w.held - {worker})
  }

  function Run(w: World, steps: seq<Step>): World
    decreases steps
  {
    if steps == [] then w else Run(Apply(w, steps[0]), steps[1..])
  }

  ghost predicate Exclusive(w: World) {
    && (forall a :: a in w.held ==> w.held[a].name in w.leases && w.leases[w.held[a].name] == w.held[a].until)
    && (forall a, b :: a in w.held && b in w.held && w.held[a].name == w.held[b].name ==> a == b)
  }

  /** The worker holds the lease that the step asks for. */
  predicate AskedFor(w: World, step: Step, holder: string) {
    holder in w.held && step.Acquire? && w.held[holder].name == step.name
  }

  /** Whoever holds the lease that is asked for has not let it expire. */
  ghost predicate Punctual(w: World, step: Step) {
    forall a :: AskedFor(w, step, a) ==> Nanos(step.now) <= Nanos(w.held[a].until)
  }

  ghost predicate ClashesWithHolder(w: World, step: Step) {
    exists a :: AskedFor(w, step, a) && FractionClash(w.held[a].until, step.now)
  }

  /** With punctual holders, a caller gets a second lease exactly in a clash with the holder. */
  lemma StepExclusive(w: World, step: Step)
    requires Exclusive(w) && Punctual(w, step)
    requires step.Acquire? ==> step.worker !in w.held
    ensures Exclusive(Apply(w, step)) <==> !ClashesWithHolder(w, step)
  {
    if step.Acquire? {
      AcquireExclusive(w, step.worker, step.name, step.now, step.until);
    }
  }

  lemma AcquireExclusive(w: World, worker: string, name: string, now: Instant, until: Instant)
    requires Exclusive(w) && Punctual(w, Acquire(worker, name, now, until)) && worker !in w.held
    ensures Exclusive(Apply(w, Acquire(worker, name, now, until)))
        <==> !ClashesWithHolder(w, Acquire(worker, name, now, until))
  {
    if a :| a in w.held && w.held[a].name == name {
      StolenExactlyInClash(w.leases, name, now);
      if FractionClash(w.held[a].until, now) {
        SecondHolder(w, a, worker, name, now, until);
      }
    }
  }

  lemma SecondHolder(w: World, a: string, worker: string, name: string, now: Instant, until: Instant)
    requires a in w.held && w.held[a].name == name && worker !in w.held && Free(w.leases, name, now)
    ensures !Exclusive(Apply(w, Acquire(worker, name, now, until)))
  {
    var after := Apply(w, Acquire(worker, name, now, until));
    assert a in after.held && worker in after.held;
  }

  ghost predicate Careful(w: World, steps: seq<Step>)
    decreases steps
  {
    steps != [] ==> Punctual(w, steps[0]) && !ClashesWithHolder(w, steps[0]) && Careful(Apply(w, steps[0]), steps[1..])
  }

  /** At most one holder per name, as long as holders release before they expire and nobody asks
      at a time that clashes with a holder's expiry. */
  lemma {:induction false} AlwaysOneHolder(w: World, steps: seq<Step>)
    requires Exclusive(w) && Careful(w, steps)
    ensures Exclusive(Run(w, steps))
    decreases steps
  {
    if steps != [] {
      if !(steps[0].Acquire? && steps[0].worker in w.held) {
        StepExclusive(w, steps[0]);
      }
      AlwaysOneHolder(Apply(w, steps[0]), steps[1..]);
    }
  }

  /** Holders that release a second before expiry never meet a clash. */
  lemma MarginAvoidsClash(w: World, step: Step)
    requires step.Acquire?
    requires forall a :: AskedFor(w, step, a) ==> Nanos(step.now) + SECOND <= Nanos(w.held[a].until)
    ensures Punctual(w, step) && !ClashesWithHolder(w, step)
  {
    forall a | AskedFor(w, step, a) ensures !FractionClash(w.held[a].until, step.now) {
      DifferentSeconds(w.held[a].until, step.now);
    }
  }

  lemma DifferentSeconds(until: Instant, now: Instant)
    requires Nanos(now) + SECOND <= Nanos(until)
    ensures !FractionClash(until, now)
  {}

  // ---- late releases ---------------------------------------------------

  /** A second after its expiry a lease passes to the next caller, whoever still believes in it. */
  lemma SuccessorEnters(w: World, successor: string, name: string, now: Instant, until: Instant)
    requires name in w.leases && Nanos(w.leases[name]) + SECOND <= Nanos(now) && successor !in w.held
    ensures Apply(w, Acquire(successor, name, now, until))
         == World(w.leases[name := until], w.held[successor := Lease(name, until)])
  {
    TextOrderSlack(w.leases[name], now);
  }

  /** So an expired holder and its successor can both believe they hold the lease. */
  lemma LateHolderReachable(late: string, successor: string, name: string, t0: Instant, u0: Instant, t1: Instant,
                            u1: Instant)
    requires late != successor && Nanos(u0) + SECOND <= Nanos(t1)
    ensures Run(World(map[], map[]), [Acquire(late, name, t0, u0), Acquire(successor, name, t1, u1)])
         == World(map[name := u1], map[late := Lease(name, u0), successor := Lease(name, u1)])
  {
    var start := World(map[], map[]);
    var first, second := Acquire(late, name, t0, u0), Acquire(successor, name, t1, u1);
    var held := World(map[name := u0], map[late := Lease(name, u0)]);
    assert Apply(start, first) == held;
    SuccessorEnters(held, successor, name, t1, u1);
    assert [first, second][1..] == [second] && [second][1..] == [];
    assert Run(start, [first, second]) == Run(Apply(start, first), [second]);
    assert Run(held, [second]) == Run(Apply(held, second), []);
  }

  /** This worker, not the given one, holds the name and has not expired. */
  predicate OtherHolder(held: map<string, Lease>, other: string, worker: string, name: string, now: Instant) {
    other in held && other != worker && held[other].name == name && Nanos(now) <= Nanos(held[other].until)
  }

  ghost predicate HeldByOther(held: map<string, Lease>, worker: string, name: string, now: Instant) {
    exists other :: OtherHolder(held, other, worker, name, now)
  }

  /** A release frees the name for the next caller. That caller shares it with an unexpired holder
      exactly if one was there besides the releasing worker. */
  lemma LateReleaseExactly(w: World, late: string, past: Instant, third: string, now: Instant, until: Instant)
    requires late in w.held && third !in w.held && w.held[late].name in w.leases && Nanos(past) + SECOND <= Nanos(now)
    ensures var name := w.held[late].name;
            var after := Apply(Apply(w, Release(late, past)), Acquire(third, name, now, until)).held;
            third in after && (HeldByOther(after, third, name, now) <==> HeldByOther(w.held, late, name, now))
  {
    var name := w.held[late].name;
    var after := Apply(Apply(w, Release(late, past)), Acquire(third, name, now, until)).held;
    ReleasedIsFree(w.leases, name, past, now);
    assert after == (w.held - {late})[third := Lease(name, until)];
    if other :| OtherHolder(w.held, other, late, name, now) {
      assert OtherHolder(after, other, third, name, now);
    }
    if other :| OtherHolder(after, other, third, name, now) {
      assert OtherHolder(w.held, other, late, name, now);
    }
  }

  /** Unexpired holders own the row of their name, and no two holders of a name expire together. */
  ghost predicate Sound(w: World, clock: Instant) {
    && (forall a :: a in w.held ==> OwnsRow(w, a, clock))
    && (forall a, b :: a in w.held && b in w.held && a != b && w.held[a].name == w.held[b].name
          ==> w.held[a].until != w.held[b].until)
  }

  predicate OwnsRow(w: World, worker: string, clock: Instant)
    requires worker in w.held
  {
    var lease := w.held[worker];
    Nanos(clock) <= Nanos(lease.until) ==> lease.name in w.leases && w.leases[lease.name] == lease.until
  }

  /** Two workers hold the name of a lease, neither expired. */
  predicate Share(w: World, a: string, b: string, clock: Instant) {
    && a in w.held && b in w.held && a != b && w.held[a].name == w.held[b].name
    && Nanos(clock) <= Nanos(w.held[a].until) && Nanos(clock) <= Nanos(w.held[b].until)
  }

  lemma OneUnexpiredHolder(w: World, clock: Instant)
    requires Sound(w, clock)
    ensures forall a, b :: !Share(w, a, b, clock)
  {
    forall a, b | a in w.held && b in w.held && w.held[a].name == w.held[b].name
                  && Nanos(clock) <= Nanos(w.held[a].until) && Nanos(clock) <= Nanos(w.held[b].until)
      ensures a == b
    {
      assert OwnsRow(w, a, clock) && OwnsRow(w, b, clock);
    }
  }

  /** A release takes the row from any other unexpired holder of the name. */
  lemma OtherLosesRow(w: World, worker: string, other: string, past: Instant, clock: Instant)
    requires Sound(w, clock) && worker in w.held && Nanos(past) < Nanos(clock)
    requires OtherHolder(w.held, other, worker, w.held[worker].name, clock)
    ensures other in Apply(w, Release(worker, past)).held && !OwnsRow(Apply(w, Release(worker, past)), other, clock)
  {
    assert OwnsRow(w, other, clock);
  }

  lemma OthersKeepRows(w: World, worker: string, past: Instant, clock: Instant)
    requires Sound(w, clock) && worker in w.held && !HeldByOther(w.held, worker, w.held[worker].name, clock)
    ensures Sound(Apply(w, Release(worker, past)), clock)
  {
    var after := Apply(w, Release(worker, past));
    forall a | a in after.held ensures OwnsRow(after, a, clock) {
      assert OwnsRow(w, a, clock) && !OtherHolder(w.held, a, worker, w.held[worker].name, clock);
    }
  }

  /** The release as it is keeps this exactly if nobody else holds the name unexpired. */
  lemma ReleaseSoundExactly(w: World, worker: string, past: Instant, clock: Instant)
    requires Sound(w, clock) && worker in w.held && Nanos(past) < Nanos(clock)
    ensures Sound(Apply(w, Release(worker, past)), clock) <==> !HeldByOther(w.held, worker, w.held[worker].name, clock)
  {
    if other :| OtherHolder(w.held, other, worker, w.held[worker].name, clock) {
      OtherLosesRow(w, worker, other, past, clock);
    } else {
      OthersKeepRows(w, worker, past, clock);
    }
  }

  // ---- with a guard ----------------------------------------------------

  /** A release that backdates the row only if it still carries the worker's own expiry. */
  function GuardedRelease(w: World, worker: string, past: Instant): World
    requires worker in w.held
  {
    var lease := w.held[worker];
    var own := lease.name in w.leases && w.leases[lease.name] == lease.until;
    World(if own then w.leases[lease.name := past] else w.leases, w.held - {worker})
  }

  /** With the guard a release is harmless, however late it comes. */
  lemma GuardedReleaseSound(w: World, worker: string, past: Instant, clock: Instant)
    requires Sound(w, clock) && worker in w.held
    ensures Sound(GuardedRelease(w, worker, past), clock)
  {
    var after := GuardedRelease(w, worker, past);
    forall a | a in after.held ensures OwnsRow(after, a, clock) {
      assert OwnsRow(w, a, clock);
    }
  }

  /** An acquisition at a time that does not clash with the row keeps it too. */
  lemma AcquireSound(w: World, worker: string, name: string, now: Instant, until: Instant, clock: Instant)
    requires Sound(w, clock) && worker !in w.held && Nanos(clock) <= Nanos(now) <= Nanos(until)
    requires name in w.leases ==> !FractionClash(w.leases[name], now)
    ensures Sound(Apply(w, Acquire(worker, name, now, until)), now)
  {
    var after := Apply(w, Acquire(worker, name, now, until));
    forall a | a in after.held ensures OwnsRow(after, a, now)
        && (a != worker && worker in after.held && after.held[a].name == name ==> after.held[a].until != until) {
      if a != worker {
        assert OwnsRow(w, a, clock);
        if w.held[a].name == name && Nanos(now) <= Nanos(w.held[a].until) {
          StolenExactlyInClash(w.leases, name, now);
        }
      }
    }
  }

  datatype GuardedStep =
    | TryAcquire(worker: string, name: string, now: Instant, until: Instant)
    | TryRelease(worker: string, now: Instant, past: Instant)

  function ApplyGuarded(w: World, step: GuardedStep): World {
    match step
    case TryAcquire(worker, name, now, until) => Apply(w, Acquire(worker, name, now, until))
    case TryRelease(worker, _, past) => if worker in w.held then GuardedRelease(w, worker, past) else w
  }

  function RunGuarded(w: World, steps: seq<GuardedStep>): World
    decreases steps
  {
    if steps == [] then w else RunGuarded(ApplyGuarded(w, steps[0]), steps[1..])
  }

  function ClockAfter(clock: Instant, steps: seq<GuardedStep>): Instant {
    if steps == [] then clock else steps[|steps| - 1].now
  }

  /** A lease that is asked for has a future, and its row does not clash with the clock. */
  predicate Unclashed(w: World, step: GuardedStep)
    requires step.TryAcquire?
  {
    && Nanos(step.now) <= Nanos(step.until)
    && (step.name in w.leases ==> !FractionClash(w.leases[step.name], step.now))
  }

  /** Time does not go back, and nobody asks in a clash. */
  ghost predicate Orderly(w: World, steps: seq<GuardedStep>, clock: Instant)
    decreases steps
  {
    steps == [] ||
    (&& Nanos(clock) <= Nanos(steps[0].now)
     && (steps[0].TryAcquire? ==> Unclashed(w, steps[0]))
     && Orderly(ApplyGuarded(w, steps[0]), steps[1..], steps[0].now))
  }

  lemma LaterSound(w: World, clock: Instant, now: Instant)
    requires Sound(w, clock) && Nanos(clock) <= Nanos(now)
    ensures Sound(w, now)
  {
    forall a | a in w.held ensures OwnsRow(w, a, now) {
      assert OwnsRow(w, a, clock);
    }
  }

  /** Guarded, each name has at most one unexpired holder in every run, late releases included. */
  lemma {:induction false} GuardedRunSound(w: World, steps: seq<GuardedStep>, clock: Instant)
    requires Sound(w, clock) && Orderly(w, steps, clock)
    ensures var after, end := RunGuarded(w, steps), ClockAfter(clock, steps);
            Sound(after, end) && forall a, b :: !Share(after, a, b, end)
    decreases steps
  {
    OneUnexpiredHolder(w, clock);
    if steps != [] {
      var step := steps[0];
      LaterSound(w, clock, step.now);
      match step {
        case TryAcquire(worker, name, now, until) =>
          if worker !in w.held {
            AcquireSound(w, worker, name, now, until, now);
          }
        case TryRelease(worker, now, past) =>
          if worker in w.held {
            GuardedReleaseSound(w, worker, past, now);
          }
      }
      GuardedRunSound(ApplyGuarded(w, step), steps[1..], step.now);
    }
  }
}
