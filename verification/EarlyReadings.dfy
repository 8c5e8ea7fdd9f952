/** What else is due by the text of a time: expired reservations, due trash, due jobs. Each is taken
    before its time exactly in a fraction clash. */
module EarlyReadings {
  import opened Timestamps
  import Ledger
  import Objects
  import WorkQueue
  import Text

  /** A reservation that has not expired is recovered exactly in a clash with the cutoff. */
  lemma ReservationExactly(db: Ledger.Db, id: string, expires: Instant, cutoff: Instant)
    requires id in db.reservations && db.reservations[id].expiresAt == Format(expires)
    requires Nanos(cutoff) < Nanos(expires)
    ensures id !in Ledger.Recover(db, Format(cutoff)).reservations <==> FractionClash(expires, cutoff)
  {
    ReachedExactlyInClash(expires, cutoff);
  }

  /** The upload that holds it then cannot commit, whatever happens in between. */
  lemma EarlyRecoveryFailsCommit(db: Ledger.Db, id: string, expires: Instant, cutoff: Instant,
                                 steps: seq<Ledger.Step>, actual: int)
    requires id in db.reservations && db.reservations[id].expiresAt == Format(expires)
    requires Nanos(cutoff) < Nanos(expires) && FractionClash(expires, cutoff) && Ledger.NeverReserves(steps, id)
    ensures var later := Ledger.Run(Ledger.Recover(db, Format(cutoff)), steps);
            !Ledger.Live(later, id) && Ledger.Commit(later, id, actual) == later
  {
    ReservationExactly(db, id, expires, cutoff);
    Ledger.DeadStaysDead(Ledger.Recover(db, Format(cutoff)), steps, id);
  }

  function DueTrash(b: Objects.Books, now: string): set<string> {
    set id | id in b.trash && Text.AtMost(b.trash[id].purgeAfter, now)
  }

  /** A trash row is listed for purging before its time exactly in a clash with the clock. */
  lemma TrashExactly(b: Objects.Books, id: string, purgeAfter: Instant, now: Instant)
    requires id in b.trash && b.trash[id].purgeAfter == Format(purgeAfter) && Nanos(now) < Nanos(purgeAfter)
    ensures id in DueTrash(b, Format(now)) <==> FractionClash(purgeAfter, now)
  {
    ReachedExactlyInClash(purgeAfter, now);
  }

  /** A job is listed before its time exactly in a clash with the clock. */
  lemma JobExactly(j: WorkQueue.Job, now: Instant)
    requires j.status == WorkQueue.Pending && Nanos(now) < Nanos(j.nextAttemptAt)
    ensures WorkQueue.Due(j, now) <==> FractionClash(j.nextAttemptAt, now)
  {
    ReachedExactlyInClash(j.nextAttemptAt, now);
  }
}
