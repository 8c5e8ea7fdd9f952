/** Usage conservation over whole runs: each provider's counter stays the bytes of its current objects,
    versions, trash and replicas, whatever clocks do. */
module UsageConservation {
  import opened Common
  import opened Timestamps
  import opened VersionOrder
  import opened ObjectIndex
  import opened Objects
  import opened VersionBacking
  import opened StoreShape
  import opened Usage
  import opened UsageExactness

  ghost predicate Ready(db: Db) {
    Tidy(db) && Balanced(db)
  }

  /** One request, for all providers at once. */
  lemma StepBalancedExactly(db: Db, step: Step)
    requires Ready(db) && Drawn(db, step)
    ensures Balanced(Apply(db, step)) <==> forall p :: p in db.books.used ==> Counts(db, step, p)
  {
    var after := Apply(db, step);
    StepShape(db, step);
    forall p | p in db.books.used ensures Accounted(after, p) <==> Counts(db, step, p) {
      StepExactly(db, step, p);
    }
    forall p | p in after.books.used ensures after.books.used[p] == Stored(after, p) <==> Accounted(after, p) {}
  }

  ghost predicate RunCounts(db: Db, steps: seq<Step>)
    decreases steps
  {
    steps == []
    || (Drawn(db, steps[0]) && KeepsVersions(db, steps[0])
        && (forall p :: p in db.books.used ==> Counts(db, steps[0], p)) && RunCounts(Apply(db, steps[0]), steps[1..]))
  }

  /** Over every run of requests that count, every counter stays exactly the bytes stored, so no charge
      taken off is ever clamped. */
  lemma {:induction false} UsageStaysExact(db: Db, steps: seq<Step>)
    requires Ready(db) && RunCounts(db, steps)
    ensures Ready(Run(db, steps))
    decreases steps
  {
    if steps != [] {
      StepTidy(db, steps[0]);
      StepBalancedExactly(db, steps[0]);
      UsageStaysExact(Apply(db, steps[0]), steps[1..]);
    }
  }

  /** A store without rows, and with counters at zero, is where such runs can start. */
  lemma EmptyIsReady(db: Db)
    requires db.index == Index(map[], map[], map[]) && db.books.trash == map[] && db.books.replicas == map[]
    requires forall p :: p in db.books.used ==> db.books.used[p] == 0
    ensures Ready(db)
  {
    forall p | p in db.books.used ensures Stored(db, p) == 0 {
      assert ObjectBytes(db.index, p) == map[] && VersionBytes(db.index.versions, p) == map[];
      assert TrashBytes(db.books, p) == map[] && ReplicaBytes(db.books, p) == map[];
    }
  }

  // ---- requests that succeed -------------------------------------------

  /** Every replica row of the key was stored, or is empty: what dropping the rows relies on. */
  ghost predicate Settled(b: Books, k: Key) {
    forall r :: r in b.replicas && r.key == k && b.replicas[r].size > 0 ==> b.replicas[r].status == "succeeded"
  }

  /** No replica row of the key is charged: what queueing the key again relies on. */
  ghost predicate Uncharged(b: Books, k: Key) {
    forall r :: r in b.replicas && r.key == k && b.replicas[r].status == "succeeded" ==> b.replicas[r].size == 0
  }

  /** What a delete needs of the key's replicas: removing a delete marker queues them again, deleting
      the shown version or the current object drops them. */
  ghost predicate ReplicasReady(db: Db, input: DeleteInput) {
    var v := VersionKey(input.key, input.versionId);
    if input.versionId == "" then Settled(db.books, input.key)
    else if v !in db.index.versions then true
    else if db.index.versions[v].isMarker then Uncharged(db.books, input.key)
    else Restores(db.index, v) ==> Settled(db.books, input.key)
  }

  /** Adapter calls succeed, no request meets a replica in between, and no version row is left behind
      by a delete for good or by a move. */
  ghost predicate Succeeds(db: Db, step: Step) {
    match step
    case PutStep(input) => input.down == {} && Settled(db.books, input.key)
    case DeleteStep(input) =>
        && input.down == {} && ReplicasReady(db, input)
        && (input.versionId == "" && input.permanent ==> ArchivedKey(db.index, input.key) !in db.index.versions)
    case MigrateStep(k, move, _, down) => move ==> down == {} && ArchivedKey(db.index, k) !in db.index.versions
    case ReplicateStep(k, provider, _, _) => ReplicaCharge(db.books, ReplicaKey(k, provider), provider) == 0
    case _ => true
  }

  lemma SettledDrop(b: Books, k: Key, p: string, due: int)
    requires p in b.used && Settled(b, k)
    ensures DropIsExact(b, k, {}, p, due)
  {}

  lemma DeleteSucceeds(db: Db, input: DeleteInput, p: string)
    requires Tidy(db) && Accounted(db, p) && Succeeds(db, DeleteStep(input)) && input.key.bucket in db.buckets
    ensures Counts(db, DeleteStep(input), p)
  {
    var k, v := input.key, VersionKey(input.key, input.versionId);
    if input.versionId == "" {
      SettledDrop(db.books, k, p, 0);
      if k in db.index.objects {
        SettledDrop(db.books, k, p, At(db.index.objects[k].content, p));
        if ArchivedKey(db.index, k) in db.index.versions {
          assert Versioned(db, k);
        }
      }
    } else if v in db.index.versions && !db.index.versions[v].isMarker && Restores(db.index, v) {
      SettledDrop(db.books, k, p, At(db.index.versions[v].content, p));
    }
  }

  lemma SucceedsCounts(db: Db, step: Step, p: string)
    requires Tidy(db) && Accounted(db, p) && Succeeds(db, step) && KeepsVersions(db, step)
    ensures Counts(db, step, p)
  {
    match step
    case PutStep(input) =>
      var ensured := EnsureBucket(db, input.key.bucket);
      if PutAccepted(ensured, input) {
        SettledDrop(Charged(db.books, db.index, input.key, ensured.buckets[input.key.bucket], input.stored.value),
                    input.key, p, 0);
      }
    case DeleteStep(input) => if input.key.bucket in db.buckets { DeleteSucceeds(db, input, p); }
    case RestoreTrashStep(id) =>
      if Recoverable(db, id) {
        assert Versioned(db, db.books.trash[id].key) || NoVersions(db.index, db.books.trash[id].key);
      }
    case _ =>
  }

  ghost predicate RunSucceeds(db: Db, steps: seq<Step>)
    decreases steps
  {
    steps == []
    || (Drawn(db, steps[0]) && KeepsVersions(db, steps[0]) && Succeeds(db, steps[0])
        && RunSucceeds(Apply(db, steps[0]), steps[1..]))
  }

  /** Usage conservation over every run of requests that succeed. */
  lemma {:induction false} UsageConserved(db: Db, steps: seq<Step>)
    requires Ready(db) && RunSucceeds(db, steps)
    ensures RunCounts(db, steps) && Ready(Run(db, steps))
    decreases steps
  {
    if steps != [] {
      forall p | p in db.books.used ensures Counts(db, steps[0], p) {
        SucceedsCounts(db, steps[0], p);
      }
      StepTidy(db, steps[0]);
      StepBalancedExactly(db, steps[0]);
      UsageConserved(Apply(db, steps[0]), steps[1..]);
    }
  }
}
