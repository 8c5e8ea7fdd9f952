/** What the tables of a store always look like: versions only in versioned buckets, replicas only of
    current objects, and current objects that are versions of their keys. */
module StoreShape {
  import opened Common
  import opened Timestamps
  import opened VersionOrder
  import opened ObjectIndex
  import opened Objects
  import opened VersionBacking

  /** Replica rows with bytes or a place belong to objects that are there. */
  ghost predicate Owned(b: Books, ix: Index) {
    forall r :: r in b.replicas && (b.replicas[r].size > 0 || b.replicas[r].location.remoteKey != "")
      ==> r.key in ix.objects
  }

  ghost predicate Shape(db: Db) {
    (forall v :: v in db.index.versions ==> Versioned(db, v.key)) && Owned(db.books, db.index)
  }

  ghost predicate Tidy(db: Db) {
    Backed(db) && Shape(db)
  }

  lemma EnqueueOwned(b: Books, ix: Index, k: Key, bucket: Bucket, content: Content)
    requires Owned(b, ix) && k in ix.objects
    ensures Owned(EnqueueAll(b, k, bucket, content), ix)
    ensures EnqueueAll(b, k, bucket, content).used == b.used
  {}

  /** With the key's replicas dropped, only the other keys' objects matter. */
  lemma DropOwned(b: Books, before: Index, after: Index, k: Key, down: set<string>)
    requires Owned(b, before) && forall j :: j in before.objects && j != k ==> j in after.objects
    ensures Owned(DropReplicas(b, k, down), after)
    ensures DropReplicas(b, k, down).used.Keys == b.used.Keys
  {}

  lemma PutBooksShape(b: Books, before: Index, after: Index, k: Key, bucket: Bucket, content: Content,
                      down: set<string>)
    requires Owned(b, before) && k in after.objects && forall j :: j in before.objects ==> j in after.objects
    ensures Owned(PutBooks(b, before, k, bucket, content, down), after)
    ensures PutBooks(b, before, k, bucket, content, down).used.Keys == b.used.Keys
  {
    var charged := Charged(b, before, k, bucket, content);
    if k !in before.objects {
      EnqueueOwned(charged, after, k, bucket, content);
    } else {
      DropOwned(charged, before, after, k, down);
      EnqueueOwned(DropReplicas(charged, k, down), after, k, bucket, content);
    }
  }

  lemma PutKeepsObjects(ix: Index, k: Key, versioning: bool, o: NewObject)
    ensures PutObject(ix, k, versioning, o).objects.Keys == ix.objects.Keys + {k}
  {}

  lemma PutShape(db: Db, input: PutInput)
    requires Shape(db)
    ensures Shape(Put(db, input)) && Put(db, input).books.used.Keys == db.books.used.Keys
  {
    var ensured := EnsureBucket(db, input.key.bucket);
    if PutAccepted(ensured, input) {
      var bucket := ensured.buckets[input.key.bucket];
      var o := NewObjectOf(bucket, input);
      PutIsLocal(db.index, input.key, bucket.versioning, o);
      PutKeepsObjects(db.index, input.key, bucket.versioning, o);
      PutBooksShape(db.books, db.index, Put(db, input).index, input.key, bucket, o.content, input.down);
      forall v | v in Put(db, input).index.versions ensures Versioned(Put(db, input), v.key) {
        if v.key != input.key {
          assert SameVersion(db.index, Put(db, input).index, v);
        }
      }
    }
  }

  /** Restoring queues the replicas of the object it brings back. */
  lemma RestoreOwned(b: Books, ix: Index, k: Key, bucket: Bucket)
    requires Owned(b, ix)
    ensures Owned(RestoreBooks(b, ix, k, bucket), RestoreLatest(ix, k, StatusIn(bucket)))
    ensures RestoreBooks(b, ix, k, bucket).used == b.used
  {
    var id := Restorable(ix, k);
    if id.Some? {
      EnqueueOwned(b, RestoreLatest(ix, k, StatusIn(bucket)), k, bucket, ix.versions[VersionKey(k, id.value)].content);
    }
  }

  lemma VersionBooksShape(b: Books, ix: Index, v: VersionKey, bucket: Bucket, down: set<string>)
    requires Owned(b, ix) && v in ix.versions
    ensures Owned(DeleteVersionBooks(b, ix, v, bucket, down), DeleteVersion(ix, v, StatusIn(bucket)))
    ensures DeleteVersionBooks(b, ix, v, bucket, down).used.Keys == b.used.Keys
  {
    var left, row := WithoutVersion(ix, v), ix.versions[v];
    if row.isMarker {
      RestoreOwned(b, left, v.key, bucket);
    } else {
      var issued := Issue(b, row.content.location);
      DropOwned(issued, ix, left, v.key, down);
      RestoreOwned(DropReplicas(issued, v.key, down), left, v.key, bucket);
    }
  }

  lemma DeleteShape(db: Db, input: DeleteInput)
    requires Shape(db)
    ensures Shape(Delete(db, input)) && Delete(db, input).books.used.Keys == db.books.used.Keys
  {
    var k, ix := input.key, db.index;
    if k.bucket in db.buckets {
      var bucket := db.buckets[k.bucket];
      if input.versionId != "" {
        var v := VersionKey(k, input.versionId);
        if v in ix.versions && VersionDeletable(ix, v, input) {
          DeleteVersionIsLocal(ix, v, StatusIn(bucket));
          VersionBooksShape(db.books, ix, v, bucket, input.down);
        }
      } else if k in ix.objects {
        ObjectDeleteShape(db, bucket, input);
      }
    }
  }

  lemma ObjectDeleteVersions(db: Db, bucket: Bucket, input: DeleteInput, v: VersionKey)
    requires v in DeleteObject(db, bucket, input).index.versions
    ensures v in db.index.versions || (v.key == input.key && bucket.versioning)
  {}

  lemma ObjectDeleteOwned(db: Db, bucket: Bucket, input: DeleteInput)
    requires Owned(db.books, db.index)
    ensures var after := DeleteObject(db, bucket, input);
            Owned(after.books, after.index) && after.books.used.Keys == db.books.used.Keys
  {
    if input.key in db.index.objects && !Locked(Hydrated(db.index, input.key).protection, input.bypass, input.now) {
      DropOwned(db.books, db.index, DeleteObject(db, bucket, input).index, input.key, input.down);
    }
  }

  lemma ObjectDeleteShape(db: Db, bucket: Bucket, input: DeleteInput)
    requires Shape(db) && input.key.bucket in db.buckets && bucket == db.buckets[input.key.bucket]
    ensures Shape(DeleteObject(db, bucket, input))
        && DeleteObject(db, bucket, input).books.used.Keys == db.books.used.Keys
  {
    var after := DeleteObject(db, bucket, input);
    ObjectDeleteOwned(db, bucket, input);
    forall v | v in after.index.versions ensures Versioned(after, v.key) {
      ObjectDeleteVersions(db, bucket, input, v);
    }
  }

  lemma UpdateShape(db: Db, k: Key, id: string, wanted: Protection, bypass: bool, now: Instant)
    requires Shape(db)
    ensures Shape(db.(index := UpdateProtection(db.index, k, id, wanted, bypass, now)))
  {
    UpdateIsLocal(db.index, k, id, wanted, bypass, now);
  }

  lemma LockStepShape(db: Db, step: Step)
    requires Shape(db) && (step.RetentionStep? || step.HoldStep?)
    ensures Shape(Apply(db, step)) && Apply(db, step).books == db.books
  {
    if LockEnabled(db, step.key) && Exists(db.index, step.key, step.id) {
      var read := Protected(db.index, step.key, step.id);
      if step.HoldStep? {
        UpdateShape(db, step.key, read.versionId, read.protection.(hold := step.on), false, step.now);
      } else {
        UpdateShape(db, step.key, read.versionId, WithRetention(read.protection, step.mode, step.until), step.bypass,
                    step.now);
      }
    }
  }

  lemma RestoreTrashShape(db: Db, id: string)
    requires Shape(db)
    ensures Shape(RestoreTrash(db, id)) && RestoreTrash(db, id).books.used == db.books.used
  {}

  lemma PurgeTrashShape(db: Db, id: string, down: set<string>)
    requires Shape(db)
    ensures Shape(PurgeTrash(db, id, down)) && PurgeTrash(db, id, down).books.used.Keys == db.books.used.Keys
  {}

  lemma MigrateShape(db: Db, k: Key, move: bool, stored: Option<Content>, down: set<string>)
    requires Shape(db)
    ensures Shape(Migrate(db, k, move, stored, down))
    ensures Migrate(db, k, move, stored, down).books.used.Keys == db.books.used.Keys
  {}

  lemma TurnReplicaShape(db: Db, k: Key, provider: string, running: bool)
    requires Shape(db)
    ensures Shape(TurnReplica(db, k, provider, running))
    ensures TurnReplica(db, k, provider, running).books.used == db.books.used
  {}

  lemma ReplicateShape(db: Db, k: Key, provider: string, run: ReplicaRun, last: bool)
    requires Shape(db)
    ensures Shape(Replicate(db, k, provider, run, last))
    ensures Replicate(db, k, provider, run, last).books.used.Keys == db.books.used.Keys
  {}

  lemma StepShape(db: Db, step: Step)
    requires Shape(db)
    ensures Shape(Apply(db, step)) && Apply(db, step).books.used.Keys == db.books.used.Keys
  {
    match step
    case PutStep(input) => PutShape(db, input);
    case DeleteStep(input) => DeleteShape(db, input);
    case RetentionStep(_, _, _, _, _, _) => LockStepShape(db, step);
    case HoldStep(_, _, _, _) => LockStepShape(db, step);
    case RestoreTrashStep(id) => RestoreTrashShape(db, id);
    case PurgeTrashStep(id, down) => PurgeTrashShape(db, id, down);
    case MigrateStep(k, move, stored, down) => MigrateShape(db, k, move, stored, down);
    case TurnReplicaStep(k, provider, running) => TurnReplicaShape(db, k, provider, running);
    case ReplicateStep(k, provider, run, last) => ReplicateShape(db, k, provider, run, last);
  }

  /** Every request keeps the tables in this shape, exactly if it keeps versions behind objects. */
  lemma StepTidy(db: Db, step: Step)
    requires Tidy(db) && Drawn(db, step)
    ensures Tidy(Apply(db, step)) <==> KeepsVersions(db, step)
    ensures Apply(db, step).books.used.Keys == db.books.used.Keys
  {
    StepBacked(db, step);
    StepShape(db, step);
  }
}
