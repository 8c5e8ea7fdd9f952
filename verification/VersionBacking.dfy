/** What versioned buckets keep whatever their clocks do: the current object of a key is one of its
    versions. Which requests keep that, exactly, over whole runs. */
module VersionBacking {
  import opened Common
  import opened Timestamps
  import opened VersionOrder
  import opened ObjectIndex
  import opened Objects

  ghost predicate IdsNamed(ix: Index) {
    forall v :: v in ix.versions ==> v.id != ""
  }

  ghost predicate Backed(db: Db) {
    && (forall k :: Versioned(db, k) ==> CurrentIsVersion(db.index, k))
    && IdsNamed(db.index)
  }

  /** A store whose current objects are the newest versions is one of these. */
  lemma ConsistentIsBacked(db: Db)
    requires Consistent(db)
    ensures Backed(db)
  {
    forall k | Versioned(db, k) ensures CurrentIsVersion(db.index, k) {
      IdsNotEmpty(db, k);
      NewestIsVersion(db.index, k);
    }
  }

  // ---- one key ---------------------------------------------------------

  /** Archiving finds the version row of the object there already, or makes its one row. */
  lemma ArchivedVersion(ix: Index, k: Key)
    requires CurrentIsVersion(ix, k)
    ensures forall id :: VersionKey(k, id) in Archive(ix, k).versions
              ==> VersionKey(k, id) in ix.versions || id == "null"
    ensures k in ix.objects && CurrentId(ix, k) != "" ==> Archive(ix, k) == ix
  {}

  lemma OtherKeyBacked(before: Index, after: Index, k: Key, other: Key)
    requires OnlyKey(before, after, k) && other != k && CurrentIsVersion(before, other)
    ensures CurrentIsVersion(after, other)
  {
    assert SameObject(before, after, other);
    if other in after.objects {
      assert SameVersion(before, after, ArchivedKey(after, other));
      forall v | v in after.versions && v.key == other ensures v in before.versions {
        assert SameVersion(before, after, v);
      }
    }
  }

  lemma PutBacked(ix: Index, k: Key, o: NewObject)
    requires CurrentIsVersion(ix, k) && FreshId(ix, k, o.versionId)
    ensures CurrentIsVersion(PutObject(ix, k, true, o), k)
    ensures forall id :: VersionKey(k, id) in PutObject(ix, k, true, o).versions
              ==> VersionKey(k, id) in ix.versions || id == "null" || id == o.versionId
    ensures VersionKey(k, o.versionId) !in Archive(ix, k).versions
  {
    ArchivedVersion(ix, k);
    PutTables(ix, k, o);
  }

  lemma RestoreBacked(ix: Index, k: Key, status: Content -> string)
    requires CurrentIsVersion(ix, k) && IdsNamed(ix)
    ensures CurrentIsVersion(RestoreLatest(ix, k, status), k)
  {}

  lemma DeleteVersionBacked(ix: Index, v: VersionKey, status: Content -> string)
    requires CurrentIsVersion(ix, v.key) && v in ix.versions && IdsNamed(ix)
    ensures CurrentIsVersion(DeleteVersion(ix, v, status), v.key)
  {
    WithoutVersionIsLocal(ix, v);
    var left := WithoutVersion(ix, v);
    if v.key in left.objects {
      assert CurrentId(ix, v.key) != v.id;
      assert VersionKey(v.key, v.id) == v;
    }
    RestoreBacked(left, v.key, status);
  }

  /** With the version gone the key shows a version again, or nothing. */
  lemma ShownAfterDelete(ix: Index, v: VersionKey, status: Content -> string)
    requires CurrentIsVersion(ix, v.key) && v in ix.versions && IdsNamed(ix)
    ensures var after := DeleteVersion(ix, v, status);
            v.key in after.objects ==> ArchivedKey(after, v.key) in after.versions
  {
    WithoutVersionIsLocal(ix, v);
    DeleteVersionBacked(ix, v, status);
    var left := WithoutVersion(ix, v);
    if v.key in left.objects {
      assert CurrentId(left, v.key) != "";
    }
  }

  lemma UpdateBacked(ix: Index, k: Key, id: string, wanted: Protection, bypass: bool, now: Instant)
    requires CurrentIsVersion(ix, k) && VersionKey(k, "") !in ix.versions
    ensures CurrentIsVersion(UpdateProtection(ix, k, id, wanted, bypass, now), k)
  {
    UpdateIsLocal(ix, k, id, wanted, bypass, now);
  }

  // ---- one request -----------------------------------------------------

  /** A step on one key leaves all keys backed exactly if it leaves that one so. */
  lemma OneKeyBacked(db: Db, after: Db, k: Key)
    requires Backed(db) && OnlyKey(db.index, after.index, k)
    requires forall j :: Versioned(after, j) ==> Versioned(db, j)
    requires forall id :: VersionKey(k, id) in after.index.versions ==> id != ""
    ensures Backed(after) <==> (Versioned(after, k) ==> CurrentIsVersion(after.index, k))
  {
    forall j | Versioned(after, j) && j != k ensures CurrentIsVersion(after.index, j) {
      OtherKeyBacked(db.index, after.index, k, j);
    }
    forall v | v in after.index.versions ensures v.id != "" {
      assert v == VersionKey(v.key, v.id);
      if v.key != k {
        assert SameVersion(db.index, after.index, v);
      }
    }
  }

  lemma PutStepBacked(db: Db, input: PutInput)
    requires Backed(db) && Drawn(db, PutStep(input))
    ensures Backed(Put(db, input))
  {
    var ensured := EnsureBucket(db, input.key.bucket);
    if PutAccepted(ensured, input) {
      var b := ensured.buckets[input.key.bucket];
      PutIsLocal(db.index, input.key, b.versioning, NewObjectOf(b, input));
      if b.versioning {
        PutBacked(db.index, input.key, NewObjectOf(b, input));
      }
      OneKeyBacked(db, Put(db, input), input.key);
    }
  }

  lemma VersionDeleteStepBacked(db: Db, input: DeleteInput)
    requires Backed(db) && input.versionId != "" && input.key.bucket in db.buckets
    ensures Backed(Delete(db, input))
  {
    var ix, bucket, v := db.index, db.buckets[input.key.bucket], VersionKey(input.key, input.versionId);
    if v in ix.versions && VersionDeletable(ix, v, input) {
      DeleteVersionIsLocal(ix, v, StatusIn(bucket));
      if bucket.versioning {
        DeleteVersionBacked(ix, v, StatusIn(bucket));
      }
      OneKeyBacked(db, Delete(db, input), v.key);
    }
  }

  lemma ObjectDeleteIndexBacked(db: Db, bucket: Bucket, input: DeleteInput)
    requires Backed(db) && Drawn(db, DeleteStep(input)) && input.versionId == ""
    requires input.key.bucket in db.buckets && bucket == db.buckets[input.key.bucket]
    ensures var k, after := input.key, DeleteObject(db, bucket, input).index;
            && OnlyKey(db.index, after, k)
            && (bucket.versioning ==> CurrentIsVersion(after, k))
            && forall id :: VersionKey(k, id) in after.versions ==> id != ""
  {
    var k, ix := input.key, db.index;
    if k in ix.objects && !Locked(Hydrated(ix, k).protection, input.bypass, input.now) {
      if bucket.versioning && !input.permanent {
        MarkerIsLocal(ix, k, input.markerId, Format(input.now));
        ArchivedVersion(ix, k);
      } else {
        DropIsLocal(ix, k);
      }
    }
  }

  lemma DeleteStepBacked(db: Db, input: DeleteInput)
    requires Backed(db) && Drawn(db, DeleteStep(input))
    ensures Backed(Delete(db, input))
  {
    if input.key.bucket in db.buckets {
      if input.versionId != "" {
        VersionDeleteStepBacked(db, input);
      } else {
        ObjectDeleteIndexBacked(db, db.buckets[input.key.bucket], input);
        OneKeyBacked(db, Delete(db, input), input.key);
      }
    }
  }

  lemma UpdateStepBacked(db: Db, k: Key, id: string, wanted: Protection, bypass: bool, now: Instant)
    requires Backed(db)
    ensures Backed(db.(index := UpdateProtection(db.index, k, id, wanted, bypass, now)))
  {
    UpdateIsLocal(db.index, k, id, wanted, bypass, now);
    if Versioned(db, k) {
      UpdateBacked(db.index, k, id, wanted, bypass, now);
    }
    OneKeyBacked(db, db.(index := UpdateProtection(db.index, k, id, wanted, bypass, now)), k);
  }

  lemma RestoreTrashBacked(db: Db, id: string)
    requires Backed(db)
    ensures Backed(RestoreTrash(db, id)) <==> KeepsVersions(db, RestoreTrashStep(id))
  {
    if Recoverable(db, id) {
      var t := db.books.trash[id];
      RestoreTrashIsLocal(db.index, t);
      OneKeyBacked(db, RestoreTrash(db, id), t.key);
    }
  }

  lemma MoveIsLocal(ix: Index, k: Key, content: Content)
    requires k in ix.objects
    ensures OnlyKey(ix, MoveIndex(ix, k, content), k)
  {}

  lemma MigrateBacked(db: Db, k: Key, move: bool, stored: Option<Content>, down: set<string>)
    requires Backed(db)
    ensures Backed(Migrate(db, k, move, stored, down)) <==> KeepsVersions(db, MigrateStep(k, move, stored, down))
  {
    if Migrates(db, k, stored) && move {
      MoveIsLocal(db.index, k, stored.value);
      OneKeyBacked(db, Migrate(db, k, move, stored, down), k);
    }
  }

  /** Every request, exactly: whatever the clock says, the current objects of versioned buckets stay
      versions of their keys unless trash is restored over versions or a version's bytes are moved. */
  lemma StepBacked(db: Db, step: Step)
    requires Backed(db) && Drawn(db, step)
    ensures Backed(Apply(db, step)) <==> KeepsVersions(db, step)
  {
    match step
    case PutStep(input) => PutStepBacked(db, input);
    case DeleteStep(input) => DeleteStepBacked(db, input);
    case RetentionStep(k, id, mode, until, bypass, now) =>
      if Exists(db.index, k, id) {
        var read := Protected(db.index, k, id);
        UpdateStepBacked(db, k, read.versionId, WithRetention(read.protection, mode, until), bypass, now);
      }
    case HoldStep(k, id, on, now) =>
      if Exists(db.index, k, id) {
        var read := Protected(db.index, k, id);
        UpdateStepBacked(db, k, read.versionId, read.protection.(hold := on), false, now);
      }
    case RestoreTrashStep(id) => RestoreTrashBacked(db, id);
    case PurgeTrashStep(id, down) => SameIndexBacked(db, PurgeTrash(db, id, down));
    case MigrateStep(k, move, stored, down) => MigrateBacked(db, k, move, stored, down);
    case TurnReplicaStep(k, provider, running) => SameIndexBacked(db, TurnReplica(db, k, provider, running));
    case ReplicateStep(k, provider, run, last) => SameIndexBacked(db, Replicate(db, k, provider, run, last));
  }

  lemma SameIndexBacked(db: Db, after: Db)
    requires Backed(db) && after.index == db.index && after.buckets == db.buckets
    ensures Backed(after)
  {}

  ghost predicate RunKeepsVersions(db: Db, steps: seq<Step>)
    decreases steps
  {
    steps == []
    || (Drawn(db, steps[0]) && KeepsVersions(db, steps[0]) && RunKeepsVersions(Apply(db, steps[0]), steps[1..]))
  }

  /** Over every run, with clocks that clash or step back: the current object of a versioned key is
      one of its versions with the same content and protection. */
  lemma {:induction false} CurrentIsAlwaysVersion(db: Db, steps: seq<Step>)
    requires Backed(db) && RunKeepsVersions(db, steps)
    ensures Backed(Run(db, steps))
    decreases steps
  {
    if steps != [] {
      StepBacked(db, steps[0]);
      CurrentIsAlwaysVersion(Apply(db, steps[0]), steps[1..]);
    }
  }
}
