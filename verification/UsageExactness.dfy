/** Usage counters, exactly: for every request, the condition under which each provider's counter is
    still the bytes its rows store. */
module UsageExactness {
  import opened Common
  import opened Timestamps
  import opened VersionOrder
  import opened ObjectIndex
  import opened Objects
  import opened VersionBacking
  import opened StoreShape
  import opened Usage
  import Sums

  // ---- dropping and queueing replicas ----------------------------------

  /** The key's replica at p is none, empty, or charged exactly if its provider is there to
      uncharge it; or the counter has nothing left to lose beyond the `due` bytes. */
  predicate DropIsExact(b: Books, k: Key, down: set<string>, p: string, due: int)
    requires p in b.used
  {
    var r := ReplicaKey(k, p);
    || r !in b.replicas || b.replicas[r].size == 0
    || (b.replicas[r].status == "succeeded" <==> p !in down)
    || (p !in down && b.used[p] == due)
  }

  /** Dropping a key's replicas keeps the counter of p right exactly under that condition. */
  lemma DropReplicasExact(b: Books, k: Key, down: set<string>, p: string)
    requires Covered(b, p)
    ensures p in DropReplicas(b, k, down).used
    ensures IndexShare(DropReplicas(b, k, down), p) == IndexShare(b, p) <==> DropIsExact(b, k, down, p, 0)
  {
    BooksNonNegative(b, p);
    ReplicaDropTotal(b, k, down, p);
    assert ReplicaCharge(b, ReplicaKey(k, p), p) <= Sums.Total(ReplicaBytes(b, p));
  }

  /** Queueing a key again keeps it right exactly if that forgets no charged replica at p. */
  lemma EnqueueExact(b: Books, k: Key, bucket: Bucket, content: Content, p: string)
    requires p in b.used
    ensures IndexShare(EnqueueAll(b, k, bucket, content), p) == IndexShare(b, p)
       <==> p !in Targets(bucket, content.location.provider) || ReplicaCharge(b, ReplicaKey(k, p), p) == 0
  {
    EnqueueTotal(b, k, bucket, content, p);
  }

  // ---- put -------------------------------------------------------------

  /** The id drawn for a new version is free even after the unversioned object is archived. */
  lemma PutRoom(db: Db, input: PutInput, bucket: Bucket)
    requires Tidy(db) && Drawn(db, PutStep(input)) && input.stored.Some?
    requires EnsureBucket(db, input.key.bucket).buckets[input.key.bucket] == bucket
    ensures bucket.versioning ==> (VersionKey(input.key, input.versionId) !in Archive(db.index, input.key).versions
        && input.versionId != "")
    ensures !bucket.versioning ==> NoVersions(db.index, input.key)
  {
    if bucket.versioning {
      PutBacked(db.index, input.key, NewObjectOf(bucket, input));
    }
  }

  /** The bytes a put replaces in the index. */
  function Replaced(ix: Index, k: Key, bucket: Bucket, p: string): int {
    if k in ix.objects && !bucket.versioning then At(ix.objects[k].content, p) else 0
  }

  /** An overwrite drops the replicas of the object before, after charging the new one. */
  predicate PutIsExact(b: Books, ix: Index, k: Key, bucket: Bucket, content: Content, down: set<string>, p: string)
    requires p in b.used
  {
    k in ix.objects ==> DropIsExact(Charged(b, ix, k, bucket, content), k, down, p, 0)
  }

  lemma PutBooksExact(b: Books, ix: Index, k: Key, bucket: Bucket, content: Content, down: set<string>, p: string)
    requires Covered(b, p) && Owned(b, ix) && IndexShare(b, p) >= Replaced(ix, k, bucket, p)
    ensures p in PutBooks(b, ix, k, bucket, content, down).used
    ensures IndexShare(PutBooks(b, ix, k, bucket, content, down), p)
            == IndexShare(b, p) + At(content, p) - Replaced(ix, k, bucket, p)
       <==> PutIsExact(b, ix, k, bucket, content, down, p)
  {
    var charged := Charged(b, ix, k, bucket, content);
    ChargedShare(b, ix, k, bucket, content, p);
    if k in ix.objects {
      DropReplicasExact(charged, k, down, p);
      EnqueueTotalFresh(DropReplicas(charged, k, down), k, bucket, content, p);
    } else {
      EnqueueTotalFresh(charged, k, bucket, content, p);
    }
  }

  lemma OverwrittenTables(db: Db, input: PutInput)
    requires input.key.bucket in db.buckets && PutAccepted(db, input)
    ensures var bucket := db.buckets[input.key.bucket];
            Put(db, input) == Db(db.buckets,
                                 PutObject(db.index, input.key, bucket.versioning, NewObjectOf(bucket, input)),
                                 PutBooks(db.books, db.index, input.key, bucket, input.stored.value, input.down))
  {}

  lemma PutExact(db: Db, input: PutInput, p: string)
    requires Tidy(db) && Accounted(db, p) && Drawn(db, PutStep(input))
    requires input.key.bucket in db.buckets && PutAccepted(db, input)
    ensures Accounted(Put(db, input), p)
       <==> PutIsExact(db.books, db.index, input.key, db.buckets[input.key.bucket], input.stored.value, input.down, p)
  {
    var bucket := db.buckets[input.key.bucket];
    PutRoom(db, input, bucket);
    ShareOf(db, p);
    PutIndexTotal(db.index, input.key, bucket.versioning, NewObjectOf(bucket, input), p);
    PutBooksExact(db.books, db.index, input.key, bucket, input.stored.value, input.down, p);
    OverwrittenTables(db, input);
    ShareDecides(Put(db, input), p);
  }

  // ---- delete ----------------------------------------------------------

  /** The current object is there to delete. */
  predicate Deletable(db: Db, input: DeleteInput) {
    && input.versionId == "" && input.key.bucket in db.buckets && input.key in db.index.objects
    && !Locked(Hydrated(db.index, input.key).protection, input.bypass, input.now)
  }

  function DeletedBooks(b: Books, k: Key, content: Content, down: set<string>): Books {
    Uncharge(DropReplicas(Issue(b, content.location), k, down), content.location.provider, content.size)
  }

  /** What the counter and the books come to. */
  lemma DeletedBooksValue(b: Books, k: Key, content: Content, down: set<string>, p: string)
    requires Covered(b, p)
    ensures var r, after := ReplicaKey(k, p), DeletedBooks(b, k, content, down);
            var lost := if r in b.replicas && p !in down then b.replicas[r].size else 0;
            && p in after.used && after.used[p] == Max(Max(b.used[p] - lost, 0) - At(content, p), 0)
            && BooksTotal(after, p) == BooksTotal(b, p) - ReplicaCharge(b, r, p)
    ensures ReplicaCharge(b, ReplicaKey(k, p), p) <= BooksTotal(b, p) <= b.used[p]
  {
    var issued := Issue(b, content.location);
    var dropped := DropReplicas(issued, k, down);
    BooksNonNegative(b, p);
    SameRows(b, issued, p);
    ReplicaDropTotal(issued, k, down, p);
    SameRows(dropped, DeletedBooks(b, k, content, down), p);
    assert ReplicaCharge(b, ReplicaKey(k, p), p) <= Sums.Total(ReplicaBytes(b, p));
  }

  lemma DeletedBooksExact(b: Books, k: Key, content: Content, down: set<string>, p: string)
    requires Covered(b, p) && IndexShare(b, p) >= At(content, p)
    ensures p in DeletedBooks(b, k, content, down).used
    ensures IndexShare(DeletedBooks(b, k, content, down), p) == IndexShare(b, p) - At(content, p)
       <==> DropIsExact(b, k, down, p, At(content, p))
  {
    DeletedBooksValue(b, k, content, down, p);
  }

  /** An immediate delete takes the object's bytes off once its provider is reached. If a version row
      still counts them that is wrong by those bytes, and no unfinished replica can make up for it. */
  predicate DeleteIsExact(b: Books, ix: Index, k: Key, down: set<string>, p: string)
    requires p in b.used && k in ix.objects
  {
    var content := ix.objects[k].content;
    || content.location.provider in down
    || if ArchivedKey(ix, k) in ix.versions then At(content, p) == 0 && DropIsExact(b, k, down, p, 0)
       else DropIsExact(b, k, down, p, At(content, p))
  }

  /** Taking bytes off twice cannot be exact. */
  lemma KeptBooksExact(b: Books, k: Key, content: Content, down: set<string>, p: string)
    requires Covered(b, p) && IndexShare(b, p) >= At(content, p) && content.location.provider !in down
    ensures p in DeletedBooks(b, k, content, down).used
    ensures IndexShare(DeletedBooks(b, k, content, down), p) == IndexShare(b, p)
       <==> At(content, p) == 0 && DropIsExact(b, k, down, p, 0)
  {
    DeletedBooksValue(b, k, content, down, p);
  }

  lemma DeletedTables(db: Db, input: DeleteInput)
    requires Deletable(db, input) && db.index.objects[input.key].content.location.provider !in input.down
    requires input.permanent || !(db.buckets[input.key.bucket].versioning || db.buckets[input.key.bucket].trash)
    ensures Delete(db, input) == Db(db.buckets, DropObject(db.index, input.key),
                                    DeletedBooks(db.books, input.key, db.index.objects[input.key].content, input.down))
  {}

  /** A refused or failed delete changes no row. */
  lemma SameTables(db: Db, after: Db, p: string)
    requires p in db.books.used && after.index == db.index && after.books.used == db.books.used
    requires after.books.trash == db.books.trash && after.books.replicas == db.books.replicas
    ensures Accounted(after, p) <==> Accounted(db, p)
  {
    SameRows(db.books, after.books, p);
  }

  /** An immediate delete, of an object with or without a version row. */
  lemma DeleteExact(db: Db, input: DeleteInput, p: string)
    requires Tidy(db) && Accounted(db, p) && Deletable(db, input)
    requires input.permanent || !(db.buckets[input.key.bucket].versioning || db.buckets[input.key.bucket].trash)
    ensures Accounted(Delete(db, input), p) <==> DeleteIsExact(db.books, db.index, input.key, input.down, p)
  {
    var k, content := input.key, db.index.objects[input.key].content;
    if content.location.provider in input.down {
      SameTables(db, Delete(db, input), p);
    } else {
      DeletedTables(db, input);
      ShareOf(db, p);
      CurrentIsCounted(db, k, p);
      DropObjectTotal(db.index, k, p);
      DeletedBooksExact(db.books, k, content, input.down, p);
      KeptBooksExact(db.books, k, content, input.down, p);
      ShareDecides(Delete(db, input), p);
    }
  }

  /** The permanent delete of a current object leaves its version row: with its replicas finished, the
      counter stays right exactly for an object that has none, or has no bytes at p. */
  lemma PermanentDeleteExact(db: Db, input: DeleteInput, p: string)
    requires Tidy(db) && Accounted(db, p) && Deletable(db, input) && input.permanent && input.down == {}
    requires DropIsExact(db.books, input.key, {}, p, 0)
    ensures Accounted(Delete(db, input), p)
       <==> ArchivedKey(db.index, input.key) !in db.index.versions || At(db.index.objects[input.key].content, p) == 0
  {
    DeleteExact(db, input, p);
    ShareOf(db, p);
    BooksNonNegative(db.books, p);
    CurrentIsCounted(db, input.key, p);
    DropIsExactAnyway(db.books, input.key, p, At(db.index.objects[input.key].content, p));
  }

  lemma DropIsExactAnyway(b: Books, k: Key, p: string, due: int)
    requires p in b.used && DropIsExact(b, k, {}, p, 0) && 0 <= due <= b.used[p]
    ensures DropIsExact(b, k, {}, p, due)
  {}

  /** It also leaves the key without its newest version, unless there is no version. */
  lemma PermanentDeleteHidesNewest(db: Db, input: DeleteInput)
    requires Consistent(db) && Deletable(db, input) && Versioned(db, input.key) && input.permanent
    requires db.index.objects[input.key].content.location.provider !in input.down
    ensures CurrentIsNewest(Delete(db, input).index, input.key) <==> CurrentId(db.index, input.key) == ""
  {
    DeletedTables(db, input);
  }

  lemma MarkedTables(db: Db, input: DeleteInput)
    requires Deletable(db, input) && Versioned(db, input.key) && !input.permanent
    ensures Delete(db, input) == Db(db.buckets, PutMarker(db.index, input.key, input.markerId, Format(input.now)),
                                    DropReplicas(db.books, input.key, input.down))
  {}

  /** A delete by marker moves no bytes, so only the dropped replicas matter. */
  lemma MarkerDeleteExact(db: Db, input: DeleteInput, p: string)
    requires Tidy(db) && Accounted(db, p) && Drawn(db, DeleteStep(input)) && Deletable(db, input)
    requires Versioned(db, input.key) && !input.permanent
    ensures Accounted(Delete(db, input), p) <==> DropIsExact(db.books, input.key, input.down, p, 0)
  {
    MarkedTables(db, input);
    ShareOf(db, p);
    ArchivedVersion(db.index, input.key);
    MarkerTotal(db.index, input.key, input.markerId, Format(input.now), p);
    DropReplicasExact(db.books, input.key, input.down, p);
    ShareDecides(Delete(db, input), p);
  }

  /** A delete to the trash moves the bytes from the index to the trash. */
  lemma TrashDeleteExact(db: Db, input: DeleteInput, p: string)
    requires Tidy(db) && Accounted(db, p) && Drawn(db, DeleteStep(input)) && Deletable(db, input)
    requires !db.buckets[input.key.bucket].versioning && db.buckets[input.key.bucket].trash && !input.permanent
    ensures Accounted(Delete(db, input), p) <==> DropIsExact(db.books, input.key, input.down, p, 0)
  {
    var row := TrashOf(db.index, input.key, Format(input.now), input.purgeAfter);
    assert NoVersions(db.index, input.key);
    TrashedTables(db, input);
    ShareOf(db, p);
    CurrentIsCounted(db, input.key, p);
    DropObjectTotal(db.index, input.key, p);
    TrashedExact(db.books, input.key, input.trashId, row, input.down, p);
    ShareDecides(Delete(db, input), p);
  }

  lemma TrashedTables(db: Db, input: DeleteInput)
    requires Deletable(db, input) && !input.permanent
    requires !db.buckets[input.key.bucket].versioning && db.buckets[input.key.bucket].trash
    ensures var row := TrashOf(db.index, input.key, Format(input.now), input.purgeAfter);
            Delete(db, input) == Db(db.buckets, DropObject(db.index, input.key),
                                    DropReplicas(PutTrash(db.books, input.trashId, row), input.key, input.down))
  {}

  lemma TrashedExact(b: Books, k: Key, id: string, row: TrashRow, down: set<string>, p: string)
    requires Covered(b, p) && id !in b.trash && IndexShare(b, p) >= At(row.content, p)
    ensures p in DropReplicas(PutTrash(b, id, row), k, down).used
    ensures IndexShare(DropReplicas(PutTrash(b, id, row), k, down), p) == IndexShare(b, p) - At(row.content, p)
       <==> DropIsExact(b, k, down, p, 0)
  {
    TrashShare(b, id, row, p);
    DropReplicasExact(PutTrash(b, id, row), k, down, p);
  }

  // ---- version delete --------------------------------------------------

  /** Restoring the latest version of the key would queue a replica at p. */
  ghost predicate Requeued(ix: Index, k: Key, bucket: Bucket, p: string) {
    var id := Restorable(ix, k);
    id.Some? && p in Targets(bucket, ix.versions[VersionKey(k, id.value)].content.location.provider)
  }

  lemma RestoreExact(b: Books, ix: Index, k: Key, bucket: Bucket, p: string)
    requires p in b.used
    ensures IndexShare(RestoreBooks(b, ix, k, bucket), p) == IndexShare(b, p)
       <==> !Requeued(ix, k, bucket, p) || ReplicaCharge(b, ReplicaKey(k, p), p) == 0
  {
    var id := Restorable(ix, k);
    if id.Some? {
      EnqueueExact(b, k, bucket, ix.versions[VersionKey(k, id.value)].content, p);
    }
  }

  /** Removing a delete marker queues the version that is newest then, even if it is shown
      already: the counter stays right exactly if that forgets no charged replica. */
  lemma MarkerRemovalExact(db: Db, input: DeleteInput, p: string)
    requires Tidy(db) && Accounted(db, p) && input.key.bucket in db.buckets && input.versionId != ""
    requires var v := VersionKey(input.key, input.versionId); v in db.index.versions && db.index.versions[v].isMarker
    ensures Accounted(Delete(db, input), p)
       <==> !Requeued(WithoutVersion(db.index, VersionKey(input.key, input.versionId)), input.key,
                      db.buckets[input.key.bucket], p)
            || ReplicaCharge(db.books, ReplicaKey(input.key, p), p) == 0
  {
    var ix, bucket, v := db.index, db.buckets[input.key.bucket], VersionKey(input.key, input.versionId);
    assert Versioned(db, v.key);
    ShareOf(db, p);
    DeleteVersionTotal(ix, v, StatusIn(bucket), p);
    RestoreExact(db.books, WithoutVersion(ix, v), v.key, bucket, p);
    MarkerTables(db, input);
    ShareDecides(Delete(db, input), p);
  }

  lemma MarkerTables(db: Db, input: DeleteInput)
    requires input.key.bucket in db.buckets && input.versionId != ""
    requires var v := VersionKey(input.key, input.versionId); v in db.index.versions && db.index.versions[v].isMarker
    ensures var ix, bucket, v := db.index, db.buckets[input.key.bucket], VersionKey(input.key, input.versionId);
            Delete(db, input) == Db(db.buckets, DeleteVersion(ix, v, StatusIn(bucket)),
                                    RestoreBooks(db.books, WithoutVersion(ix, v), v.key, bucket))
  {}

  /** Restoring after the key's replicas were dropped queues new rows and forgets none. */
  lemma RestoreAfterDrop(b: Books, left: Index, k: Key, bucket: Bucket, down: set<string>, p: string)
    ensures var dropped := DropReplicas(b, k, down);
            && RestoreBooks(dropped, left, k, bucket).used == dropped.used
            && BooksTotal(RestoreBooks(dropped, left, k, bucket), p) == BooksTotal(dropped, p)
  {
    var id := Restorable(left, k);
    if id.Some? {
      EnqueueTotalFresh(DropReplicas(b, k, down), k, bucket, left.versions[VersionKey(k, id.value)].content, p);
    }
  }

  /** Queueing the restored version's replicas changes nothing of the drop and the uncharge. */
  lemma ShownBooksShare(b: Books, left: Index, k: Key, content: Content, bucket: Bucket, down: set<string>, p: string)
    requires p in b.used
    ensures var restored := RestoreBooks(DropReplicas(Issue(b, content.location), k, down), left, k, bucket);
            var after := Uncharge(restored, content.location.provider, content.size);
            && p in after.used && p in DeletedBooks(b, k, content, down).used
            && IndexShare(after, p) == IndexShare(DeletedBooks(b, k, content, down), p)
  {
    var dropped := DropReplicas(Issue(b, content.location), k, down);
    RestoreAfterDrop(Issue(b, content.location), left, k, bucket, down, p);
    SameUncharge(dropped, RestoreBooks(dropped, left, k, bucket), content.location.provider, content.size, p);
  }

  lemma SameUncharge(a: Books, b: Books, q: string, size: nat, p: string)
    requires p in a.used && a.used == b.used && BooksTotal(a, p) == BooksTotal(b, p)
    ensures IndexShare(Uncharge(a, q, size), p) == IndexShare(Uncharge(b, q, size), p)
  {
    SameRows(a, Uncharge(a, q, size), p);
    SameRows(b, Uncharge(b, q, size), p);
  }

  lemma VersionBooksExact(b: Books, ix: Index, v: VersionKey, bucket: Bucket, down: set<string>, p: string)
    requires Covered(b, p) && v in ix.versions && !ix.versions[v].isMarker
    requires IndexShare(b, p) >= At(ix.versions[v].content, p)
    ensures p in DeleteVersionBooks(b, ix, v, bucket, down).used
    ensures IndexShare(DeleteVersionBooks(b, ix, v, bucket, down), p)
            == IndexShare(b, p) - At(ix.versions[v].content, p)
       <==> !Restores(ix, v) || DropIsExact(b, v.key, down, p, At(ix.versions[v].content, p))
  {
    var content := ix.versions[v].content;
    if Restores(ix, v) {
      ShownBooksShare(b, WithoutVersion(ix, v), v.key, content, bucket, down, p);
      DeletedBooksExact(b, v.key, content, down, p);
    } else {
      IssueShare(b, content.location, p);
      UnchargeShare(Issue(b, content.location), content.location.provider, content.size, p);
    }
  }

  lemma VersionTables(db: Db, input: DeleteInput)
    requires input.key.bucket in db.buckets && input.versionId != ""
    requires var v := VersionKey(input.key, input.versionId);
             v in db.index.versions && VersionDeletable(db.index, v, input)
    ensures var ix, bucket, v := db.index, db.buckets[input.key.bucket], VersionKey(input.key, input.versionId);
            Delete(db, input) == Db(db.buckets, DeleteVersion(ix, v, StatusIn(bucket)),
                                    DeleteVersionBooks(db.books, ix, v, bucket, input.down))
  {}

  /** Deleting a version drops the key's replicas only if it is the one shown: just then an unfinished
      replica puts the counter wrong. */
  lemma VersionDeleteExact(db: Db, input: DeleteInput, p: string)
    requires Tidy(db) && Accounted(db, p) && input.key.bucket in db.buckets && input.versionId != ""
    requires var v := VersionKey(input.key, input.versionId);
             && v in db.index.versions && !db.index.versions[v].isMarker && VersionDeletable(db.index, v, input)
    ensures var v := VersionKey(input.key, input.versionId); (Accounted(Delete(db, input), p)
       <==> !Restores(db.index, v)
            || DropIsExact(db.books, input.key, input.down, p, At(db.index.versions[v].content, p)))
  {
    var ix, bucket, v := db.index, db.buckets[input.key.bucket], VersionKey(input.key, input.versionId);
    assert Versioned(db, v.key);
    ShareOf(db, p);
    IndexNonNegative(ix, p);
    assert VersionCharge(ix.versions, v, p) == At(ix.versions[v].content, p);
    DeleteVersionTotal(ix, v, StatusIn(bucket), p);
    VersionBooksExact(db.books, ix, v, bucket, input.down, p);
    VersionTables(db, input);
    ShareDecides(Delete(db, input), p);
  }

  // ---- trash, migration, replication -----------------------------------

  /** A restored trash row is an object from before versioning; if the key has a version under the id
      of such objects, that row is counted in its place. */
  lemma RestoreTrashExact(db: Db, id: string, p: string)
    requires Accounted(db, p) && Recoverable(db, id)
    ensures Accounted(RestoreTrash(db, id), p)
       <==> VersionKey(db.books.trash[id].key, "null") !in db.index.versions || At(db.books.trash[id].content, p) == 0
  {
    ShareOf(db, p);
    RestoreTrashTotal(db.index, db.books.trash[id], p);
    DropTrashShare(db.books, id, p);
    ShareDecides(RestoreTrash(db, id), p);
  }

  /** A purge is exact whether or not the provider can be reached. */
  lemma PurgeTrashExact(db: Db, id: string, down: set<string>, p: string)
    requires Accounted(db, p)
    ensures Accounted(PurgeTrash(db, id, down), p)
  {
    ShareOf(db, p);
    IndexNonNegative(db.index, p);
    if id in db.books.trash {
      var content := db.books.trash[id].content;
      var issued := Issue(db.books, content.location);
      IssueShare(db.books, content.location, p);
      DropTrashShare(issued, id, p);
      UnchargeShare(DropTrash(issued, id), content.location.provider, content.size, p);
      ShareDecides(PurgeTrash(db, id, down), p);
    }
  }

  /** A copy is exact, repeated or not. */
  lemma CopyExact(db: Db, k: Key, stored: Content, down: set<string>, p: string)
    requires Accounted(db, p)
    ensures Accounted(Migrate(db, k, false, Some(stored), down), p)
  {
    if Migrates(db, k, Some(stored)) {
      ShareOf(db, p);
      CopyShare(db.books, ReplicaKey(k, stored.location.provider), stored, p);
    }
  }

  /** The bytes a move takes off at p. */
  function TakenOff(source: Content, down: set<string>, p: string): int {
    if source.location.provider in down then 0 else At(source, p)
  }

  lemma MoveShare(b: Books, source: Content, content: Content, down: set<string>, p: string)
    requires Covered(b, p) && IndexShare(b, p) >= At(source, p)
    ensures Covered(MoveBooks(b, source, content, down), p)
    ensures IndexShare(MoveBooks(b, source, content, down), p)
         == IndexShare(b, p) + At(content, p) - TakenOff(source, down, p)
  {
    var charged := AddUsage(b, content.location.provider, content.size);
    ChargeShare(b, content.location.provider, content.size, p);
    IssueShare(charged, source.location, p);
    if source.location.provider !in down {
      UnchargeShare(Issue(charged, source.location), source.location.provider, source.size, p);
    }
  }

  /** A move rewrites the object's row only. Where a version row counts the object's bytes, the
      counter stays right exactly if as much is taken off as is added. */
  predicate MoveIsExact(ix: Index, k: Key, stored: Content, down: set<string>, p: string)
    requires k in ix.objects
  {
    var source := ix.objects[k].content;
    if ArchivedKey(ix, k) in ix.versions then At(stored, p) == TakenOff(source, down, p)
    else TakenOff(source, down, p) == At(source, p)
  }

  lemma MoveExact(db: Db, k: Key, stored: Content, down: set<string>, p: string)
    requires Tidy(db) && Accounted(db, p) && Migrates(db, k, Some(stored))
    ensures Accounted(Migrate(db, k, true, Some(stored), down), p) <==> MoveIsExact(db.index, k, stored, down, p)
  {
    ShareOf(db, p);
    CurrentIsCounted(db, k, p);
    MoveTotal(db.index, k, stored, p);
    MoveShare(db.books, db.index.objects[k].content, stored, down, p);
    ShareDecides(Migrate(db, k, true, Some(stored), down), p);
  }

  lemma MigrateExact(db: Db, k: Key, move: bool, stored: Option<Content>, down: set<string>, p: string)
    requires Tidy(db) && Accounted(db, p)
    ensures Accounted(Migrate(db, k, move, stored, down), p) <==> Counts(db, MigrateStep(k, move, stored, down), p)
  {
    if Migrates(db, k, stored) {
      if move {
        MoveExact(db, k, stored.value, down, p);
      } else {
        CopyExact(db, k, stored.value, down, p);
      }
    }
  }

  /** A move of a version also leaves current equal to newest exactly if it changes nothing. */
  lemma MoveKeepsNewestExactly(db: Db, k: Key, stored: Content, down: set<string>)
    requires Consistent(db) && Versioned(db, k) && Migrates(db, k, Some(stored)) && CurrentId(db.index, k) != ""
    ensures CurrentIsNewest(Migrate(db, k, true, Some(stored), down).index, k)
       <==> stored == db.index.objects[k].content
  {}

  lemma TurnReplicaExact(db: Db, k: Key, provider: string, running: bool, p: string)
    requires Accounted(db, p)
    ensures Accounted(TurnReplica(db, k, provider, running), p)
  {
    var after := TurnReplica(db, k, provider, running).books;
    ReplicasMove(db.books, after, ReplicaKey(k, provider), p);
    assert TrashBytes(after, p) == TrashBytes(db.books, p);
  }

  /** The row a run writes is charged exactly for what the run added. */
  lemma ReplicaWritten(db: Db, k: Key, provider: string, run: ReplicaRun, last: bool, p: string)
    requires p in db.books.used && db.books.used[p] >= 0
    ensures var r, b, after := ReplicaKey(k, provider), db.books, Replicate(db, k, provider, run, last).books;
            && after.trash == b.trash && r in after.replicas && after.replicas == b.replicas[r := after.replicas[r]]
            && p in after.used && after.used[p] == b.used[p] + ReplicaCharge(after, r, p)
  {}

  /** The end of a run of a replica writes over the row whatever it has become: exact exactly if the
      row was not charged meanwhile. */
  lemma ReplicateExact(db: Db, k: Key, provider: string, run: ReplicaRun, last: bool, p: string)
    requires Accounted(db, p)
    ensures Accounted(Replicate(db, k, provider, run, last), p)
       <==> ReplicaCharge(db.books, ReplicaKey(k, provider), p) == 0
  {
    var r, b, after := ReplicaKey(k, provider), db.books, Replicate(db, k, provider, run, last);
    ShareOf(db, p);
    BooksNonNegative(b, p);
    IndexNonNegative(db.index, p);
    ReplicaWritten(db, k, provider, run, last, p);
    ReplicasMove(b, after.books, r, p);
    assert TrashBytes(after.books, p) == TrashBytes(b, p);
  }

  // ---- updates ---------------------------------------------------------

  lemma RetainExact(db: Db, k: Key, id: string, mode: string, until: Instant, bypass: bool, now: Instant, p: string)
    requires Accounted(db, p)
    ensures Accounted(Retain(db, k, id, mode, until, bypass, now), p)
  {
    if Exists(db.index, k, id) {
      var read := Protected(db.index, k, id);
      UpdateTotal(db.index, k, read.versionId, WithRetention(read.protection, mode, until), bypass, now, p);
    }
  }

  lemma HoldExact(db: Db, k: Key, id: string, on: bool, now: Instant, p: string)
    requires Accounted(db, p)
    ensures Accounted(Hold(db, k, id, on, now), p)
  {
    if Exists(db.index, k, id) {
      var read := Protected(db.index, k, id);
      UpdateTotal(db.index, k, read.versionId, read.protection.(hold := on), false, now, p);
    }
  }

  // ---- every request ---------------------------------------------------

  ghost predicate VersionDeleteCounts(db: Db, input: DeleteInput, p: string)
    requires p in db.books.used && input.key.bucket in db.buckets
  {
    var ix, v := db.index, VersionKey(input.key, input.versionId);
    v in ix.versions && VersionDeletable(ix, v, input) ==>
      if ix.versions[v].isMarker then
        || !Requeued(WithoutVersion(ix, v), v.key, db.buckets[v.key.bucket], p)
        || ReplicaCharge(db.books, ReplicaKey(v.key, p), p) == 0
      else !Restores(ix, v) || DropIsExact(db.books, v.key, input.down, p, At(ix.versions[v].content, p))
  }

  predicate ObjectDeleteCounts(db: Db, input: DeleteInput, p: string)
    requires p in db.books.used && input.key.bucket in db.buckets
  {
    var bucket := db.buckets[input.key.bucket];
    Deletable(db, input) ==>
      if (bucket.versioning || bucket.trash) && !input.permanent then
        DropIsExact(db.books, input.key, input.down, p, 0)
      else DeleteIsExact(db.books, db.index, input.key, input.down, p)
  }

  /** Whether the request keeps the counter of p right. */
  ghost predicate Counts(db: Db, step: Step, p: string)
    requires p in db.books.used
  {
    match step
    case PutStep(input) =>
        var ensured, k := EnsureBucket(db, input.key.bucket), input.key;
        PutAccepted(ensured, input) ==>
          PutIsExact(db.books, db.index, k, ensured.buckets[k.bucket], input.stored.value, input.down, p)
    case DeleteStep(input) => input.key.bucket in db.buckets ==>
        if input.versionId != "" then VersionDeleteCounts(db, input, p) else ObjectDeleteCounts(db, input, p)
    case RestoreTrashStep(id) => Recoverable(db, id) ==>
        VersionKey(db.books.trash[id].key, "null") !in db.index.versions || At(db.books.trash[id].content, p) == 0
    case MigrateStep(k, move, stored, down) => move && Migrates(db, k, stored) ==>
        MoveIsExact(db.index, k, stored.value, down, p)
    case ReplicateStep(k, provider, _, _) => ReplicaCharge(db.books, ReplicaKey(k, provider), p) == 0
    case _ => true
  }

  lemma EnsuredTidy(db: Db, name: string, p: string)
    requires Tidy(db) && Accounted(db, p)
    ensures Tidy(EnsureBucket(db, name)) && Accounted(EnsureBucket(db, name), p)
  {}

  lemma PutCounts(db: Db, input: PutInput, p: string)
    requires Tidy(db) && Accounted(db, p) && Drawn(db, PutStep(input))
    ensures Accounted(Put(db, input), p) <==> Counts(db, PutStep(input), p)
  {
    var ensured := EnsureBucket(db, input.key.bucket);
    EnsuredTidy(db, input.key.bucket, p);
    if PutAccepted(ensured, input) {
      assert Put(ensured, input) == Put(db, input);
      PutExact(ensured, input, p);
    }
  }

  lemma DeleteCounts(db: Db, input: DeleteInput, p: string)
    requires Tidy(db) && Accounted(db, p) && Drawn(db, DeleteStep(input))
    ensures Accounted(Delete(db, input), p) <==> Counts(db, DeleteStep(input), p)
  {
    var v := VersionKey(input.key, input.versionId);
    if input.key.bucket in db.buckets {
      var bucket := db.buckets[input.key.bucket];
      if input.versionId != "" {
        if v !in db.index.versions || !VersionDeletable(db.index, v, input) {
          SameTables(db, Delete(db, input), p);
        } else if db.index.versions[v].isMarker {
          MarkerRemovalExact(db, input, p);
        } else {
          VersionDeleteExact(db, input, p);
        }
      } else if !Deletable(db, input) {
        SameTables(db, Delete(db, input), p);
      } else if input.permanent || !(bucket.versioning || bucket.trash) {
        DeleteExact(db, input, p);
      } else if bucket.versioning {
        MarkerDeleteExact(db, input, p);
      } else {
        TrashDeleteExact(db, input, p);
      }
    }
  }

  /** Every request, exactly: the counter of p is right afterwards if and only if the request counts. */
  lemma StepExactly(db: Db, step: Step, p: string)
    requires Tidy(db) && Accounted(db, p) && Drawn(db, step)
    ensures Accounted(Apply(db, step), p) <==> Counts(db, step, p)
  {
    match step
    case PutStep(input) => PutCounts(db, input, p);
    case DeleteStep(input) => DeleteCounts(db, input, p);
    case RetentionStep(k, id, mode, until, bypass, now) => RetainExact(db, k, id, mode, until, bypass, now, p);
    case HoldStep(k, id, on, now) => HoldExact(db, k, id, on, now, p);
    case RestoreTrashStep(id) => if Recoverable(db, id) { RestoreTrashExact(db, id, p); }
    case PurgeTrashStep(id, down) => PurgeTrashExact(db, id, down, p);
    case MigrateStep(k, move, stored, down) => MigrateExact(db, k, move, stored, down, p);
    case TurnReplicaStep(k, provider, running) => TurnReplicaExact(db, k, provider, running, p);
    case ReplicateStep(k, provider, run, last) => ReplicateExact(db, k, provider, run, last, p);
  }

  // ---- inputs that put a counter wrong ---------------------------------

  const SHOWN := Key("x", "k")
  const OTHER := Key("x", "j")

  function BytesAt(p: string, size: nat): Content {
    Content(Location(p, "", ""), size, "", "", "")
  }

  /** Two objects of 1 and 10 bytes, and a replica of the first that is still queued at the
      provider of the second. */
  function QueuedReplica(): Db {
    Db(map["x" := Bucket(false, false, false, ["b"], "", 0)],
       Index(map[SHOWN := ObjectRow(BytesAt("a", 1), "pending", ""), OTHER := ObjectRow(BytesAt("b", 10), "none", "")],
             map[], map[]),
       Books(map[], map[ReplicaKey(SHOWN, "b") := ReplicaRow(Location("b", "", ""), 1, "pending")],
             map["a" := 1, "b" := 10], {}))
  }

  function DeleteShown(): DeleteInput {
    DeleteInput(SHOWN, "", false, false, "", "", EARLIER, "", {})
  }

  /** Deleting the first object takes its queued byte off the second one's provider, which was
      never charged for it: 9 is left for the 10 bytes stored there. */
  lemma QueuedReplicaUndercounts()
    ensures Accounted(QueuedReplica(), "b") && !Accounted(Delete(QueuedReplica(), DeleteShown()), "b")
    ensures Delete(QueuedReplica(), DeleteShown()).books.used["b"] == 9
  {
    QueuedReplicaIsTidy();
    QueuedReplicaIndex();
    QueuedReplicaBooks();
    DeletedTables(QueuedReplica(), DeleteShown());
    DeleteExact(QueuedReplica(), DeleteShown(), "b");
  }

  lemma QueuedReplicaIsTidy()
    ensures Tidy(QueuedReplica()) && Deletable(QueuedReplica(), DeleteShown())
  {}

  lemma QueuedReplicaIndex()
    ensures IndexTotal(QueuedReplica().index, "b") == 10
  {
    var ix := QueuedReplica().index;
    assert ObjectBytes(ix, "b") == map[SHOWN := 0][OTHER := 10];
    Sums.TotalInsert(map[SHOWN := 0], OTHER, 10);
    Sums.TotalInsert(map[], SHOWN, 0);
    assert VersionBytes(ix.versions, "b") == map[];
  }

  lemma QueuedReplicaBooks()
    ensures BooksTotal(QueuedReplica().books, "b") == 0
  {
    var b, replica := QueuedReplica().books, ReplicaKey(SHOWN, "b");
    assert TrashBytes(b, "b") == map[] && ReplicaBytes(b, "b") == map[][replica := 0];
    Sums.TotalInsert(map[], replica, 0);
  }
}
