/** What the caller of a request can rely on: which deletes go through, what they are told and leave
    behind, that trash gives back what it took, and which replicas are queued, copied and moved. */
module Outcomes {
  import opened Common
  import opened Timestamps
  import opened VersionOrder
  import opened ObjectIndex
  import opened Objects
  import opened VersionBacking
  import opened StoreShape

  // ---- deletes ---------------------------------------------------------

  /** The end of this retention has passed, or it never had one. */
  predicate RunOut(p: Protection, now: Instant) {
    p.retainUntil.None? || Nanos(p.retainUntil.value) <= Nanos(now)
  }

  /** A version goes if and only if it has no hold, and its retention has run out or the request may
      bypass it, which it may not for compliance. */
  lemma VersionDeleteGoes(db: Db, input: DeleteInput)
    requires input.key.bucket in db.buckets && input.versionId != ""
    requires var v := VersionKey(input.key, input.versionId);
             && v in db.index.versions && !db.index.versions[v].isMarker
             && db.index.versions[v].content.location.provider !in input.down
    ensures var v := VersionKey(input.key, input.versionId);
            var p := db.index.versions[v].protection;
            v !in Delete(db, input).index.versions <==>
            !p.hold && (RunOut(p, input.now) || (input.bypass && p.mode != "COMPLIANCE"))
  {
    var v := VersionKey(input.key, input.versionId);
    if VersionDeletable(db.index, v, input) {
      DeleteVersionIsLocal(db.index, v, StatusIn(db.buckets[input.key.bucket]));
    }
  }

  /** A delete marker always goes. */
  lemma MarkerGoes(db: Db, input: DeleteInput)
    requires input.key.bucket in db.buckets && input.versionId != ""
    requires var v := VersionKey(input.key, input.versionId); v in db.index.versions && db.index.versions[v].isMarker
    ensures VersionKey(input.key, input.versionId) !in Delete(db, input).index.versions
    ensures DeleteResult(db, input) == Ok(())
  {
    DeleteVersionIsLocal(db.index, VersionKey(input.key, input.versionId), StatusIn(db.buckets[input.key.bucket]));
  }

  /** The current object goes under the same condition, when its provider is not needed or reached. */
  lemma ObjectDeleteGoes(db: Db, input: DeleteInput)
    requires input.key.bucket in db.buckets && input.versionId == "" && input.key in db.index.objects
    requires db.index.objects[input.key].content.location.provider !in input.down
    ensures var p := Hydrated(db.index, input.key).protection;
            input.key !in Delete(db, input).index.objects <==>
            !p.hold && (RunOut(p, input.now) || (input.bypass && p.mode != "COMPLIANCE"))
  {}

  /** What the request names, a version or the current object, is there. */
  predicate IsThere(db: Db, input: DeleteInput) {
    && input.key.bucket in db.buckets
    && if input.versionId == "" then input.key in db.index.objects
       else VersionKey(input.key, input.versionId) in db.index.versions
  }

  /** Everything but the deletes asked for is as it was. */
  predicate OnlyAsked(db: Db, after: Db) {
    after == db.(books := db.books.(issued := after.books.issued))
  }

  /** The caller is told the truth: success exactly when what was there is gone, not found exactly when it
      was not there, and any failure leaves the tables as they were. */
  lemma DeleteTells(db: Db, input: DeleteInput)
    ensures var after, told := Delete(db, input), DeleteResult(db, input);
            && (told == Ok(()) <==> IsThere(db, input) && !IsThere(after, input))
            && (told == Err(NotFound) <==> !IsThere(db, input))
            && (told.Err? ==> OnlyAsked(db, after))
            && (told == Err(ObjectLocked) ==> after == db)
            && (told == Err(AdapterFailed) ==> after.books.issued != {})
            && (told.Err? ==> told.error == NotFound || told.error == ObjectLocked || told.error == AdapterFailed)
  {
    var v := VersionKey(input.key, input.versionId);
    if input.key.bucket in db.buckets && input.versionId != "" && v in db.index.versions
        && VersionDeletable(db.index, v, input) {
      DeleteVersionIsLocal(db.index, v, StatusIn(db.buckets[input.key.bucket]));
    }
  }

  /** A locked delete is told so, and one that only fails at the provider is not. */
  lemma LockIsTold(db: Db, input: DeleteInput)
    requires IsThere(db, input)
    ensures var p := if input.versionId == "" then Hydrated(db.index, input.key).protection
                     else db.index.versions[VersionKey(input.key, input.versionId)].protection;
            var marker := input.versionId != ""
                          && db.index.versions[VersionKey(input.key, input.versionId)].isMarker;
            DeleteResult(db, input) == Err(ObjectLocked) <==>
            !marker && (p.hold || (!RunOut(p, input.now) && (p.mode == "COMPLIANCE" || !input.bypass)))
  {}

  /** A delete in a versioned bucket that is not for good leaves a marker under the drawn id, and the object
      as a version. */
  lemma MarkerIsLeft(db: Db, input: DeleteInput)
    requires Tidy(db) && Drawn(db, DeleteStep(input)) && Versioned(db, input.key) && !input.permanent
    requires input.versionId == "" && DeleteResult(db, input).Ok?
    ensures var k, before, after := input.key, db.index, Delete(db, input).index;
            var marker, kept := VersionKey(k, input.markerId), ArchivedKey(db.index, k);
            && marker in after.versions && after.versions[marker] == MarkerRow(Format(input.now))
            && kept in after.versions && kept != marker && !after.versions[kept].isMarker
            && after.versions[kept].content == before.objects[k].content
            && after.versions[kept].protection == Hydrated(before, k).protection
            && k !in after.objects
  {
    ArchivedVersion(db.index, input.key);
  }

  // ---- trash -----------------------------------------------------------

  /** The trash row holds what the object was, with the time of the delete and the time to purge. */
  predicate TrashOfObject(row: TrashRow, ix: Index, input: DeleteInput)
    requires input.key in ix.objects
  {
    && row.key == input.key && row.content == ix.objects[input.key].content
    && row.metadata == Hydrated(ix, input.key).metadata && row.tags == Hydrated(ix, input.key).tags
    && row.deletedAt == Format(input.now) && row.purgeAfter == input.purgeAfter
  }

  /** A delete to the trash and a restore give back the object's content, metadata and tags. */
  lemma TrashRoundTrip(db: Db, input: DeleteInput)
    requires !Versioned(db, input.key) && Drawn(db, DeleteStep(input)) && DeleteResult(db, input).Ok?
    requires input.versionId == "" && !input.permanent && db.buckets[input.key.bucket].trash
    ensures var k, trashed := input.key, Delete(db, input);
            var restored := RestoreTrash(trashed, input.trashId);
            && input.trashId in trashed.books.trash && k !in trashed.index.objects
            && TrashOfObject(trashed.books.trash[input.trashId], db.index, input)
            && k in restored.index.objects && restored.index.objects[k].content == db.index.objects[k].content
            && Hydrated(restored.index, k).metadata == Hydrated(db.index, k).metadata
            && Hydrated(restored.index, k).tags == Hydrated(db.index, k).tags
            && Hydrated(restored.index, k).protection == NO_PROTECTION
            && restored.index.objects[k].createdAt == Format(input.now)
            && restored.books.trash == db.books.trash && restored.index.objects.Keys == db.index.objects.Keys
  {}

  /** A restore never takes the place of an object; it changes nothing then, nor for an unknown row. */
  lemma RestoreOnlyWhereFree(db: Db, id: string)
    requires id !in db.books.trash || db.books.trash[id].key in db.index.objects
    ensures RestoreTrash(db, id) == db
  {}

  /** A purge removes its own row only, once the provider is reached. */
  lemma PurgeIsExact(db: Db, id: string, down: set<string>)
    requires id in db.books.trash
    ensures var after := PurgeTrash(db, id, down);
            && after.index == db.index && after.books.replicas == db.books.replicas
            && after.books.trash
               == if db.books.trash[id].content.location.provider in down then db.books.trash else db.books.trash - {id}
  {}

  // ---- replicas --------------------------------------------------------

  /** A provider that a bucket replicates to, given where the object is. */
  predicate ReplicatesTo(b: Bucket, primary: string, p: string) {
    p in b.replication && p != "" && p != primary
  }

  /** The replica row after the key's replicas were dropped, if it had an object, and queued again. */
  predicate QueuedAs(before: Books, after: Books, had: bool, k: Key, b: Bucket, content: Content, r: ReplicaKey) {
    if r.key != k then
      && (r in after.replicas <==> r in before.replicas)
      && (r in before.replicas ==> after.replicas[r] == before.replicas[r])
    else if ReplicatesTo(b, content.location.provider, r.provider) then
      r in after.replicas && after.replicas[r] == ReplicaRow(Location(r.provider, "", ""), content.size, "pending")
    else had ==> r !in after.replicas
  }

  lemma EnqueueQueues(b: Books, k: Key, bucket: Bucket, content: Content, r: ReplicaKey, had: bool)
    requires had ==> forall q :: q in b.replicas ==> q.key != k
    ensures QueuedAs(b, EnqueueAll(b, k, bucket, content), had, k, bucket, content, r)
  {
    var targets := Targets(bucket, content.location.provider);
    assert r.provider in targets <==> ReplicatesTo(bucket, content.location.provider, r.provider);
    assert r in (set p | p in targets :: ReplicaKey(k, p)) <==> r.key == k && r.provider in targets;
  }

  /** After a put every provider of the bucket's list but the one that stored it has a queued replica of the
      new size, an overwritten object's other replicas are gone, and no other key's are touched. */
  lemma PutQueues(db: Db, input: PutInput, r: ReplicaKey)
    requires input.key.bucket in db.buckets && PutAccepted(db, input)
    ensures QueuedAs(db.books, Put(db, input).books, input.key in db.index.objects, input.key,
                     db.buckets[input.key.bucket], input.stored.value, r)
  {
    var k, b, content := input.key, db.buckets[input.key.bucket], input.stored.value;
    var charged := Charged(db.books, db.index, k, b, content);
    if k in db.index.objects {
      EnqueueQueues(DropReplicas(charged, k, input.down), k, b, content, r, true);
    } else {
      EnqueueQueues(charged, k, b, content, r, false);
    }
  }

  lemma SomeTarget(b: Bucket, primary: string)
    ensures Targets(b, primary) != {} <==> exists p :: ReplicatesTo(b, primary, p)
  {
    forall p ensures p in Targets(b, primary) <==> ReplicatesTo(b, primary, p) {}
  }

  lemma PlacedStatus(ix: Index, k: Key, versioning: bool, o: NewObject)
    ensures var after := PutObject(ix, k, versioning, o).objects; k in after && after[k].replicaStatus == o.status
  {}

  /** The status shown says whether anything was queued. */
  lemma PutStatus(db: Db, input: PutInput)
    requires input.key.bucket in db.buckets && PutAccepted(db, input)
    ensures var b, after := db.buckets[input.key.bucket], Put(db, input).index.objects;
            && input.key in after
            && after[input.key].replicaStatus
               == if exists p :: ReplicatesTo(b, input.stored.value.location.provider, p) then "pending" else "none"
  {
    var b := db.buckets[input.key.bucket];
    SomeTarget(b, input.stored.value.location.provider);
    PlacedStatus(db.index, input.key, b.versioning, NewObjectOf(b, input));
  }

  /** A copy leaves the object where it is and records the replica stored; a move points the object at the
      new place and keeps its attributes, versions and creation time. */
  lemma MigrationIsExact(db: Db, k: Key, stored: Content, down: set<string>)
    requires Migrates(db, k, Some(stored))
    ensures var copied := Migrate(db, k, false, Some(stored), down);
            && copied.index == db.index
            && copied.books.replicas
               == db.books.replicas[ReplicaKey(k, stored.location.provider) :=
                                      ReplicaRow(stored.location, stored.size, "succeeded")]
    ensures var moved := Migrate(db, k, true, Some(stored), down);
            && moved.index.objects[k].content == stored
            && moved.index.objects[k].createdAt == db.index.objects[k].createdAt
            && moved.index.objects[k].replicaStatus == db.index.objects[k].replicaStatus
            && moved.index.objects - {k} == db.index.objects - {k}
            && moved.index.attributes == db.index.attributes && moved.index.versions == db.index.versions
            && moved.books.replicas == db.books.replicas && moved.books.trash == db.books.trash
  {}

  /** What the end of a run leaves of its replica row, and of no other: stored with its place, charged, if
      there was something to store and it was; failed for good without an object or an enabled
      provider; queued again after any other failure that was not the last. */
  lemma ReplicationIsExact(db: Db, k: Key, provider: string, run: ReplicaRun, last: bool)
    ensures var r, after := ReplicaKey(k, provider), Replicate(db, k, provider, run, last);
            && after.index == db.index && after.books.trash == db.books.trash
            && r in after.books.replicas && after.books.replicas - {r} == db.books.replicas - {r}
            && var row := after.books.replicas[r];
               (row.status == "succeeded" || row.status == "failed" || row.status == "pending")
    ensures var row := Replicate(db, k, provider, run, last).books.replicas[ReplicaKey(k, provider)];
            && (row.status == "succeeded" <==> k in db.index.objects && run.Copied? && provider in db.books.used)
            && (row.status == "succeeded" ==> row.location == run.content.location && row.size == run.content.size)
            && (k !in db.index.objects || (run.Disabled? && provider in db.books.used) ==> row.status == "failed")
            && (k in db.index.objects && (run.Refused? || provider !in db.books.used) ==>
                  row.status == if last && ReplicaKey(k, provider) in db.books.replicas then "failed" else "pending")
  {}

  /** A claim takes a queued replica to running and a recovery takes it back; neither moves anything else. */
  lemma ClaimAndRecovery(db: Db, k: Key, provider: string)
    requires var r := ReplicaKey(k, provider); r in db.books.replicas && db.books.replicas[r].status == "pending"
    ensures var claimed := TurnReplica(db, k, provider, true);
            && claimed.books.replicas[ReplicaKey(k, provider)].status == "running"
            && TurnReplica(claimed, k, provider, true) == claimed && TurnReplica(claimed, k, provider, false) == db
  {
    var r := ReplicaKey(k, provider);
    var back := TurnReplica(TurnReplica(db, k, provider, true), k, provider, false);
    assert back.books.replicas[r] == db.books.replicas[r];
    assert back.books.replicas == db.books.replicas;
  }

  // ---- sizes -----------------------------------------------------------

  /** An upload of at most the maximum is put as it is; a larger one leaves no object. */
  lemma SizeLimitIsExact(db: Db, input: PutInput, received: int, maximum: int)
    ensures received <= maximum ==> Put(db, Received(input, received, maximum)) == Put(db, input)
    ensures received > maximum ==>
              (var after := Put(db, Received(input, received, maximum));
               after.index == db.index && after.books == db.books)
  {}

  /** A put to a bucket that is not there makes a plain one: unversioned, without trash, lock or replicas. */
  lemma BucketIsMade(db: Db, input: PutInput)
    requires input.key.bucket !in db.buckets
    ensures var after := Put(db, input).buckets;
            && input.key.bucket in after && after - {input.key.bucket} == db.buckets
            && var b := after[input.key.bucket];
               !b.versioning && !b.trash && !b.objectLock && b.replication == [] && b.defaultDays == 0
  {}
}
