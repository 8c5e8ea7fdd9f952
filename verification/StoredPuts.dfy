/** What an accepted put leaves to read, and that protection given to a put holds from then on. */
module StoredPuts {
  import opened Common
  import opened Timestamps
  import opened VersionOrder
  import opened ObjectIndex
  import opened Objects
  import opened VersionBacking
  import opened StoreShape
  import opened ByteSafety
  import opened ObjectLock
  import Text

  /** The bucket's default retention applies to a put that names no mode. */
  predicate TakesDefault(b: Bucket, input: PutInput) {
    b.objectLock && input.protection.mode == "" && b.defaultDays > 0
  }

  /** The put asks for this protection, or gets it by default. */
  predicate Asked(b: Bucket, input: PutInput, p: Protection) {
    && p.hold == input.protection.hold
    && if TakesDefault(b, input) then p.mode == Text.Upper(b.defaultMode) && p.retainUntil == Some(input.defaultUntil)
       else p.mode == input.protection.mode && p.retainUntil == input.protection.retainUntil
  }

  /** What is read of the current object. */
  predicate Reads(ix: Index, k: Key, input: PutInput, b: Bucket)
    requires input.stored.Some?
  {
    var a := Hydrated(ix, k);
    && k in ix.objects && ix.objects[k].content == input.stored.value
    && a.metadata == input.metadata && a.tags == input.tags && Asked(b, input, a.protection)
    && a.versionId == if b.versioning then input.versionId else ""
  }

  /** What is read of the version the put made. */
  predicate ReadsVersion(ix: Index, v: VersionKey, input: PutInput, b: Bucket)
    requires input.stored.Some?
  {
    && v in ix.versions
    && var row := ix.versions[v];
       && !row.isMarker && row.content == input.stored.value && row.metadata == input.metadata && row.tags == input.tags
       && Asked(b, input, row.protection) && row.createdAt == Format(input.now)
  }

  /** A new object carries what the request asks for. */
  lemma NewObjectCarries(b: Bucket, input: PutInput)
    requires input.stored.Some?
    ensures var o := NewObjectOf(b, input);
            && o.content == input.stored.value && o.metadata == input.metadata && o.tags == input.tags
            && Asked(b, input, o.protection) && o.versionId == input.versionId && o.createdAt == Format(input.now)
  {}

  lemma PlainPutReads(ix: Index, k: Key, o: NewObject)
    requires k !in ix.objects ==> k !in ix.attributes
    ensures var after := PutObject(ix, k, false, o);
            && k in after.objects && after.objects[k].content == o.content
            && Hydrated(after, k) == Attributes(o.metadata, o.tags, "", o.protection)
  {}

  lemma VersionedPutReads(ix: Index, k: Key, o: NewObject)
    requires CurrentIsVersion(ix, k) && FreshId(ix, k, o.versionId)
    ensures var after, v := PutObject(ix, k, true, o), VersionKey(k, o.versionId);
            && k in after.objects && after.objects[k].content == o.content
            && Hydrated(after, k) == Attributes(o.metadata, o.tags, o.versionId, o.protection)
            && v in after.versions
            && after.versions[v] == VersionRow(o.content, o.metadata, o.tags, o.protection, false, o.createdAt)
  {
    PutBacked(ix, k, o);
    PutTables(ix, k, o);
  }

  /** After an accepted put the current object reads as the input, with the protection asked for or the
      bucket's default, and so does the drawn version in a versioned bucket. */
  lemma PutReads(db: Db, input: PutInput)
    requires Tidy(db) && Drawn(db, PutStep(input)) && input.key.bucket in db.buckets && PutAccepted(db, input)
    requires input.key !in db.index.objects ==> input.key !in db.index.attributes
    ensures var b, after := db.buckets[input.key.bucket], Put(db, input).index;
            && Reads(after, input.key, input, b)
            && (b.versioning ==> ReadsVersion(after, VersionKey(input.key, input.versionId), input, b))
  {
    var b := db.buckets[input.key.bucket];
    NewObjectCarries(b, input);
    if b.versioning {
      VersionedPutReads(db.index, input.key, NewObjectOf(b, input));
    } else {
      PlainPutReads(db.index, input.key, NewObjectOf(b, input));
    }
  }

  /** An overwrite keeps the creation time of the key's row; a first put starts it. */
  lemma PutCreates(db: Db, input: PutInput)
    requires input.key.bucket in db.buckets && PutAccepted(db, input)
    ensures var k, before, after := input.key, db.index.objects, Put(db, input).index.objects;
            k in after && after[k].createdAt == if k in before then before[k].createdAt else Format(input.now)
  {
    var b := db.buckets[input.key.bucket];
    PlacedCreation(db.index, input.key, b.versioning, NewObjectOf(b, input));
  }

  lemma PlacedCreation(ix: Index, k: Key, versioning: bool, o: NewObject)
    ensures var before, after := ix.objects, PutObject(ix, k, versioning, o).objects;
            k in after && after[k].createdAt == if k in before then before[k].createdAt else o.createdAt
  {}

  /** A put is accepted with protection only in a bucket with object lock, in one of the two modes, and
      with an end to come; without any it is always allowed. */
  lemma AcceptedProtection(b: Bucket, input: PutInput, p: Protection)
    requires Asked(b, input, p)
    ensures PutAllowed(b, input)
       <==> || (p.mode == "" && p.retainUntil.None? && !p.hold)
            || (b.objectLock && (p.mode == "" || RetainedUntilAfter(p, input.now)))
  {
    assert Requested(b, input) == p;
  }

  predicate RetainedUntilAfter(p: Protection, now: Instant) {
    && (p.mode == "GOVERNANCE" || p.mode == "COMPLIANCE")
    && p.retainUntil.Some? && Nanos(now) < Nanos(p.retainUntil.value)
  }

  /** A put is accepted exactly if its protection is and a known provider stored it; otherwise the tables
      of objects, versions and charges stay as they were. */
  lemma AcceptedExactly(db: Db, input: PutInput)
    requires input.key.bucket in db.buckets
    ensures PutAccepted(db, input)
       <==> PutAllowed(db.buckets[input.key.bucket], input) && input.stored.Some?
            && input.stored.value.location.provider in db.books.used
    ensures !PutAccepted(db, input) ==> Put(db, input) == db
  {}

  // ---- from the put on -------------------------------------------------

  /** The put adds a version that is kept: its bytes are at a new place nobody asked to delete. */
  lemma PutIsKept(db: Db, input: PutInput)
    requires LockReady(db) && LockScope(db, PutStep(input)) && Versioned(db, input.key) && PutAccepted(db, input)
    requires Place(input.stored.value.location).Some? && input.stored.value.location !in db.books.issued
    ensures var after, v := Put(db, input), VersionKey(input.key, input.versionId);
            LockReady(after) && Kept(after, v, input.stored.value)
            && Asked(db.buckets[input.key.bucket], input, after.index.versions[v].protection)
  {
    var b := db.buckets[input.key.bucket];
    NewObjectCarries(b, input);
    VersionedPutReads(db.index, input.key, NewObjectOf(b, input));
    StepApart(db, PutStep(input));
    StepSafe(db, PutStep(input));
    StepAsks(db, PutStep(input));
    assert BytesOf(Put(db, input), VersionAt(VersionKey(input.key, input.versionId))).Some?;
  }

  /** A version put under retention survives everything without the bypass flag until its end. */
  lemma PutUnderRetentionHolds(db: Db, input: PutInput, steps: seq<Step>, end: Instant)
    requires LockReady(db) && LockScope(db, PutStep(input)) && Versioned(db, input.key) && PutAccepted(db, input)
    requires Place(input.stored.value.location).Some? && input.stored.value.location !in db.books.issued
    requires var b := db.buckets[input.key.bucket];
             if TakesDefault(b, input) then b.defaultMode != "" && Nanos(end) <= Nanos(input.defaultUntil)
             else input.protection.mode != "" && input.protection.retainUntil.Some?
                  && Nanos(end) <= Nanos(input.protection.retainUntil.value)
    requires RunInLockScope(Put(db, input), steps)
    requires forall i :: 0 <= i < |steps| ==> ClockBefore(steps[i], end) && !Bypasses(steps[i])
    ensures var after := Run(Put(db, input), steps);
            && Kept(after, VersionKey(input.key, input.versionId), input.stored.value)
            && RetainedUntil(after.index.versions[VersionKey(input.key, input.versionId)].protection, end)
  {
    var v, b := VersionKey(input.key, input.versionId), db.buckets[input.key.bucket];
    PutIsKept(db, input);
    var p := Put(db, input).index.versions[v].protection;
    AcceptedProtection(b, input, p);
    RetentionHolds(Put(db, input), steps, v, input.stored.value, end);
  }

  /** A version put under a legal hold survives everything until the hold is lifted. */
  lemma PutUnderHoldHolds(db: Db, input: PutInput, steps: seq<Step>)
    requires LockReady(db) && LockScope(db, PutStep(input)) && Versioned(db, input.key) && PutAccepted(db, input)
    requires Place(input.stored.value.location).Some? && input.stored.value.location !in db.books.issued
    requires input.protection.hold
    requires RunInLockScope(Put(db, input), steps)
    requires NeverLifted(Put(db, input), steps, VersionKey(input.key, input.versionId))
    ensures Kept(Run(Put(db, input), steps), VersionKey(input.key, input.versionId), input.stored.value)
  {
    PutIsKept(db, input);
    LegalHoldHolds(Put(db, input), steps, VersionKey(input.key, input.versionId), input.stored.value);
  }
}
