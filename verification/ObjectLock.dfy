/** Object Lock over whole runs: a protected version keeps its row and its bytes, and its retention
    never moves earlier, until the hold is lifted or retention ends; whatever clocks do. */
module ObjectLock {
  import opened Common
  import opened Timestamps
  import opened VersionOrder
  import opened ObjectIndex
  import opened Objects
  import opened VersionBacking
  import opened StoreShape
  import opened ByteSafety

  ghost predicate LockReady(db: Db) {
    Tidy(db) && Apart(db)
  }

  /** Any requests, with drawn ids new, trash not restored over versions, and uploads, copies,
      replicas and moves going to places that no other row points to. */
  ghost predicate LockScope(db: Db, step: Step) {
    && Drawn(db, step) && KeepsVersions(db, step)
    && (step.PutStep? || step.MigrateStep? || step.ReplicateStep? ==> KeepsBytes(db, step))
  }

  ghost predicate RunInLockScope(db: Db, steps: seq<Step>)
    decreases steps
  {
    steps == [] || (LockScope(db, steps[0]) && RunInLockScope(Apply(db, steps[0]), steps[1..]))
  }

  /** The version is there with its bytes, and no delete of them has been asked for. */
  predicate Kept(db: Db, v: VersionKey, content: Content) {
    && v in db.index.versions && !db.index.versions[v].isMarker && db.index.versions[v].content == content
    && Place(content.location).Some? && content.location !in db.books.issued
  }

  /** The protection holds against the request, if that is a delete. */
  predicate Guards(p: Protection, step: Step) {
    step.DeleteStep? ==> Locked(p, step.delete.bypass, step.delete.now)
  }

  // ---- the rows stay apart ---------------------------------------------

  /** A delete only takes rows away, whether or not it is carried out. */
  lemma DeleteApart(db: Db, input: DeleteInput)
    requires LockReady(db) && Drawn(db, DeleteStep(input))
    ensures Apart(Delete(db, input))
  {
    var k, own := input.key, ObjectAt(input.key);
    DeleteSafe(db, input);
    if !KeepsBytes(db, DeleteStep(input)) {
      if input.versionId == "" && db.index.objects[k].content.location.provider !in input.down {
        DroppedReplicas(Issue(db.books, db.index.objects[k].content.location), k, input.down);
        ImmediateDeleteMove(db, Delete(db, input), k);
        MoveApart(db, Delete(db, input), own, own, own);
      } else {
        SameRowsApart(db, Delete(db, input));
      }
    }
  }

  lemma SameRowsApart(db: Db, after: Db)
    requires Apart(db) && after.index == db.index && after.books.replicas == db.books.replicas
    requires after.books.trash == db.books.trash
    ensures Apart(after)
  {
    assert forall x :: BytesOf(after, x) == BytesOf(db, x);
  }

  lemma StepApart(db: Db, step: Step)
    requires LockReady(db) && LockScope(db, step)
    ensures LockReady(Apply(db, step))
  {
    StepTidy(db, step);
    if step.DeleteStep? {
      DeleteApart(db, step.delete);
    } else {
      StepSafe(db, step);
      if !KeepsBytes(db, step) {
        SameRowsApart(db, Apply(db, step));
      }
    }
  }

  // ---- no delete is asked for ------------------------------------------

  /** The row with these bytes is the only one that could be asked to go. */
  lemma OnlyRow(db: Db, v: VersionKey, content: Content)
    requires Apart(db) && Kept(db, v, content)
    ensures forall row :: BytesOf(db, row) == Some(content.location) ==> row == VersionAt(v)
    ensures content.location !in ReplicaPlaces(db.books, v.key)
    ensures forall k :: content.location !in ReplicaPlaces(db.books, k)
  {
    assert BytesOf(db, VersionAt(v)) == Some(content.location);
    forall k ensures content.location !in ReplicaPlaces(db.books, k) {
      NotAmongReplicas(db, k, content.location);
    }
  }

  /** Where the current object has the version's bytes, it is the version, protection and all. */
  lemma ObjectIsVersion(db: Db, v: VersionKey, content: Content, k: Key)
    requires LockReady(db) && Kept(db, v, content)
    requires k in db.index.objects && db.index.objects[k].content.location == content.location
    ensures v == ArchivedKey(db.index, k) && Hydrated(db.index, k).protection == db.index.versions[v].protection
  {
    CurrentIsRow(db, k);
    OnlyRow(db, v, content);
    assert Versioned(db, k) && CurrentIsVersion(db.index, k);
  }

  lemma DeleteNotAsked(db: Db, input: DeleteInput, v: VersionKey, content: Content)
    requires LockReady(db) && Kept(db, v, content) && Guards(db.index.versions[v].protection, DeleteStep(input))
    ensures content.location !in Asked(db, DeleteStep(input))
  {
    var k, w := input.key, VersionKey(input.key, input.versionId);
    OnlyRow(db, v, content);
    if input.versionId == "" {
      if k in db.index.objects && db.index.objects[k].content.location == content.location {
        ObjectIsVersion(db, v, content, k);
      }
    } else if w in db.index.versions && !db.index.versions[w].isMarker {
      assert BytesOf(db, VersionAt(w)) == Place(db.index.versions[w].content.location);
    }
  }

  lemma PutNotAsked(db: Db, input: PutInput, v: VersionKey, content: Content)
    requires LockReady(db) && Kept(db, v, content)
    ensures content.location !in Asked(db, PutStep(input))
  {
    var k := input.key;
    OnlyRow(db, v, content);
    if k in db.index.objects && db.index.objects[k].content.location == content.location {
      ObjectIsVersion(db, v, content, k);
      assert Versioned(db, k);
    }
  }

  lemma OtherNotAsked(db: Db, step: Step, v: VersionKey, content: Content)
    requires LockReady(db) && LockScope(db, step) && Kept(db, v, content) && !step.PutStep? && !step.DeleteStep?
    ensures content.location !in Asked(db, step)
  {
    OnlyRow(db, v, content);
    match step
    case PurgeTrashStep(id, _) =>
      assert id in db.books.trash ==> BytesOf(db, TrashAt(id)) == Place(db.books.trash[id].content.location);
    case MigrateStep(k, _, _, _) =>
      if k in db.index.objects && db.index.objects[k].content.location == content.location {
        ObjectIsVersion(db, v, content, k);
      }
    case _ =>
  }

  lemma NotAsked(db: Db, step: Step, v: VersionKey, content: Content)
    requires LockReady(db) && LockScope(db, step) && Kept(db, v, content)
    requires Guards(db.index.versions[v].protection, step)
    ensures content.location !in Apply(db, step).books.issued
  {
    StepAsks(db, step);
    match step
    case PutStep(input) => PutNotAsked(db, input, v, content);
    case DeleteStep(input) => DeleteNotAsked(db, input, v, content);
    case _ => OtherNotAsked(db, step, v, content);
  }

  // ---- the row stays ---------------------------------------------------

  /** The retention or hold update is of this version. */
  predicate Names(db: Db, step: Step, v: VersionKey) {
    && (step.RetentionStep? || step.HoldStep?) && step.key == v.key
    && Exists(db.index, step.key, step.id) && Protected(db.index, step.key, step.id).versionId == v.id
  }

  /** What one request may make of a protection: nothing, or what an update of this version asks. */
  predicate Becomes(db: Db, step: Step, v: VersionKey, was: Protection, now: Protection) {
    || now == was
    || (step.RetentionStep? && Names(db, step, v) && RetentionAllowed(step.mode, step.until, step.now)
        && now == WithRetention(was, step.mode, step.until) && !Shortens(was, now, step.bypass, step.now))
    || (step.HoldStep? && Names(db, step, v) && now == was.(hold := step.on))
  }

  ghost predicate RowKept(db: Db, step: Step, v: VersionKey)
    requires v in db.index.versions
  {
    var before, after := db.index.versions, Apply(db, step).index.versions;
    && v in after && after[v].isMarker == before[v].isMarker && after[v].content == before[v].content
    && Becomes(db, step, v, before[v].protection, after[v].protection)
  }

  lemma PutRow(db: Db, input: PutInput, v: VersionKey)
    requires v in db.index.versions
    ensures RowKept(db, PutStep(input), v)
  {
    var ensured := EnsureBucket(db, input.key.bucket);
    if PutAccepted(ensured, input) {
      var b := ensured.buckets[input.key.bucket];
      PutIndexRow(db.index, input.key, b.versioning, NewObjectOf(b, input), v);
    }
  }

  /** Inserting a version never replaces one. */
  lemma PutIndexRow(ix: Index, k: Key, versioning: bool, o: NewObject, v: VersionKey)
    requires v in ix.versions
    ensures var after := PutObject(ix, k, versioning, o).versions; v in after && after[v] == ix.versions[v]
  {}

  lemma DeleteRow(db: Db, input: DeleteInput, v: VersionKey)
    requires Tidy(db) && v in db.index.versions && !db.index.versions[v].isMarker
    requires Guards(db.index.versions[v].protection, DeleteStep(input))
    ensures RowKept(db, DeleteStep(input), v)
  {
    var w := VersionKey(input.key, input.versionId);
    if input.versionId == "" {
      ObjectDeleteRow(db, input, v);
    } else if w in db.index.versions && w != v {
      DeleteVersionRow(db, input, w, v);
    }
  }

  lemma ObjectDeleteRow(db: Db, input: DeleteInput, v: VersionKey)
    requires input.versionId == "" && v in db.index.versions
    ensures RowKept(db, DeleteStep(input), v)
  {}

  lemma DeleteVersionRow(db: Db, input: DeleteInput, w: VersionKey, v: VersionKey)
    requires input.versionId != "" && w == VersionKey(input.key, input.versionId) && w in db.index.versions && w != v
    requires v in db.index.versions
    ensures RowKept(db, DeleteStep(input), v)
  {
    if input.key.bucket in db.buckets {
      DeleteVersionIsLocal(db.index, w, StatusIn(db.buckets[input.key.bucket]));
    }
  }

  /** An update changes only the protection of the one version it names. */
  lemma UpdateRow(ix: Index, k: Key, id: string, wanted: Protection, bypass: bool, now: Instant, v: VersionKey)
    requires v in ix.versions && id != ""
    ensures var after := UpdateProtection(ix, k, id, wanted, bypass, now).versions;
            && v in after && after[v].isMarker == ix.versions[v].isMarker && after[v].content == ix.versions[v].content
            && (after[v].protection == ix.versions[v].protection
                || (v == VersionKey(k, id) && after[v].protection == wanted
                    && !Shortens(ix.versions[v].protection, wanted, bypass, now)))
  {}

  /** What an update of a versioned key reads is the protection of the row it then writes. */
  lemma ReadIsRow(db: Db, k: Key, id: string, v: VersionKey)
    requires Tidy(db) && Exists(db.index, k, id) && v in db.index.versions && v.key == k
    ensures var read := Protected(db.index, k, id);
            && read.versionId != "" && VersionKey(k, read.versionId) in db.index.versions
            && db.index.versions[VersionKey(k, read.versionId)].protection == read.protection
  {
    assert Versioned(db, k) && CurrentIsVersion(db.index, k);
  }

  lemma RetentionRow(db: Db, step: Step, v: VersionKey)
    requires Tidy(db) && v in db.index.versions && step.RetentionStep?
    ensures RowKept(db, step, v)
  {
    var k := step.key;
    if LockEnabled(db, k) && RetentionAllowed(step.mode, step.until, step.now) && Exists(db.index, k, step.id) {
      var read := Protected(db.index, k, step.id);
      var wanted := WithRetention(read.protection, step.mode, step.until);
      if v.key == k {
        ReadIsRow(db, k, step.id, v);
        UpdateRow(db.index, k, read.versionId, wanted, step.bypass, step.now, v);
      } else {
        OtherKeyRow(db.index, k, read.versionId, wanted, step.bypass, step.now, v);
      }
    }
  }

  lemma OtherKeyRow(ix: Index, k: Key, id: string, wanted: Protection, bypass: bool, now: Instant, v: VersionKey)
    requires v in ix.versions && v.key != k
    ensures var after := UpdateProtection(ix, k, id, wanted, bypass, now).versions;
            v in after && after[v] == ix.versions[v]
  {}

  lemma HoldRow(db: Db, step: Step, v: VersionKey)
    requires Tidy(db) && v in db.index.versions && step.HoldStep?
    ensures RowKept(db, step, v)
  {
    var k := step.key;
    if LockEnabled(db, k) && Exists(db.index, k, step.id) {
      var read := Protected(db.index, k, step.id);
      var wanted := read.protection.(hold := step.on);
      if v.key == k {
        ReadIsRow(db, k, step.id, v);
        UpdateRow(db.index, k, read.versionId, wanted, false, step.now, v);
      } else {
        OtherKeyRow(db.index, k, read.versionId, wanted, false, step.now, v);
      }
    }
  }

  lemma StepRow(db: Db, step: Step, v: VersionKey)
    requires Tidy(db) && v in db.index.versions && !db.index.versions[v].isMarker
    requires Guards(db.index.versions[v].protection, step)
    ensures RowKept(db, step, v)
  {
    match step
    case PutStep(input) => PutRow(db, input, v);
    case DeleteStep(input) => DeleteRow(db, input, v);
    case RetentionStep(_, _, _, _, _, _) => RetentionRow(db, step, v);
    case HoldStep(_, _, _, _) => HoldRow(db, step, v);
    case _ =>
  }

  /** One request: a version whose protection holds against it keeps its row and its bytes, and its
      protection changes only by an update of that version which does not shorten it. */
  lemma StepKeepsProtected(db: Db, step: Step, v: VersionKey, content: Content)
    requires LockReady(db) && LockScope(db, step) && Kept(db, v, content)
    requires Guards(db.index.versions[v].protection, step)
    ensures Kept(Apply(db, step), v, content)
    ensures Becomes(db, step, v, db.index.versions[v].protection, Apply(db, step).index.versions[v].protection)
  {
    StepRow(db, step, v);
    NotAsked(db, step, v, content);
  }

  /** A move asks for the bytes of the object it moves even if a version row, locked or not, still
      points to them: a kept version stays kept exactly if it is not the object moved. */
  lemma MoveKeepsExactly(db: Db, k: Key, stored: Option<Content>, down: set<string>, v: VersionKey, content: Content)
    requires LockReady(db) && Kept(db, v, content)
    ensures Kept(Migrate(db, k, true, stored, down), v, content)
       <==> !(Migrates(db, k, stored) && v == ArchivedKey(db.index, k))
  {
    var step := MigrateStep(k, true, stored, down);
    StepAsks(db, step);
    OnlyRow(db, v, content);
    if Migrates(db, k, stored) {
      CurrentIsRow(db, k);
      if db.index.objects[k].content.location == content.location {
        ObjectIsVersion(db, v, content, k);
      }
    }
  }

  /** A retention update of a version gives it the mode and end asked for, whatever the mode, exactly if
      the end is no earlier, or the old one has passed, or the old mode does not forbid it: governance
      with the bypass flag, or none of the two. */
  lemma RetentionExactly(db: Db, step: Step, v: VersionKey)
    requires Tidy(db) && v in db.index.versions && step.RetentionStep? && Names(db, step, v)
    requires step.key.bucket in db.buckets && db.buckets[step.key.bucket].objectLock
    requires (step.mode == "GOVERNANCE" || step.mode == "COMPLIANCE") && Nanos(step.now) < Nanos(step.until)
    ensures var was := db.index.versions[v].protection;
            var wanted := was.(mode := step.mode, retainUntil := Some(step.until));
            Apply(db, step).index.versions[v].protection
              == if || was.retainUntil.None? || Nanos(was.retainUntil.value) <= Nanos(step.now)
                    || Nanos(was.retainUntil.value) <= Nanos(step.until)
                    || (was.mode != "COMPLIANCE" && (was.mode != "GOVERNANCE" || step.bypass))
                 then wanted else was
  {
    ReadIsRow(db, step.key, step.id, v);
    assert v == VersionKey(step.key, v.id);
  }

  /** An update changes protection only: content, metadata, tags and times of all versions stay, and so
      does what else is read of the current object. */
  lemma UpdateKeepsRest(ix: Index, k: Key, id: string, wanted: Protection, bypass: bool, now: Instant, v: VersionKey)
    requires v in ix.versions && CurrentIsVersion(ix, k) && VersionKey(k, "") !in ix.versions
    ensures var after := UpdateProtection(ix, k, id, wanted, bypass, now);
            && v in after.versions
            && after.versions[v].(protection := ix.versions[v].protection) == ix.versions[v]
            && after.objects == ix.objects
            && Hydrated(after, k).(protection := Hydrated(ix, k).protection) == Hydrated(ix, k)
  {}

  /** Without object lock on the bucket no protection changes. */
  lemma UpdatesNeedLock(db: Db, step: Step)
    requires step.RetentionStep? || step.HoldStep?
    requires step.key.bucket in db.buckets ==> !db.buckets[step.key.bucket].objectLock
    ensures Apply(db, step) == db
  {}

  /** A retention update without a mode of the two, or without an end to come, changes nothing. */
  lemma RetentionIsChecked(db: Db, step: Step)
    requires step.RetentionStep?
    requires (step.mode != "GOVERNANCE" && step.mode != "COMPLIANCE") || Nanos(step.until) <= Nanos(step.now)
    ensures Apply(db, step) == db
  {}

  /** A hold update of a version always takes effect, and leaves its retention alone. */
  lemma HoldExactly(db: Db, step: Step, v: VersionKey)
    requires Tidy(db) && v in db.index.versions && step.HoldStep? && Names(db, step, v)
    requires step.key.bucket in db.buckets && db.buckets[step.key.bucket].objectLock
    ensures var was, now := db.index.versions[v].protection, Apply(db, step).index.versions[v].protection;
            now.hold == step.on && now.mode == was.mode && now.retainUntil == was.retainUntil
  {
    ReadIsRow(db, step.key, step.id, v);
    assert v == VersionKey(step.key, v.id);
  }

  // ---- whole runs ------------------------------------------------------

  /** The clock of a delete or an update; the other requests read none that matters here. */
  predicate ClockBefore(step: Step, end: Instant) {
    match step
    case DeleteStep(input) => Nanos(input.now) < Nanos(end)
    case RetentionStep(_, _, _, _, _, t) => Nanos(t) < Nanos(end)
    case _ => true
  }

  predicate Bypasses(step: Step) {
    (step.DeleteStep? && step.delete.bypass) || (step.RetentionStep? && step.bypass)
  }

  /** Retention in one of the two modes, until `end` at least. */
  predicate RetainedUntil(p: Protection, end: Instant) {
    && p.retainUntil.Some? && Nanos(end) <= Nanos(p.retainUntil.value)
    && (p.mode == "GOVERNANCE" || p.mode == "COMPLIANCE")
  }

  lemma RetentionGuards(db: Db, step: Step, v: VersionKey, was: Protection, end: Instant)
    requires RetainedUntil(was, end) && ClockBefore(step, end) && (Bypasses(step) ==> was.mode == "COMPLIANCE")
    ensures Guards(was, step)
    ensures forall now :: Becomes(db, step, v, was, now) ==> RetainedUntil(now, end)
  {}

  /** Retention: until it ends, whatever else is asked without the bypass flag, the version keeps its
      row, no delete of its bytes is asked for, and its retention has not moved earlier. */
  lemma {:induction false} RetentionHolds(db: Db, steps: seq<Step>, v: VersionKey, content: Content, end: Instant)
    requires LockReady(db) && RunInLockScope(db, steps) && Kept(db, v, content)
    requires forall i :: 0 <= i < |steps| ==> ClockBefore(steps[i], end) && !Bypasses(steps[i])
    requires RetainedUntil(db.index.versions[v].protection, end)
    ensures Kept(Run(db, steps), v, content) && RetainedUntil(Run(db, steps).index.versions[v].protection, end)
    decreases steps
  {
    if steps != [] {
      RetentionGuards(db, steps[0], v, db.index.versions[v].protection, end);
      StepKeepsProtected(db, steps[0], v, content);
      StepApart(db, steps[0]);
      RetentionHolds(Apply(db, steps[0]), steps[1..], v, content, end);
    }
  }

  /** No update of this version asks for another mode than compliance. */
  ghost predicate ComplianceStays(db: Db, steps: seq<Step>, v: VersionKey)
    decreases steps
  {
    steps == []
    || ((steps[0].RetentionStep? && Names(db, steps[0], v) ==> steps[0].mode == "COMPLIANCE")
        && ComplianceStays(Apply(db, steps[0]), steps[1..], v))
  }

  /** Compliance retention holds against the bypass flag too, as long as no update gives the version
      the other mode. */
  lemma {:induction false} ComplianceHolds(db: Db, steps: seq<Step>, v: VersionKey, content: Content, end: Instant)
    requires LockReady(db) && RunInLockScope(db, steps) && Kept(db, v, content)
    requires forall i :: 0 <= i < |steps| ==> ClockBefore(steps[i], end)
    requires ComplianceStays(db, steps, v)
    requires var p := db.index.versions[v].protection; RetainedUntil(p, end) && p.mode == "COMPLIANCE"
    ensures Kept(Run(db, steps), v, content)
    ensures var p := Run(db, steps).index.versions[v].protection; RetainedUntil(p, end) && p.mode == "COMPLIANCE"
    decreases steps
  {
    if steps != [] {
      RetentionGuards(db, steps[0], v, db.index.versions[v].protection, end);
      StepKeepsProtected(db, steps[0], v, content);
      StepApart(db, steps[0]);
      ComplianceHolds(Apply(db, steps[0]), steps[1..], v, content, end);
    }
  }

  /** The step turns off the legal hold of this version. */
  predicate Lifts(db: Db, step: Step, v: VersionKey) {
    step.HoldStep? && !step.on && Names(db, step, v)
  }

  ghost predicate NeverLifted(db: Db, steps: seq<Step>, v: VersionKey)
    decreases steps
  {
    steps == [] || (!Lifts(db, steps[0], v) && NeverLifted(Apply(db, steps[0]), steps[1..], v))
  }

  /** Legal hold: as long as it is not lifted, the version keeps its row, its bytes and the hold,
      bypass flag or not. */
  lemma {:induction false} LegalHoldHolds(db: Db, steps: seq<Step>, v: VersionKey, content: Content)
    requires LockReady(db) && RunInLockScope(db, steps) && Kept(db, v, content)
    requires db.index.versions[v].protection.hold && NeverLifted(db, steps, v)
    ensures Kept(Run(db, steps), v, content) && Run(db, steps).index.versions[v].protection.hold
    decreases steps
  {
    if steps != [] {
      StepKeepsProtected(db, steps[0], v, content);
      StepApart(db, steps[0]);
      LegalHoldHolds(Apply(db, steps[0]), steps[1..], v, content);
    }
  }
}
