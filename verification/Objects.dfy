/** Requests against the object tables: puts, deletes, retention and hold updates, trash and
    migrations, each as a function of the tables, and runs of them. */
module Objects {
  import opened Common
  import opened Timestamps
  import opened VersionOrder
  import opened ObjectIndex
  import Text

  datatype Bucket = Bucket(
    versioning: bool, trash: bool, objectLock: bool, replication: seq<string>, defaultMode: string, defaultDays: int)

  datatype TrashRow = TrashRow(
    key: Key, content: Content, metadata: map<string, string>, tags: map<string, string>,
    deletedAt: string, purgeAfter: string)

  datatype ReplicaKey = ReplicaKey(key: Key, provider: string)

  datatype ReplicaRow = ReplicaRow(location: Location, size: nat, status: string)

  /** What is kept beside the index. `used` are the providers' usage counters; `issued` are the
      locations whose bytes an adapter may have been asked to delete. */
  datatype Books = Books(
    trash: map<string, TrashRow>, replicas: map<ReplicaKey, ReplicaRow>,
    used: map<string, int>, issued: set<Location>)

  datatype Db = Db(buckets: map<string, Bucket>, index: Index, books: Books)

  /** What the upload loop and the clock supply to a put. `stored` is None when no provider took
      the bytes; `defaultUntil` is the clock plus the bucket's default retention days. `down` are
      the providers that cannot be reached or whose deletes fail during the request. */
  datatype PutInput = PutInput(
    key: Key, metadata: map<string, string>, tags: map<string, string>, protection: Protection,
    stored: Option<Content>, versionId: string, now: Instant, defaultUntil: Instant, down: set<string>)

  datatype DeleteInput = DeleteInput(
    key: Key, versionId: string, bypass: bool, permanent: bool,
    markerId: string, trashId: string, now: Instant, purgeAfter: string, down: set<string>)

  // ---- usage, issued deletes, replicas ---------------------------------

  function AddUsage(b: Books, p: string, delta: int): Books {
    if p !in b.used then b else b.(used := b.used[p := Max(b.used[p] + delta, 0)])
  }

  function Uncharge(b: Books, p: string, size: int): Books {
    AddUsage(b, p, -size)
  }

  function Issue(b: Books, l: Location): Books {
    b.(issued := b.issued + {l})
  }

  function Targets(bucket: Bucket, primary: string): set<string> {
    set id | id in bucket.replication && id != "" && id != primary
  }

  function StatusIn(bucket: Bucket): Content -> string {
    (c: Content) => if Targets(bucket, c.location.provider) == {} then "none" else "pending"
  }

  /** Every replica of the key is deleted at its provider, uncharged if that worked, and forgotten. */
  function DropReplicas(b: Books, k: Key, down: set<string>): Books {
    b.(used := map p | p in b.used ::
         if ReplicaKey(k, p) in b.replicas && p !in down then Max(b.used[p] - b.replicas[ReplicaKey(k, p)].size, 0)
         else b.used[p],
       issued := b.issued + set r | r in b.replicas && r.key == k :: b.replicas[r].location,
       replicas := map r | r in b.replicas && r.key != k :: b.replicas[r])
  }

  function Enqueue(b: Books, k: Key, size: nat, targets: set<string>): Books {
    b.(replicas := b.replicas + map r | r in (set p | p in targets :: ReplicaKey(k, p)) ::
                     ReplicaRow(Location(r.provider, "", ""), size, "pending"))
  }

  // ---- put -------------------------------------------------------------

  const DEFAULT_BUCKET := Bucket(false, false, false, [], "", 0)

  function EnsureBucket(db: Db, name: string): Db {
    if name in db.buckets then db else db.(buckets := db.buckets[name := DEFAULT_BUCKET])
  }

  /** The protection a put asks for, after the bucket's default retention. */
  function Requested(b: Bucket, input: PutInput): Protection {
    if b.objectLock && input.protection.mode == "" && b.defaultDays > 0
    then Protection(Text.Upper(b.defaultMode), Some(input.defaultUntil), input.protection.hold)
    else input.protection
  }

  predicate PutAllowed(b: Bucket, input: PutInput) {
    var p := Requested(b, input);
    && (p.mode != "" || p.retainUntil.Some? || p.hold ==> b.objectLock)
    && (p.mode == "" || p.mode == "GOVERNANCE" || p.mode == "COMPLIANCE")
    && (p.mode != "" ==> RetainedAt(p, input.now))
  }

  predicate PutAccepted(db: Db, input: PutInput)
    requires input.key.bucket in db.buckets
  {
    PutAllowed(db.buckets[input.key.bucket], input)
    && input.stored.Some? && input.stored.value.location.provider in db.books.used
  }

  /** An upload that turns out too large is stored nowhere. */
  function Received(input: PutInput, received: int, maximum: int): PutInput {
    if received > maximum then input.(stored := None) else input
  }

  function NewObjectOf(b: Bucket, input: PutInput): NewObject
    requires input.stored.Some?
  {
    var content := input.stored.value;
    NewObject(content, input.metadata, input.tags, Requested(b, input), input.versionId, Format(input.now),
              StatusIn(b)(content))
  }

  /** Uncharges an overwritten object and deletes its bytes unless they were overwritten in place. */
  function CleanUp(b: Books, previous: Content, current: Content): Books {
    var uncharged := Uncharge(b, previous.location.provider, previous.size);
    if previous.location == current.location then uncharged else Issue(uncharged, previous.location)
  }

  function EnqueueAll(b: Books, k: Key, bucket: Bucket, content: Content): Books {
    var targets := Targets(bucket, content.location.provider);
    if targets == {} then b else Enqueue(b, k, content.size, targets)
  }

  /** A put's charges, before replicas are dropped and queued. */
  function Charged(b: Books, ix: Index, k: Key, bucket: Bucket, content: Content): (r: Books)
    ensures r.replicas == b.replicas && r.trash == b.trash && r.used.Keys == b.used.Keys
  {
    var charged := AddUsage(b, content.location.provider, content.size);
    if k !in ix.objects || bucket.versioning then charged else CleanUp(charged, ix.objects[k].content, content)
  }

  function PutBooks(b: Books, ix: Index, k: Key, bucket: Bucket, content: Content, down: set<string>): Books {
    var charged := Charged(b, ix, k, bucket, content);
    EnqueueAll(if k in ix.objects then DropReplicas(charged, k, down) else charged, k, bucket, content)
  }

  function Put(db: Db, input: PutInput): Db {
    var ensured := EnsureBucket(db, input.key.bucket);
    if !PutAccepted(ensured, input) then ensured else
      var b := ensured.buckets[input.key.bucket];
      Db(ensured.buckets,
         PutObject(db.index, input.key, b.versioning, NewObjectOf(b, input)),
         PutBooks(db.books, db.index, input.key, b, input.stored.value, input.down))
  }

  // ---- delete ----------------------------------------------------------

  ghost function RestoreBooks(b: Books, ix: Index, k: Key, bucket: Bucket): Books {
    var id := Restorable(ix, k);
    if id.None? then b else EnqueueAll(b, k, bucket, ix.versions[VersionKey(k, id.value)].content)
  }

  ghost function DeleteVersionBooks(b: Books, ix: Index, v: VersionKey, bucket: Bucket, down: set<string>): Books
    requires v in ix.versions
  {
    var left, row := WithoutVersion(ix, v), ix.versions[v];
    if row.isMarker then RestoreBooks(b, left, v.key, bucket)
    else
      var issued := Issue(b, row.content.location);
      var settled := if Restores(ix, v) then RestoreBooks(DropReplicas(issued, v.key, down), left, v.key, bucket)
          else issued;
      Uncharge(settled, row.content.location.provider, row.content.size)
  }

  /** A version that is neither protected nor out of reach, or a delete marker, can go. */
  predicate VersionDeletable(ix: Index, v: VersionKey, input: DeleteInput)
    requires v in ix.versions
  {
    var row := ix.versions[v];
    row.isMarker || (!Locked(row.protection, input.bypass, input.now) && row.content.location.provider !in input.down)
  }

  ghost function DeleteVersionOf(db: Db, bucket: Bucket, input: DeleteInput): Db {
    var v := VersionKey(input.key, input.versionId);
    if v !in db.index.versions then db
    else if !VersionDeletable(db.index, v, input) then
      var row := db.index.versions[v];
      if Locked(row.protection, input.bypass, input.now) then db
          else db.(books := Issue(db.books, row.content.location))
    else Db(db.buckets, DeleteVersion(db.index, v, StatusIn(bucket)),
            DeleteVersionBooks(db.books, db.index, v, bucket, input.down))
  }

  function TrashOf(ix: Index, k: Key, deletedAt: string, purgeAfter: string): TrashRow
    requires k in ix.objects
  {
    var a := Hydrated(ix, k);
    TrashRow(k, ix.objects[k].content, a.metadata, a.tags, deletedAt, purgeAfter)
  }

  function PutTrash(b: Books, id: string, row: TrashRow): Books {
    b.(trash := b.trash[id := row])
  }

  function DeleteObject(db: Db, bucket: Bucket, input: DeleteInput): Db {
    var k, ix, b := input.key, db.index, db.books;
    if k !in ix.objects || Locked(Hydrated(ix, k).protection, input.bypass, input.now) then db
    else if bucket.versioning && !input.permanent then
      Db(db.buckets, PutMarker(ix, k, input.markerId, Format(input.now)), DropReplicas(b, k, input.down))
    else if bucket.trash && !input.permanent then
      var trashed := PutTrash(b, input.trashId, TrashOf(ix, k, Format(input.now), input.purgeAfter));
      Db(db.buckets, DropObject(ix, k), DropReplicas(trashed, k, input.down))
    else
      var content := ix.objects[k].content;
      var issued := Issue(b, content.location);
      if content.location.provider in input.down then db.(books := issued)
      else Db(db.buckets, DropObject(ix, k),
              Uncharge(DropReplicas(issued, k, input.down), content.location.provider, content.size))
  }

  ghost function Delete(db: Db, input: DeleteInput): Db {
    if input.key.bucket !in db.buckets then db
    else if input.versionId != "" then DeleteVersionOf(db, db.buckets[input.key.bucket], input)
    else DeleteObject(db, db.buckets[input.key.bucket], input)
  }

  function VersionDeleteResult(ix: Index, v: VersionKey, input: DeleteInput): Result<()> {
    if v !in ix.versions then Err(NotFound)
    else if VersionDeletable(ix, v, input) then Ok(())
    else if Locked(ix.versions[v].protection, input.bypass, input.now) then Err(ObjectLocked)
    else Err(AdapterFailed)
  }

  /** What the caller of a delete is told. */
  function DeleteResult(db: Db, input: DeleteInput): Result<()> {
    var k := input.key;
    if k.bucket !in db.buckets then Err(NotFound)
    else if input.versionId != "" then VersionDeleteResult(db.index, VersionKey(k, input.versionId), input)
    else if k !in db.index.objects then Err(NotFound)
    else if Locked(Hydrated(db.index, k).protection, input.bypass, input.now) then Err(ObjectLocked)
    else if (db.buckets[k.bucket].versioning || db.buckets[k.bucket].trash) && !input.permanent then Ok(())
    else if db.index.objects[k].content.location.provider in input.down then Err(AdapterFailed)
    else Ok(())
  }

  // ---- retention and legal hold ----------------------------------------

  /** Protection can be updated only in a bucket with object lock. */
  predicate LockEnabled(db: Db, k: Key) {
    k.bucket in db.buckets && db.buckets[k.bucket].objectLock
  }

  /** A protection update that starts from what is read for this version succeeds. */
  predicate ProtectionAllowed(db: Db, k: Key, id: string, bypass: bool, now: Instant,
                              change: Protection -> Protection) {
    && LockEnabled(db, k) && Exists(db.index, k, id)
    && UpdateAllowed(db.index, k, Protected(db.index, k, id).versionId, change(Protected(db.index, k, id).protection),
                     bypass, now)
  }

  function Retain(db: Db, k: Key, id: string, mode: string, until: Instant, bypass: bool, now: Instant): Db {
    if !LockEnabled(db, k) then db else db.(index := PutRetention(db.index, k, id, mode, until, bypass, now))
  }

  function Hold(db: Db, k: Key, id: string, on: bool, now: Instant): Db {
    if !LockEnabled(db, k) then db else db.(index := PutLegalHold(db.index, k, id, on, now))
  }

  // ---- trash and migration ---------------------------------------------


  function DropTrash(b: Books, id: string): Books {
    b.(trash := b.trash - {id})
  }

  function RestoreTrashIndex(ix: Index, t: TrashRow): Index {
    PutAttributes(PutRow(ix, t.key, t.content, "none", t.deletedAt), t.key,
                  Attributes(t.metadata, t.tags, "", NO_PROTECTION))
  }

  function RestoreTrash(db: Db, id: string): Db {
    if id !in db.books.trash || db.books.trash[id].key in db.index.objects then db
    else Db(db.buckets, RestoreTrashIndex(db.index, db.books.trash[id]), DropTrash(db.books, id))
  }

  function PurgeTrash(db: Db, id: string, down: set<string>): Db {
    if id !in db.books.trash then db else
      var content := db.books.trash[id].content;
      var issued := Issue(db.books, content.location);
      if content.location.provider in down then db.(books := issued)
      else db.(books := Uncharge(DropTrash(issued, id), content.location.provider, content.size))
  }

  /** The charge that a copy made earlier at the target still carries. */
  function EarlierCopy(b: Books, r: ReplicaKey): nat {
    if r in b.replicas && b.replicas[r].status == "succeeded" then b.replicas[r].size else 0
  }

  function CopyBooks(b: Books, r: ReplicaKey, content: Content): Books {
    var charged := AddUsage(b, r.provider, content.size);
    var uncharged := if EarlierCopy(b, r) > 0 then Uncharge(charged, r.provider, EarlierCopy(b, r)) else charged;
    uncharged.(replicas := uncharged.replicas[r := ReplicaRow(content.location, content.size, "succeeded")])
  }

  function MoveBooks(b: Books, source: Content, content: Content, down: set<string>): Books {
    var issued := Issue(AddUsage(b, content.location.provider, content.size), source.location);
    if source.location.provider in down then issued else Uncharge(issued, source.location.provider, source.size)
  }

  function MoveIndex(ix: Index, k: Key, content: Content): Index
    requires k in ix.objects
  {
    PutRow(ix, k, content, ix.objects[k].replicaStatus, ix.objects[k].createdAt)
  }

  /** Copies or moves the current object of a key to the provider that stored it; `stored` is
      None when the copy failed. */
  function Migrate(db: Db, k: Key, move: bool, stored: Option<Content>, down: set<string>): Db {
    if k !in db.index.objects || stored.None? || stored.value.location.provider !in db.books.used then db
    else if move then
      Db(db.buckets, MoveIndex(db.index, k, stored.value),
         MoveBooks(db.books, db.index.objects[k].content, stored.value, down))
    else db.(books := CopyBooks(db.books, ReplicaKey(k, stored.value.location.provider), stored.value))
  }

  // ---- replication -----------------------------------------------------

  /** The row of a replica that was stored: its bytes were committed at the provider. */
  function FinishReplica(b: Books, r: ReplicaKey, stored: Content): Books {
    var charged := AddUsage(b, r.provider, stored.size);
    charged.(replicas := charged.replicas[r := ReplicaRow(stored.location, stored.size, "succeeded")])
  }

  /** How a run of a replica ends: the provider is disabled, some step fails, or it is stored. */
  datatype ReplicaRun = Disabled | Refused | Copied(content: Content)

  /** A worker claims a queued replica, or a claim that went stale is taken back. */
  function TurnReplica(db: Db, k: Key, provider: string, running: bool): Db {
    var r, b := ReplicaKey(k, provider), db.books;
    var was, becomes := if running then "pending" else "running", if running then "running" else "pending";
    if r !in b.replicas || b.replicas[r].status != was then db
    else db.(books := PutReplica(b, r, b.replicas[r].(status := becomes)))
  }

  /** What a failed run writes back: the row as it is now, queued again unless this attempt was the
      `last`; a row that is gone is queued anew. */
  function FailedReplica(b: Books, r: ReplicaKey, size: nat, last: bool): ReplicaRow {
    if r in b.replicas then b.replicas[r].(status := if last then "failed" else "pending")
    else ReplicaRow(Location(r.provider, "", ""), size, "pending")
  }

  function PutReplica(b: Books, r: ReplicaKey, row: ReplicaRow): Books {
    b.(replicas := b.replicas[r := row])
  }

  /** The end of a run, whatever the row has become meanwhile. A key whose object is gone leaves an
      empty failed row, a disabled provider a failed one. */
  function Replicate(db: Db, k: Key, provider: string, run: ReplicaRun, last: bool): Db {
    var r, b := ReplicaKey(k, provider), db.books;
    if k !in db.index.objects then
      db.(books := PutReplica(b, r, ReplicaRow(Location(provider, "", ""), 0, "failed")))
    else
      var size := db.index.objects[k].content.size;
      if run.Refused? || provider !in b.used then db.(books := PutReplica(b, r, FailedReplica(b, r, size, last)))
      else if run.Disabled? then
        db.(books := PutReplica(b, r, ReplicaRow(Location(provider, "", ""), size, "failed")))
      else db.(books := FinishReplica(b, r, run.content))
  }

  // ---- runs ------------------------------------------------------------

  datatype Step =
    | PutStep(put: PutInput)
    | DeleteStep(delete: DeleteInput)
    | RetentionStep(key: Key, id: string, mode: string, until: Instant, bypass: bool, now: Instant)
    | HoldStep(key: Key, id: string, on: bool, now: Instant)
    | RestoreTrashStep(trashId: string)
    | PurgeTrashStep(trashId: string, down: set<string>)
    | MigrateStep(key: Key, move: bool, stored: Option<Content>, down: set<string>)
    | TurnReplicaStep(key: Key, provider: string, running: bool)
    | ReplicateStep(key: Key, provider: string, run: ReplicaRun, last: bool)

  ghost function Apply(db: Db, step: Step): Db {
    match step
    case PutStep(input) => Put(db, input)
    case DeleteStep(input) => Delete(db, input)
    case RetentionStep(k, id, mode, until, bypass, now) => Retain(db, k, id, mode, until, bypass, now)
    case HoldStep(k, id, on, now) => Hold(db, k, id, on, now)
    case RestoreTrashStep(id) => RestoreTrash(db, id)
    case PurgeTrashStep(id, down) => PurgeTrash(db, id, down)
    case MigrateStep(k, move, stored, down) => Migrate(db, k, move, stored, down)
    case TurnReplicaStep(k, provider, running) => TurnReplica(db, k, provider, running)
    case ReplicateStep(k, provider, run, last) => Replicate(db, k, provider, run, last)
  }

  ghost function Run(db: Db, steps: seq<Step>): Db
    decreases steps
  {
    if steps == [] then db else Run(Apply(db, steps[0]), steps[1..])
  }

  // ---- versioned buckets over whole runs -------------------------------

  predicate Versioned(db: Db, k: Key) {
    k.bucket in db.buckets && db.buckets[k.bucket].versioning
  }

  ghost predicate Consistent(db: Db) {
    && (forall k :: Versioned(db, k) ==> CurrentIsNewest(db.index, k))
    && (forall v :: v in db.index.versions ==> v.id != "")
  }

  /** The ids drawn for a request are new. */
  predicate Drawn(db: Db, step: Step) {
    match step
    case PutStep(input) => Versioned(db, input.key) ==> FreshId(db.index, input.key, input.versionId)
    case DeleteStep(input) =>
        if Versioned(db, input.key) then input.versionId == "" ==> FreshId(db.index, input.key, input.markerId)
        else input.trashId !in db.books.trash
    case _ => true
  }

  /** The trash row would come back as a current object. */
  predicate Recoverable(db: Db, id: string) {
    id in db.books.trash && db.books.trash[id].key !in db.index.objects
  }

  /** The migration would store the object, and for a move write it to the index. */
  predicate Migrates(db: Db, k: Key, stored: Option<Content>) {
    k in db.index.objects && stored.Some? && stored.value.location.provider in db.books.used
  }

  /** The request leaves the current object of each versioned key the version it stands for: a
      trash row is not restored over versions, and an object with a version row is not moved. */
  ghost predicate KeepsVersions(db: Db, step: Step) {
    match step
    case RestoreTrashStep(id) =>
        Recoverable(db, id) && Versioned(db, db.books.trash[id].key) ==> NoVersions(db.index, db.books.trash[id].key)
    case MigrateStep(k, move, stored, _) =>
        move && Versioned(db, k) && Migrates(db, k, stored) ==>
          CurrentId(db.index, k) == "" || stored.value == db.index.objects[k].content
    case _ => true
  }

  /** In versioned buckets: time moves on, and only an object without versions is deleted for good.
      Other buckets may do anything. */
  ghost predicate InOrder(db: Db, step: Step) {
    && Drawn(db, step) && KeepsVersions(db, step)
    && match step
       case PutStep(input) => Versioned(db, input.key) ==> Later(db.index, input.key, Format(input.now))
       case DeleteStep(input) =>
           Versioned(db, input.key) && input.versionId == "" && input.key in db.index.objects ==>
             if input.permanent then CurrentId(db.index, input.key) == ""
             else Later(db.index, input.key, Format(input.now))
       case _ => true
  }

  /** A step on one key that keeps that key consistent keeps all of them. */
  lemma OneKeyStep(db: Db, after: Db, k: Key)
    requires Consistent(db) && OnlyKey(db.index, after.index, k)
    requires forall j :: Versioned(after, j) ==> Versioned(db, j)
    requires Versioned(db, k) ==> CurrentIsNewest(after.index, k)
    requires forall id :: VersionKey(k, id) in after.index.versions ==> id != ""
    ensures Consistent(after)
  {
    forall j | Versioned(after, j) ensures CurrentIsNewest(after.index, j) {
      if j != k {
        OtherKeyKeeps(db.index, after.index, k, j);
      }
    }
    forall v | v in after.index.versions ensures v.id != "" {
      assert v == VersionKey(v.key, v.id);
      if v.key != k {
        assert SameVersion(db.index, after.index, v);
      }
    }
  }

  lemma IdsNotEmpty(db: Db, k: Key)
    requires Consistent(db)
    ensures forall id :: VersionKey(k, id) in db.index.versions ==> id != ""
  {}

  lemma PutIndexKeeps(ix: Index, k: Key, versioning: bool, o: NewObject)
    requires forall id :: VersionKey(k, id) in ix.versions ==> id != ""
    requires versioning ==> CurrentIsNewest(ix, k) && Later(ix, k, o.createdAt) && FreshId(ix, k, o.versionId)
    ensures OnlyKey(ix, PutObject(ix, k, versioning, o), k)
    ensures versioning ==> CurrentIsNewest(PutObject(ix, k, versioning, o), k)
    ensures forall id :: VersionKey(k, id) in PutObject(ix, k, versioning, o).versions ==> id != ""
  {
    PutIsLocal(ix, k, versioning, o);
    if versioning {
      PutKeeps(ix, k, o);
    }
  }

  lemma PutStepKeeps(db: Db, input: PutInput)
    requires Consistent(db) && InOrder(db, PutStep(input))
    ensures Consistent(Put(db, input))
  {
    var ensured := EnsureBucket(db, input.key.bucket);
    IdsNotEmpty(db, input.key);
    if PutAccepted(ensured, input) {
      var b := ensured.buckets[input.key.bucket];
      PutIndexKeeps(db.index, input.key, b.versioning, NewObjectOf(b, input));
      OneKeyStep(db, Put(db, input), input.key);
    }
  }

  lemma ObjectDeleteIndexKeeps(db: Db, bucket: Bucket, input: DeleteInput)
    requires Consistent(db) && InOrder(db, DeleteStep(input)) && input.versionId == ""
    requires input.key.bucket in db.buckets && bucket == db.buckets[input.key.bucket]
    ensures var k, after := input.key, DeleteObject(db, bucket, input).index;
            && OnlyKey(db.index, after, k)
            && (bucket.versioning ==> CurrentIsNewest(after, k))
            && forall id :: VersionKey(k, id) in after.versions ==> id != ""
  {
    var k, ix := input.key, db.index;
    IdsNotEmpty(db, k);
    if k in ix.objects && !Locked(Hydrated(ix, k).protection, input.bypass, input.now) {
      if bucket.versioning && !input.permanent {
        MarkerKeeps(ix, k, input.markerId, Format(input.now));
      } else {
        DropIsLocal(ix, k);
      }
    }
  }

  lemma VersionDeleteStepKeeps(db: Db, input: DeleteInput)
    requires Consistent(db) && input.versionId != "" && input.key.bucket in db.buckets
    ensures Consistent(Delete(db, input))
  {
    var ix, bucket, v := db.index, db.buckets[input.key.bucket], VersionKey(input.key, input.versionId);
    IdsNotEmpty(db, v.key);
    if v in ix.versions && VersionDeletable(ix, v, input) {
      DeleteVersionIsLocal(ix, v, StatusIn(bucket));
      if bucket.versioning {
        DeleteVersionKeeps(ix, v, StatusIn(bucket));
      }
      OneKeyStep(db, Delete(db, input), v.key);
    }
  }

  lemma DeleteStepKeeps(db: Db, input: DeleteInput)
    requires Consistent(db) && InOrder(db, DeleteStep(input))
    ensures Consistent(Delete(db, input))
  {
    if input.key.bucket in db.buckets {
      if input.versionId != "" {
        VersionDeleteStepKeeps(db, input);
      } else {
        ObjectDeleteIndexKeeps(db, db.buckets[input.key.bucket], input);
        OneKeyStep(db, Delete(db, input), input.key);
      }
    }
  }

  lemma UpdateStepKeeps(db: Db, k: Key, id: string, wanted: Protection, bypass: bool, now: Instant)
    requires Consistent(db)
    ensures Consistent(db.(index := UpdateProtection(db.index, k, id, wanted, bypass, now)))
  {
    var after := db.(index := UpdateProtection(db.index, k, id, wanted, bypass, now));
    IdsNotEmpty(db, k);
    UpdateIsLocal(db.index, k, id, wanted, bypass, now);
    if Versioned(db, k) {
      UpdateKeeps(db.index, k, id, wanted, bypass, now);
    }
    OneKeyStep(db, after, k);
  }

  lemma RestoreTrashIsLocal(ix: Index, t: TrashRow)
    ensures OnlyKey(ix, RestoreTrashIndex(ix, t), t.key) && RestoreTrashIndex(ix, t).versions == ix.versions
  {}

  lemma RestoreTrashKeeps(db: Db, id: string)
    requires Consistent(db) && InOrder(db, RestoreTrashStep(id))
    ensures Consistent(RestoreTrash(db, id))
  {
    if id in db.books.trash {
      var t := db.books.trash[id];
      IdsNotEmpty(db, t.key);
      RestoreTrashIsLocal(db.index, t);
      OneKeyStep(db, RestoreTrash(db, id), t.key);
    }
  }

  lemma MigrateKeeps(db: Db, k: Key, move: bool, stored: Option<Content>, down: set<string>)
    requires Consistent(db) && InOrder(db, MigrateStep(k, move, stored, down))
    ensures Consistent(Migrate(db, k, move, stored, down))
  {
    if k in db.index.objects && stored.Some? {
      IdsNotEmpty(db, k);
      assert OnlyKey(db.index, MoveIndex(db.index, k, stored.value), k);
      OneKeyStep(db, Migrate(db, k, move, stored, down), k);
    }
  }

  lemma StepKeeps(db: Db, step: Step)
    requires Consistent(db) && InOrder(db, step)
    ensures Consistent(Apply(db, step))
  {
    match step
    case PutStep(input) => PutStepKeeps(db, input);
    case DeleteStep(input) => DeleteStepKeeps(db, input);
    case RetentionStep(k, id, mode, until, bypass, now) =>
      if Exists(db.index, k, id) {
        var read := Protected(db.index, k, id);
        UpdateStepKeeps(db, k, read.versionId, WithRetention(read.protection, mode, until), bypass, now);
      }
    case HoldStep(k, id, on, now) =>
      if Exists(db.index, k, id) {
        var read := Protected(db.index, k, id);
        UpdateStepKeeps(db, k, read.versionId, read.protection.(hold := on), false, now);
      }
    case RestoreTrashStep(id) => RestoreTrashKeeps(db, id);
    case PurgeTrashStep(id, down) => assert Apply(db, step).index == db.index && Apply(db, step).buckets == db.buckets;
    case MigrateStep(k, move, stored, down) => MigrateKeeps(db, k, move, stored, down);
    case TurnReplicaStep(_, _, _) => assert Apply(db, step).index == db.index && Apply(db, step).buckets == db.buckets;
    case ReplicateStep(_, _, _, _) => assert Apply(db, step).index == db.index && Apply(db, step).buckets == db.buckets;
  }

  ghost predicate RunInOrder(db: Db, steps: seq<Step>)
    decreases steps
  {
    steps == [] || (InOrder(db, steps[0]) && RunInOrder(Apply(db, steps[0]), steps[1..]))
  }

  /** Over every run: the current object of every key of a versioned bucket is its newest
      version, and is absent exactly when that is a delete marker or no version is left. */
  lemma {:induction false} CurrentIsAlwaysNewest(db: Db, steps: seq<Step>)
    requires Consistent(db) && RunInOrder(db, steps)
    ensures Consistent(Run(db, steps))
    decreases steps
  {
    if steps != [] {
      StepKeeps(db, steps[0]);
      CurrentIsAlwaysNewest(Apply(db, steps[0]), steps[1..]);
    }
  }
}
