/** The bytes behind the rows: which deletes each request asks of the providers, and exactly when
    none of them is for bytes that a remaining row points to. */
module ByteSafety {
  import opened Common
  import opened Timestamps
  import opened VersionOrder
  import opened ObjectIndex
  import opened Objects
  import opened VersionBacking
  import opened StoreShape

  // ---- rows and their bytes --------------------------------------------

  datatype Row =
    | ObjectAt(key: Key)
    | VersionAt(version: VersionKey)
    | TrashAt(id: string)
    | ReplicaAt(replica: ReplicaKey)

  /** A location without a remote key, as queued replicas and markers have, names no bytes. */
  function Place(l: Location): Option<Location> {
    if l.remoteKey == "" then None else Some(l)
  }

  /** The bytes a row points to. The current object of a versioned key is its version row. */
  function BytesOf(db: Db, row: Row): Option<Location> {
    match row
    case ObjectAt(k) =>
      if k in db.index.objects && ArchivedKey(db.index, k) !in db.index.versions
      then Place(db.index.objects[k].content.location) else None
    case VersionAt(v) =>
      if v in db.index.versions && !db.index.versions[v].isMarker
      then Place(db.index.versions[v].content.location) else None
    case TrashAt(id) => if id in db.books.trash then Place(db.books.trash[id].content.location) else None
    case ReplicaAt(r) => if r in db.books.replicas then Place(db.books.replicas[r].location) else None
  }

  /** No two rows point to the same bytes. */
  ghost predicate Apart(db: Db) {
    forall a, b :: a != b && BytesOf(db, a).Some? ==> BytesOf(db, a) != BytesOf(db, b)
  }

  /** The current object's bytes are those of one of the rows. */
  lemma CurrentIsRow(db: Db, k: Key)
    requires Tidy(db) && k in db.index.objects
    ensures var row := if ArchivedKey(db.index, k) in db.index.versions then VersionAt(ArchivedKey(db.index, k))
                       else ObjectAt(k);
            BytesOf(db, row) == Place(db.index.objects[k].content.location)
  {
    if ArchivedKey(db.index, k) in db.index.versions {
      assert Versioned(db, k) && CurrentIsVersion(db.index, k);
    }
  }

  // ---- what a request asks to delete -----------------------------------

  function ReplicaPlaces(b: Books, k: Key): set<Location> {
    set r | r in b.replicas && r.key == k :: b.replicas[r].location
  }

  function AskedByPut(db: Db, input: PutInput): set<Location> {
    var ensured, k := EnsureBucket(db, input.key.bucket), input.key;
    if !PutAccepted(ensured, input) || k !in db.index.objects then {} else
      var previous := db.index.objects[k].content.location;
      ReplicaPlaces(db.books, k)
          + if ensured.buckets[k.bucket].versioning || previous == input.stored.value.location then {} else {previous}
  }

  function AskedByVersionDelete(db: Db, input: DeleteInput): set<Location> {
    var v := VersionKey(input.key, input.versionId);
    if v !in db.index.versions || db.index.versions[v].isMarker
        || Locked(db.index.versions[v].protection, input.bypass, input.now) then {}
    else
      {db.index.versions[v].content.location}
          + if VersionDeletable(db.index, v, input) && Restores(db.index, v) then ReplicaPlaces(db.books, v.key) else {}
  }

  /** The delete goes to the provider at once, without a marker or the trash. */
  predicate Immediate(bucket: Bucket, input: DeleteInput) {
    input.permanent || !(bucket.versioning || bucket.trash)
  }

  function AskedByObjectDelete(db: Db, bucket: Bucket, input: DeleteInput): set<Location> {
    var k := input.key;
    if k !in db.index.objects || Locked(Hydrated(db.index, k).protection, input.bypass, input.now) then {}
    else
      var content := db.index.objects[k].content;
      if !Immediate(bucket, input) then ReplicaPlaces(db.books, k)
      else {content.location} + if content.location.provider in input.down then {} else ReplicaPlaces(db.books, k)
  }

  function Asked(db: Db, step: Step): set<Location> {
    match step
    case PutStep(input) => AskedByPut(db, input)
    case DeleteStep(input) =>
        if input.key.bucket !in db.buckets then {}
        else if input.versionId != "" then AskedByVersionDelete(db, input)
        else AskedByObjectDelete(db, db.buckets[input.key.bucket], input)
    case PurgeTrashStep(id, _) => if id in db.books.trash then {db.books.trash[id].content.location} else {}
    case MigrateStep(k, move, stored, _) =>
        if move && Migrates(db, k, stored) then {db.index.objects[k].content.location} else {}
    case _ => {}
  }

  lemma ChargedAsks(b: Books, ix: Index, k: Key, bucket: Bucket, content: Content)
    ensures Charged(b, ix, k, bucket, content).issued
         == b.issued + if k !in ix.objects || bucket.versioning || ix.objects[k].content.location == content.location
                       then {} else {ix.objects[k].content.location}
  {}

  lemma PutBooksAsks(b: Books, ix: Index, k: Key, bucket: Bucket, content: Content, down: set<string>)
    ensures PutBooks(b, ix, k, bucket, content, down).issued
         == Charged(b, ix, k, bucket, content).issued + if k in ix.objects then ReplicaPlaces(b, k) else {}
  {}

  lemma PutAsks(db: Db, input: PutInput)
    ensures Put(db, input).books.issued == db.books.issued + AskedByPut(db, input)
  {
    var ensured, k := EnsureBucket(db, input.key.bucket), input.key;
    if PutAccepted(ensured, input) {
      var b, content := ensured.buckets[k.bucket], input.stored.value;
      ChargedAsks(db.books, db.index, k, b, content);
      PutBooksAsks(db.books, db.index, k, b, content, input.down);
    }
  }

  lemma RestoreAsksNothing(b: Books, ix: Index, k: Key, bucket: Bucket)
    ensures RestoreBooks(b, ix, k, bucket).issued == b.issued
  {}

  lemma VersionDeleteAsks(db: Db, bucket: Bucket, input: DeleteInput)
    ensures DeleteVersionOf(db, bucket, input).books.issued == db.books.issued + AskedByVersionDelete(db, input)
  {
    var ix, v := db.index, VersionKey(input.key, input.versionId);
    if v in ix.versions && VersionDeletable(ix, v, input) {
      var left := WithoutVersion(ix, v);
      RestoreAsksNothing(db.books, left, v.key, bucket);
      RestoreAsksNothing(DropReplicas(Issue(db.books, ix.versions[v].content.location), v.key, input.down), left, v.key,
                         bucket);
    }
  }

  lemma ObjectDeleteAsks(db: Db, bucket: Bucket, input: DeleteInput)
    ensures DeleteObject(db, bucket, input).books.issued == db.books.issued + AskedByObjectDelete(db, bucket, input)
  {}

  /** Every request asks exactly for these deletes. */
  lemma StepAsks(db: Db, step: Step)
    ensures Apply(db, step).books.issued == db.books.issued + Asked(db, step)
  {
    match step
    case PutStep(input) => PutAsks(db, input);
    case DeleteStep(input) =>
      if input.key.bucket in db.buckets {
        VersionDeleteAsks(db, db.buckets[input.key.bucket], input);
        ObjectDeleteAsks(db, db.buckets[input.key.bucket], input);
      }
    case _ =>
  }

  // ---- when that is safe -----------------------------------------------

  /** No delete is asked for bytes that a row points to afterwards. */
  ghost predicate Safe(db: Db, step: Step) {
    forall row :: BytesOf(Apply(db, step), row).Some? ==> BytesOf(Apply(db, step), row).value !in Asked(db, step)
  }

  /** No row but the given one, which is about to be overwritten, points to the location. */
  ghost predicate Unheld(db: Db, l: Location, own: Row) {
    forall row :: BytesOf(db, row) == Some(l) ==> row == own
  }

  ghost predicate Free(db: Db, l: Location) {
    forall row :: BytesOf(db, row) != Some(l)
  }

  /** Whether a request keeps the bytes of all rows: an upload, copy or move goes to a place that no
      other row points to, an immediate delete removes the last row of its bytes, and the provider
      asked for a delete carries it out. */
  ghost predicate KeepsBytes(db: Db, step: Step) {
    match step
    case PutStep(input) =>
        var ensured := EnsureBucket(db, input.key.bucket);
        PutAccepted(ensured, input) ==>
          if ensured.buckets[input.key.bucket].versioning then Free(db, input.stored.value.location)
          else Unheld(db, input.stored.value.location, ObjectAt(input.key))
    case DeleteStep(input) => input.key.bucket in db.buckets ==>
        if input.versionId != "" then VersionDeleteCarried(db, input) else ObjectDeleteCarried(db, input)
    case PurgeTrashStep(id, down) =>
        id in db.books.trash && Place(db.books.trash[id].content.location).Some? ==>
          db.books.trash[id].content.location.provider !in down
    case MigrateStep(k, move, stored, _) => Migrates(db, k, stored) ==>
        if !move then Unheld(db, stored.value.location, ReplicaAt(ReplicaKey(k, stored.value.location.provider)))
        else if ArchivedKey(db.index, k) in db.index.versions then Place(db.index.objects[k].content.location).None?
        else Free(db, stored.value.location)
    case ReplicateStep(k, provider, run, _) =>
        k in db.index.objects && run.Copied? && provider in db.books.used ==>
          Unheld(db, run.content.location, ReplicaAt(ReplicaKey(k, provider)))
    case _ => true
  }

  predicate VersionDeleteCarried(db: Db, input: DeleteInput) {
    var v := VersionKey(input.key, input.versionId);
    BytesOf(db, VersionAt(v)).Some? && !Locked(db.index.versions[v].protection, input.bypass, input.now) ==>
      db.index.versions[v].content.location.provider !in input.down
  }

  predicate ObjectDeleteCarried(db: Db, input: DeleteInput)
    requires input.key.bucket in db.buckets
  {
    var k := input.key;
    && (k in db.index.objects && !Locked(Hydrated(db.index, k).protection, input.bypass, input.now)
        && Immediate(db.buckets[k.bucket], input) && Place(db.index.objects[k].content.location).Some? ==>
          && db.index.objects[k].content.location.provider !in input.down
          && ArchivedKey(db.index, k) !in db.index.versions)
  }

  // ---- rows across a request -------------------------------------------

  /** Every row points where it did or to nothing, except that the bytes of row `a` may now be those
      of row `b`, and that row `placed` is anything. */
  ghost predicate OneMove(db: Db, after: Db, a: Row, b: Row, placed: Row) {
    && (forall x :: x != b && x != placed && BytesOf(after, x).Some? ==> x != a && BytesOf(after, x) == BytesOf(db, x))
    && (b != placed && BytesOf(after, b).Some? ==> BytesOf(after, b) == BytesOf(db, a))
  }

  /** Nothing but `placed` points there. */
  ghost predicate Alone(after: Db, placed: Row) {
    forall x :: x != placed && BytesOf(after, x).Some? ==> BytesOf(after, x) != BytesOf(after, placed)
  }

  lemma MoveApart(db: Db, after: Db, a: Row, b: Row, placed: Row)
    requires Apart(db) && OneMove(db, after, a, b, placed)
    ensures Apart(after) <==> Alone(after, placed)
  {
    if Alone(after, placed) {
      forall x, y | x != y && BytesOf(after, x).Some? ensures BytesOf(after, x) != BytesOf(after, y) {
        if x != placed && y != placed && BytesOf(after, y).Some? {
          var u, v := if x == b then a else x, if y == b then a else y;
          assert BytesOf(after, x) == BytesOf(db, u) && BytesOf(after, y) == BytesOf(db, v) && u != v;
        } else if x == placed && BytesOf(after, y).Some? {
          assert BytesOf(after, y) != BytesOf(after, placed);
        }
      }
    } else {
      var x :| x != placed && BytesOf(after, x).Some? && BytesOf(after, x) == BytesOf(after, placed);
      assert !Apart(after);
    }
  }

  /** With all asked rows gone, only `placed` could point to asked bytes. */
  ghost predicate GoneFor(db: Db, after: Db, asked: set<Location>, a: Row, b: Row, placed: Row) {
    forall r :: BytesOf(db, r).Some? && BytesOf(db, r).value in asked
      ==> (r == placed || r == b || BytesOf(after, r).None?) && (r == a ==> b == placed || BytesOf(after, b).None?)
  }

  lemma MoveSafe(db: Db, step: Step, a: Row, b: Row, placed: Row)
    requires OneMove(db, Apply(db, step), a, b, placed) && GoneFor(db, Apply(db, step), Asked(db, step), a, b, placed)
    ensures var bytes := BytesOf(Apply(db, step), placed);
            Safe(db, step) <==> bytes.None? || bytes.value !in Asked(db, step)
  {
    var after, asked := Apply(db, step), Asked(db, step);
    forall x | x != placed && BytesOf(after, x).Some? ensures BytesOf(after, x).value !in asked {
      var u := if x == b then a else x;
      assert BytesOf(db, u) == BytesOf(after, x);
    }
  }

  /** A request on one key leaves the index rows of the others where they point. */
  lemma OtherRows(db: Db, after: Db, k: Key)
    requires OnlyKey(db.index, after.index, k)
    ensures forall j :: j != k ==> BytesOf(after, ObjectAt(j)) == BytesOf(db, ObjectAt(j))
    ensures forall v: VersionKey :: v.key != k ==> BytesOf(after, VersionAt(v)) == BytesOf(db, VersionAt(v))
  {
    forall j | j != k ensures BytesOf(after, ObjectAt(j)) == BytesOf(db, ObjectAt(j)) {
      assert SameObject(db.index, after.index, j);
      assert SameVersion(db.index, after.index, ArchivedKey(db.index, j));
    }
    forall v: VersionKey | v.key != k ensures BytesOf(after, VersionAt(v)) == BytesOf(db, VersionAt(v)) {
      assert SameVersion(db.index, after.index, v);
    }
  }

  /** The replica rows left are those of other keys. */
  ghost predicate ReplicasGone(b: Books, after: Books, k: Key) {
    forall r :: r in after.replicas && after.replicas[r].location.remoteKey != ""
      ==> r.key != k && r in b.replicas && after.replicas[r] == b.replicas[r]
  }

  lemma PutBooksRows(b: Books, ix: Index, k: Key, bucket: Bucket, content: Content, down: set<string>)
    requires Owned(b, ix)
    ensures var after := PutBooks(b, ix, k, bucket, content, down); after.trash == b.trash && ReplicasGone(b, after, k)
  {}

  // ---- put -------------------------------------------------------------

  /** The row that stands for the current object once it is archived. */
  function ArchivedAt(ix: Index, k: Key): Row {
    if k in ix.objects && ArchivedKey(ix, k) !in ix.versions then VersionAt(ArchivedKey(ix, k)) else ObjectAt(k)
  }

  lemma VersionedPutMove(db: Db, after: Db, k: Key, o: NewObject)
    requires Tidy(db) && Versioned(db, k) && FreshId(db.index, k, o.versionId)
    requires after.index == PutObject(db.index, k, true, o)
    requires after.books.trash == db.books.trash && ReplicasGone(db.books, after.books, k)
    ensures OneMove(db, after, ObjectAt(k), ArchivedAt(db.index, k), VersionAt(VersionKey(k, o.versionId)))
    ensures BytesOf(after, VersionAt(VersionKey(k, o.versionId))) == Place(o.content.location)
    ensures BytesOf(after, ArchivedAt(db.index, k)) == BytesOf(db, ObjectAt(k))
  {
    PutIsLocal(db.index, k, true, o);
    PutBacked(db.index, k, o);
    PutTables(db.index, k, o);
    OtherRows(db, after, k);
  }

  lemma PlainPutMove(db: Db, after: Db, k: Key, o: NewObject)
    requires Tidy(db) && NoVersions(db.index, k) && after.index == PutObject(db.index, k, false, o)
    requires after.books.trash == db.books.trash && ReplicasGone(db.books, after.books, k)
    ensures OneMove(db, after, ObjectAt(k), ObjectAt(k), ObjectAt(k))
    ensures BytesOf(after, ObjectAt(k)) == Place(o.content.location)
  {
    PutIsLocal(db.index, k, false, o);
    OtherRows(db, after, k);
  }

  lemma Unmoved(db: Db, step: Step)
    requires Apart(db) && Asked(db, step) == {} && forall x :: BytesOf(Apply(db, step), x) == BytesOf(db, x)
    ensures Safe(db, step) && Apart(Apply(db, step))
  {
    forall x, y | x != y && BytesOf(Apply(db, step), x).Some?
      ensures BytesOf(Apply(db, step), x) != BytesOf(Apply(db, step), y)
    {
      assert BytesOf(db, x) != BytesOf(db, y);
    }
  }

  lemma ReplicaIsGone(db: Db, after: Db, k: Key, l: Location, r: Row)
    requires Apart(db) && l in ReplicaPlaces(db.books, k) && BytesOf(db, r) == Some(l)
    requires ReplicasGone(db.books, after.books, k)
    ensures r.ReplicaAt? && r.replica.key == k && BytesOf(after, r).None?
  {
    var own :| own in db.books.replicas && own.key == k && db.books.replicas[own].location == l;
    assert BytesOf(db, ReplicaAt(own)) == Some(l);
  }

  lemma NotAmongReplicas(db: Db, k: Key, l: Location)
    requires forall q :: BytesOf(db, ReplicaAt(q)) != Some(l)
    ensures Place(l).None? || l !in ReplicaPlaces(db.books, k)
  {
    if Place(l).Some? {
      forall q | q in db.books.replicas && q.key == k ensures db.books.replicas[q].location != l {
        assert BytesOf(db, ReplicaAt(q)) != Some(l);
      }
    }
  }

  /** A replica with a place is among those asked to go, as its object is there. */
  lemma ReplicaIsAsked(db: Db, r: ReplicaKey)
    requires Tidy(db) && BytesOf(db, ReplicaAt(r)).Some?
    ensures r.key in db.index.objects && BytesOf(db, ReplicaAt(r)).value in ReplicaPlaces(db.books, r.key)
  {}

  lemma VersionedPutSafe(db: Db, input: PutInput)
    requires Tidy(db) && Apart(db) && Drawn(db, PutStep(input)) && Versioned(db, input.key) && PutAccepted(db, input)
    ensures Safe(db, PutStep(input)) && Apart(Put(db, input)) <==> Free(db, input.stored.value.location)
  {
    var k, step, after, l := input.key, PutStep(input), Put(db, input), input.stored.value.location;
    var o := NewObjectOf(db.buckets[k.bucket], input);
    var a, b, placed := ObjectAt(k), ArchivedAt(db.index, k), VersionAt(VersionKey(k, input.versionId));
    PutBooksRows(db.books, db.index, k, db.buckets[k.bucket], o.content, input.down);
    VersionedPutMove(db, after, k, o);
    forall r | BytesOf(db, r).Some? && BytesOf(db, r).value in Asked(db, step)
      ensures BytesOf(after, r).None? && r != a
    {
      ReplicaIsGone(db, after, k, BytesOf(db, r).value, r);
    }
    MoveApart(db, after, a, b, placed);
    MoveSafe(db, step, a, b, placed);
    if r :| BytesOf(db, r) == Some(l) {
      VersionedPutClash(db, input, r);
    } else {
      NotAmongReplicas(db, k, l);
    }
  }

  /** A place that a row points to is asked to go, or shared afterwards. */
  lemma VersionedPutClash(db: Db, input: PutInput, r: Row)
    requires Tidy(db) && Drawn(db, PutStep(input)) && Versioned(db, input.key) && PutAccepted(db, input)
    requires BytesOf(db, r) == Some(input.stored.value.location)
    requires BytesOf(Put(db, input), VersionAt(VersionKey(input.key, input.versionId))) == BytesOf(db, r)
    ensures !Safe(db, PutStep(input)) || !Apart(Put(db, input))
  {
    if r.ReplicaAt? && r.replica.key == input.key {
      ReplicaIsAsked(db, r.replica);
      assert Apply(db, PutStep(input)) == Put(db, input);
    } else {
      KeptByPut(db, input, r, if r == ObjectAt(input.key) then ArchivedAt(db.index, input.key) else r);
    }
  }

  /** Rows other than the key's replicas and object keep pointing where they did. */
  lemma KeptByPut(db: Db, input: PutInput, r: Row, kept: Row)
    requires Tidy(db) && Drawn(db, PutStep(input)) && input.key.bucket in db.buckets && PutAccepted(db, input)
    requires BytesOf(db, r).Some? && !(r.ReplicaAt? && r.replica.key == input.key)
    requires kept == if r == ObjectAt(input.key) then ArchivedAt(db.index, input.key) else r
    requires r == ObjectAt(input.key) ==> Versioned(db, input.key)
    ensures BytesOf(Put(db, input), kept) == BytesOf(db, r)
    ensures Versioned(db, input.key) ==> kept != VersionAt(VersionKey(input.key, input.versionId))
  {
    var k, after := input.key, Put(db, input);
    var bucket := db.buckets[k.bucket];
    var o := NewObjectOf(bucket, input);
    PutIsLocal(db.index, k, bucket.versioning, o);
    OtherRows(db, after, k);
    match r
    case ObjectAt(j) => if j == k { VersionedPutRow(db, input); }
    case VersionAt(v) => if v.key == k { KeptVersion(db, input, v); }
    case TrashAt(id) => PutBooksRows(db.books, db.index, k, bucket, o.content, input.down);
    case ReplicaAt(q) => OtherReplica(db.books, db.index, q, k, bucket, o.content, input.down);
  }

  lemma OtherReplica(b: Books, ix: Index, q: ReplicaKey, k: Key, bucket: Bucket, content: Content, down: set<string>)
    requires q in b.replicas && q.key != k
    ensures var after := PutBooks(b, ix, k, bucket, content, down);
            q in after.replicas && after.replicas[q] == b.replicas[q]
  {}

  lemma KeptVersion(db: Db, input: PutInput, v: VersionKey)
    requires Tidy(db) && Drawn(db, PutStep(input)) && input.key.bucket in db.buckets && PutAccepted(db, input)
    requires v in db.index.versions && v.key == input.key
    ensures v in Put(db, input).index.versions && Put(db, input).index.versions[v] == db.index.versions[v]
    ensures v != VersionKey(input.key, input.versionId)
  {
    var o := NewObjectOf(db.buckets[input.key.bucket], input);
    assert Versioned(db, v.key);
    PutBacked(db.index, input.key, o);
    PutTables(db.index, input.key, o);
  }

  lemma VersionedPutRow(db: Db, input: PutInput)
    requires Tidy(db) && Drawn(db, PutStep(input)) && Versioned(db, input.key) && PutAccepted(db, input)
    ensures BytesOf(Put(db, input), ArchivedAt(db.index, input.key)) == BytesOf(db, ObjectAt(input.key))
    ensures ArchivedAt(db.index, input.key) != VersionAt(VersionKey(input.key, input.versionId))
  {
    var k := input.key;
    var o := NewObjectOf(db.buckets[k.bucket], input);
    PutBooksRows(db.books, db.index, k, db.buckets[k.bucket], o.content, input.down);
    PutBacked(db.index, k, o);
    VersionedPutMove(db, Put(db, input), k, o);
  }

  lemma PlainPutGone(db: Db, input: PutInput, r: Row)
    requires Tidy(db) && Apart(db) && input.key.bucket in db.buckets && !Versioned(db, input.key)
    requires PutAccepted(db, input) && BytesOf(db, r).Some? && BytesOf(db, r).value in Asked(db, PutStep(input))
    requires ReplicasGone(db.books, Put(db, input).books, input.key)
    ensures r == ObjectAt(input.key) || BytesOf(Put(db, input), r).None?
  {
    var k := input.key;
    if BytesOf(db, r).value in ReplicaPlaces(db.books, k) {
      ReplicaIsGone(db, Put(db, input), k, BytesOf(db, r).value, r);
    } else {
      assert NoVersions(db.index, k);
      assert BytesOf(db, ObjectAt(k)) == BytesOf(db, r);
    }
  }

  lemma PlainPutClash(db: Db, input: PutInput, r: Row)
    requires Tidy(db) && Drawn(db, PutStep(input)) && input.key.bucket in db.buckets && !Versioned(db, input.key)
    requires PutAccepted(db, input) && r != ObjectAt(input.key)
    requires BytesOf(db, r) == Some(input.stored.value.location)
    requires BytesOf(Put(db, input), ObjectAt(input.key)) == BytesOf(db, r)
    ensures !Safe(db, PutStep(input)) || !Apart(Put(db, input))
  {
    if r.ReplicaAt? && r.replica.key == input.key {
      ReplicaIsAsked(db, r.replica);
      assert Apply(db, PutStep(input)) == Put(db, input);
    } else {
      KeptByPut(db, input, r, r);
    }
  }

  lemma PlainPutSafe(db: Db, input: PutInput)
    requires Tidy(db) && Apart(db) && input.key.bucket in db.buckets && !Versioned(db, input.key)
    requires PutAccepted(db, input)
    ensures Safe(db, PutStep(input)) && Apart(Put(db, input))
       <==> Unheld(db, input.stored.value.location, ObjectAt(input.key))
  {
    var k, step, after, l := input.key, PutStep(input), Put(db, input), input.stored.value.location;
    var o := NewObjectOf(db.buckets[k.bucket], input);
    var own := ObjectAt(k);
    PutBooksRows(db.books, db.index, k, db.buckets[k.bucket], o.content, input.down);
    assert NoVersions(db.index, k);
    PlainPutMove(db, after, k, o);
    forall r | BytesOf(db, r).Some? && BytesOf(db, r).value in Asked(db, step)
      ensures r == own || BytesOf(after, r).None?
    {
      PlainPutGone(db, input, r);
    }
    MoveApart(db, after, own, own, own);
    MoveSafe(db, step, own, own, own);
    if r :| BytesOf(db, r) == Some(l) && r != own {
      PlainPutClash(db, input, r);
    } else {
      NotAmongReplicas(db, k, l);
    }
  }

  lemma EnsuredRows(db: Db, name: string)
    requires Tidy(db) && Apart(db)
    ensures Tidy(EnsureBucket(db, name)) && Apart(EnsureBucket(db, name))
    ensures forall x :: BytesOf(EnsureBucket(db, name), x) == BytesOf(db, x)
  {
    var ensured := EnsureBucket(db, name);
    assert forall x :: BytesOf(ensured, x) == BytesOf(db, x);
  }

  lemma PutSafe(db: Db, input: PutInput)
    requires Tidy(db) && Apart(db) && Drawn(db, PutStep(input))
    ensures Safe(db, PutStep(input)) && Apart(Put(db, input)) <==> KeepsBytes(db, PutStep(input))
  {
    var ensured, k, step := EnsureBucket(db, input.key.bucket), input.key, PutStep(input);
    EnsuredRows(db, k.bucket);
    if !PutAccepted(ensured, input) {
      assert forall x :: BytesOf(Apply(db, step), x) == BytesOf(db, x);
      Unmoved(db, step);
    } else if Versioned(ensured, k) {
      VersionedPutSafe(db, input);
    } else {
      PlainPutSafe(ensured, input);
      assert Apply(ensured, step) == Apply(db, step) && Asked(ensured, step) == Asked(db, step);
      EnsuredSafe(db, ensured, step, input.stored.value.location, ObjectAt(k));
    }
  }

  lemma EnsuredSafe(db: Db, ensured: Db, step: Step, l: Location, own: Row)
    requires forall x :: BytesOf(ensured, x) == BytesOf(db, x)
    requires Apply(ensured, step) == Apply(db, step) && Asked(ensured, step) == Asked(db, step)
    ensures Safe(ensured, step) <==> Safe(db, step)
    ensures Unheld(ensured, l, own) <==> Unheld(db, l, own)
  {}

  // ---- delete ----------------------------------------------------------

  /** A row that only leaves, with the rows of asked replicas, keeps the rest apart and safe. */
  lemma LeavingSafe(db: Db, step: Step, a: Row, b: Row, gone: Row)
    requires Apart(db) && OneMove(db, Apply(db, step), a, b, gone) && BytesOf(Apply(db, step), gone).None?
    requires GoneFor(db, Apply(db, step), Asked(db, step), a, b, gone)
    ensures Safe(db, step) && Apart(Apply(db, step))
  {
    MoveApart(db, Apply(db, step), a, b, gone);
    MoveSafe(db, step, a, b, gone);
  }

  predicate ObjectDeletable(db: Db, input: DeleteInput) {
    && input.versionId == "" && input.key.bucket in db.buckets && input.key in db.index.objects
    && !Locked(Hydrated(db.index, input.key).protection, input.bypass, input.now)
  }

  lemma DroppedReplicas(b: Books, k: Key, down: set<string>)
    ensures ReplicasGone(b, DropReplicas(b, k, down), k) && DropReplicas(b, k, down).trash == b.trash
  {}

  lemma MarkerDeleteMove(db: Db, after: Db, k: Key, markerId: string, createdAt: string)
    requires Tidy(db) && Versioned(db, k) && FreshId(db.index, k, markerId)
    requires after.index == PutMarker(db.index, k, markerId, createdAt)
    requires after.books.trash == db.books.trash && ReplicasGone(db.books, after.books, k)
    ensures OneMove(db, after, ObjectAt(k), ArchivedAt(db.index, k), ObjectAt(k))
    ensures BytesOf(after, ObjectAt(k)).None?
  {
    MarkerIsLocal(db.index, k, markerId, createdAt);
    OtherRows(db, after, k);
    forall v: VersionKey | v.key == k && VersionAt(v) != ArchivedAt(db.index, k) && BytesOf(after, VersionAt(v)).Some?
      ensures BytesOf(after, VersionAt(v)) == BytesOf(db, VersionAt(v))
    {
      MarkerVersionRow(db.index, k, markerId, createdAt, v);
    }
    MarkerArchive(db, after, k, markerId, createdAt);
  }

  lemma MarkerVersionRow(ix: Index, k: Key, markerId: string, createdAt: string, v: VersionKey)
    requires v in PutMarker(ix, k, markerId, createdAt).versions
    requires !PutMarker(ix, k, markerId, createdAt).versions[v].isMarker && VersionAt(v) != ArchivedAt(ix, k)
    ensures v in ix.versions && PutMarker(ix, k, markerId, createdAt).versions[v] == ix.versions[v]
  {}

  lemma MarkerArchive(db: Db, after: Db, k: Key, markerId: string, createdAt: string)
    requires Tidy(db) && Versioned(db, k) && FreshId(db.index, k, markerId)
    requires after.index == PutMarker(db.index, k, markerId, createdAt)
    ensures ArchivedAt(db.index, k) != ObjectAt(k) ==>
              BytesOf(after, ArchivedAt(db.index, k)) == BytesOf(db, ObjectAt(k))
  {
    ArchivedVersion(db.index, k);
  }

  lemma MarkerDeleteSafe(db: Db, input: DeleteInput)
    requires Tidy(db) && Apart(db) && Drawn(db, DeleteStep(input)) && ObjectDeletable(db, input)
    requires Versioned(db, input.key) && !input.permanent
    ensures Safe(db, DeleteStep(input)) && Apart(Delete(db, input))
  {
    var k, step, after := input.key, DeleteStep(input), Delete(db, input);
    DroppedReplicas(db.books, k, input.down);
    MarkerDeleteMove(db, after, k, input.markerId, Format(input.now));
    forall r | BytesOf(db, r).Some? && BytesOf(db, r).value in Asked(db, step)
      ensures BytesOf(after, r).None? && r != ObjectAt(k)
    {
      ReplicaIsGone(db, after, k, BytesOf(db, r).value, r);
    }
    LeavingSafe(db, step, ObjectAt(k), ArchivedAt(db.index, k), ObjectAt(k));
  }

  lemma TrashDeleteMove(db: Db, after: Db, k: Key, id: string, row: TrashRow)
    requires Tidy(db) && k in db.index.objects && !Versioned(db, k) && id !in db.books.trash
    requires row.content == db.index.objects[k].content && after.index == DropObject(db.index, k)
    requires after.books.trash == db.books.trash[id := row] && ReplicasGone(db.books, after.books, k)
    ensures OneMove(db, after, ObjectAt(k), TrashAt(id), ObjectAt(k)) && BytesOf(after, ObjectAt(k)).None?
  {
    DropIsLocal(db.index, k);
    OtherRows(db, after, k);
  }

  lemma TrashDeleteSafe(db: Db, input: DeleteInput)
    requires Tidy(db) && Apart(db) && Drawn(db, DeleteStep(input)) && ObjectDeletable(db, input)
    requires !Versioned(db, input.key) && db.buckets[input.key.bucket].trash && !input.permanent
    ensures Safe(db, DeleteStep(input)) && Apart(Delete(db, input))
  {
    var k, step, after := input.key, DeleteStep(input), Delete(db, input);
    var row := TrashOf(db.index, k, Format(input.now), input.purgeAfter);
    DroppedReplicas(PutTrash(db.books, input.trashId, row), k, input.down);
    TrashDeleteMove(db, after, k, input.trashId, row);
    forall r | BytesOf(db, r).Some? && BytesOf(db, r).value in Asked(db, step)
      ensures BytesOf(after, r).None? && r != ObjectAt(k)
    {
      ReplicaIsGone(db, after, k, BytesOf(db, r).value, r);
    }
    LeavingSafe(db, step, ObjectAt(k), TrashAt(input.trashId), ObjectAt(k));
  }

  lemma ImmediateDeleteMove(db: Db, after: Db, k: Key)
    requires after.index == DropObject(db.index, k)
    requires after.books.trash == db.books.trash && ReplicasGone(db.books, after.books, k)
    ensures OneMove(db, after, ObjectAt(k), ObjectAt(k), ObjectAt(k)) && BytesOf(after, ObjectAt(k)).None?
  {
    DropIsLocal(db.index, k);
    OtherRows(db, after, k);
  }

  lemma ImmediateDeleteSafe(db: Db, input: DeleteInput)
    requires Tidy(db) && Apart(db) && ObjectDeletable(db, input) && Immediate(db.buckets[input.key.bucket], input)
    requires db.index.objects[input.key].content.location.provider !in input.down
    requires Place(db.index.objects[input.key].content.location).None?
          || ArchivedKey(db.index, input.key) !in db.index.versions
    ensures Safe(db, DeleteStep(input)) && Apart(Delete(db, input))
  {
    var k, step, after := input.key, DeleteStep(input), Delete(db, input);
    var own := ObjectAt(k);
    DroppedReplicas(Issue(db.books, db.index.objects[k].content.location), k, input.down);
    ImmediateDeleteMove(db, after, k);
    forall r | BytesOf(db, r).Some? && BytesOf(db, r).value in Asked(db, step)
      ensures r == own || BytesOf(after, r).None?
    {
      if BytesOf(db, r).value in ReplicaPlaces(db.books, k) {
        ReplicaIsGone(db, after, k, BytesOf(db, r).value, r);
      } else {
        assert BytesOf(db, own) == BytesOf(db, r);
      }
    }
    LeavingSafe(db, step, own, own, own);
  }

  /** Bytes asked for that some row still points to. */
  lemma Unsafe(db: Db, step: Step, row: Row)
    requires BytesOf(Apply(db, step), row).Some? && BytesOf(Apply(db, step), row).value in Asked(db, step)
    ensures !Safe(db, step)
  {}

  /** The row of the object, or of its version, is still there. */
  lemma ImmediateDeleteUnsafe(db: Db, input: DeleteInput)
    requires Tidy(db) && ObjectDeletable(db, input) && Immediate(db.buckets[input.key.bucket], input)
    requires Place(db.index.objects[input.key].content.location).Some?
    requires db.index.objects[input.key].content.location.provider in input.down
          || ArchivedKey(db.index, input.key) in db.index.versions
    ensures !Safe(db, DeleteStep(input))
  {
    var k := input.key;
    CurrentIsRow(db, k);
    var row := if ArchivedKey(db.index, k) in db.index.versions then VersionAt(ArchivedKey(db.index, k))
               else ObjectAt(k);
    assert BytesOf(Apply(db, DeleteStep(input)), row) == BytesOf(db, row);
    Unsafe(db, DeleteStep(input), row);
  }

  lemma ObjectDeleteSafe(db: Db, input: DeleteInput)
    requires Tidy(db) && Apart(db) && Drawn(db, DeleteStep(input))
    requires input.versionId == "" && input.key.bucket in db.buckets
    ensures Safe(db, DeleteStep(input)) && Apart(Delete(db, input)) <==> ObjectDeleteCarried(db, input)
  {
    var k, bucket := input.key, db.buckets[input.key.bucket];
    if !ObjectDeletable(db, input) {
      Unmoved(db, DeleteStep(input));
    } else if Immediate(bucket, input) {
      var l := db.index.objects[k].content.location;
      if l.provider in input.down && Place(l).None? {
        PlacelessUnmoved(db, DeleteStep(input), l);
      } else if l.provider in input.down || (Place(l).Some? && ArchivedKey(db.index, k) in db.index.versions) {
        ImmediateDeleteUnsafe(db, input);
      } else {
        ImmediateDeleteSafe(db, input);
      }
    } else if bucket.versioning {
      MarkerDeleteSafe(db, input);
    } else {
      TrashDeleteSafe(db, input);
    }
  }

  lemma PlacelessUnmoved(db: Db, step: Step, l: Location)
    requires Apart(db) && Asked(db, step) == {l} && Place(l).None?
    requires forall x :: BytesOf(Apply(db, step), x) == BytesOf(db, x)
    ensures Safe(db, step) && Apart(Apply(db, step))
  {
    forall x, y | x != y && BytesOf(Apply(db, step), x).Some?
      ensures BytesOf(Apply(db, step), x) != BytesOf(Apply(db, step), y)
    {
      assert BytesOf(db, x) != BytesOf(db, y);
    }
  }

  /** The replica rows of the key are gone, queued again, or untouched. */
  ghost predicate ReplicasKept(b: Books, after: Books) {
    forall r :: r in after.replicas && after.replicas[r].location.remoteKey != ""
      ==> r in b.replicas && after.replicas[r] == b.replicas[r]
  }

  lemma RestoredReplicas(b: Books, ix: Index, k: Key, bucket: Bucket)
    ensures ReplicasKept(b, RestoreBooks(b, ix, k, bucket)) && RestoreBooks(b, ix, k, bucket).trash == b.trash
  {}

  lemma VersionDeleteRows(b: Books, ix: Index, v: VersionKey, bucket: Bucket, down: set<string>)
    requires v in ix.versions
    ensures var after := DeleteVersionBooks(b, ix, v, bucket, down);
            && after.trash == b.trash && ReplicasKept(b, after)
            && (!ix.versions[v].isMarker && Restores(ix, v) ==> ReplicasGone(b, after, v.key))
  {
    var left, row := WithoutVersion(ix, v), ix.versions[v];
    if row.isMarker {
      RestoredReplicas(b, left, v.key, bucket);
    } else {
      var dropped := DropReplicas(Issue(b, row.content.location), v.key, down);
      DroppedReplicas(Issue(b, row.content.location), v.key, down);
      RestoredReplicas(dropped, left, v.key, bucket);
    }
  }

  lemma VersionDeleteMove(db: Db, after: Db, v: VersionKey, status: Content -> string)
    requires Tidy(db) && v in db.index.versions && after.index == DeleteVersion(db.index, v, status)
    requires after.books.trash == db.books.trash && ReplicasKept(db.books, after.books)
    ensures OneMove(db, after, VersionAt(v), VersionAt(v), VersionAt(v)) && BytesOf(after, VersionAt(v)).None?
  {
    assert Versioned(db, v.key);
    DeleteVersionIsLocal(db.index, v, status);
    ShownAfterDelete(db.index, v, status);
    OtherRows(db, after, v.key);
  }

  lemma VersionGoes(db: Db, input: DeleteInput)
    requires Tidy(db) && Apart(db) && input.versionId != "" && input.key.bucket in db.buckets
    requires var v := VersionKey(input.key, input.versionId);
             v in db.index.versions && VersionDeletable(db.index, v, input)
    ensures Safe(db, DeleteStep(input)) && Apart(Delete(db, input))
  {
    var step, after, v := DeleteStep(input), Delete(db, input), VersionKey(input.key, input.versionId);
    var bucket, own := db.buckets[input.key.bucket], VersionAt(VersionKey(input.key, input.versionId));
    VersionDeleteRows(db.books, db.index, v, bucket, input.down);
    VersionDeleteMove(db, after, v, StatusIn(bucket));
    forall r | BytesOf(db, r).Some? && BytesOf(db, r).value in Asked(db, step)
      ensures r == own || BytesOf(after, r).None?
    {
      if BytesOf(db, r).value == db.index.versions[v].content.location {
        assert BytesOf(db, own) == BytesOf(db, r);
      } else {
        ReplicaIsGone(db, after, v.key, BytesOf(db, r).value, r);
      }
    }
    LeavingSafe(db, step, own, own, own);
  }

  lemma VersionStays(db: Db, input: DeleteInput)
    requires Apart(db) && input.versionId != "" && input.key.bucket in db.buckets
    requires var v := VersionKey(input.key, input.versionId);
             v !in db.index.versions || !VersionDeletable(db.index, v, input)
    ensures Safe(db, DeleteStep(input)) && Apart(Delete(db, input)) <==> VersionDeleteCarried(db, input)
  {
    var step, v := DeleteStep(input), VersionKey(input.key, input.versionId);
    assert forall x :: BytesOf(Apply(db, step), x) == BytesOf(db, x);
    if v !in db.index.versions || Locked(db.index.versions[v].protection, input.bypass, input.now) {
      Unmoved(db, step);
    } else if BytesOf(db, VersionAt(v)).Some? {
      Unsafe(db, step, VersionAt(v));
    } else {
      PlacelessUnmoved(db, step, db.index.versions[v].content.location);
    }
  }

  lemma DeleteSafe(db: Db, input: DeleteInput)
    requires Tidy(db) && Apart(db) && Drawn(db, DeleteStep(input))
    ensures Safe(db, DeleteStep(input)) && Apart(Delete(db, input)) <==> KeepsBytes(db, DeleteStep(input))
  {
    var v := VersionKey(input.key, input.versionId);
    if input.key.bucket !in db.buckets {
      Unmoved(db, DeleteStep(input));
    } else if input.versionId == "" {
      ObjectDeleteSafe(db, input);
    } else if v in db.index.versions && VersionDeletable(db.index, v, input) {
      VersionGoes(db, input);
    } else {
      VersionStays(db, input);
    }
  }

  // ---- trash -----------------------------------------------------------

  lemma PurgeSafe(db: Db, id: string, down: set<string>)
    requires Apart(db)
    ensures var step := PurgeTrashStep(id, down); Safe(db, step) && Apart(Apply(db, step)) <==> KeepsBytes(db, step)
  {
    var step, row := PurgeTrashStep(id, down), TrashAt(id);
    if id !in db.books.trash {
      Unmoved(db, step);
    } else if db.books.trash[id].content.location.provider !in down {
      forall r | BytesOf(db, r).Some? && BytesOf(db, r).value in Asked(db, step) ensures r == row {
        assert BytesOf(db, row) == BytesOf(db, r);
      }
      LeavingSafe(db, step, row, row, row);
    } else if BytesOf(db, row).Some? {
      assert BytesOf(Apply(db, step), row) == BytesOf(db, row);
      Unsafe(db, step, row);
    } else {
      assert forall x :: BytesOf(Apply(db, step), x) == BytesOf(db, x);
      PlacelessUnmoved(db, step, db.books.trash[id].content.location);
    }
  }

  lemma RestoreMove(db: Db, id: string)
    requires Tidy(db) && Recoverable(db, id) && KeepsVersions(db, RestoreTrashStep(id))
    ensures OneMove(db, RestoreTrash(db, id), TrashAt(id), ObjectAt(db.books.trash[id].key), TrashAt(id))
  {
    var t, after := db.books.trash[id], RestoreTrash(db, id);
    RestoreTrashIsLocal(db.index, t);
    OtherRows(db, after, t.key);
    assert NoVersions(db.index, t.key);
  }

  lemma RestoreSafe(db: Db, id: string)
    requires Tidy(db) && Apart(db) && KeepsVersions(db, RestoreTrashStep(id))
    ensures Safe(db, RestoreTrashStep(id)) && Apart(RestoreTrash(db, id))
  {
    var step := RestoreTrashStep(id);
    if Recoverable(db, id) {
      RestoreMove(db, id);
      LeavingSafe(db, step, TrashAt(id), ObjectAt(db.books.trash[id].key), TrashAt(id));
    } else {
      Unmoved(db, step);
    }
  }

  // ---- migration and replication ---------------------------------------

  /** A row written over with new bytes and nothing asked to go: its place must be its own. */
  lemma PlacingSafe(db: Db, step: Step, own: Row, l: Location)
    requires Apart(db) && Asked(db, step) == {} && BytesOf(Apply(db, step), own) == Place(l)
    requires forall x :: x != own ==> BytesOf(Apply(db, step), x) == BytesOf(db, x)
    ensures Safe(db, step) && Apart(Apply(db, step)) <==> Unheld(db, l, own)
  {
    MoveApart(db, Apply(db, step), own, own, own);
    MoveSafe(db, step, own, own, own);
  }

  lemma CopySafe(db: Db, k: Key, stored: Content, down: set<string>)
    requires Apart(db) && Migrates(db, k, Some(stored))
    ensures var step := MigrateStep(k, false, Some(stored), down);
            Safe(db, step) && Apart(Apply(db, step)) <==> KeepsBytes(db, step)
  {
    var step, r := MigrateStep(k, false, Some(stored), down), ReplicaKey(k, stored.location.provider);
    PlacingSafe(db, step, ReplicaAt(r), stored.location);
  }

  lemma MoveRows(db: Db, k: Key, stored: Content, down: set<string>)
    requires Migrates(db, k, Some(stored))
    ensures var after := Migrate(db, k, true, Some(stored), down);
            && (forall x :: x != ObjectAt(k) ==> BytesOf(after, x) == BytesOf(db, x))
            && BytesOf(after, ObjectAt(k)) == if ArchivedKey(db.index, k) in db.index.versions then None
                                               else Place(stored.location)
  {
    var after := Migrate(db, k, true, Some(stored), down);
    MoveIsLocal(db.index, k, stored);
    OtherRows(db, after, k);
  }

  /** Moving an object that a version row stands for takes that row's bytes away. */
  lemma VersionMoveSafe(db: Db, k: Key, stored: Content, down: set<string>)
    requires Tidy(db) && Apart(db) && Migrates(db, k, Some(stored)) && ArchivedKey(db.index, k) in db.index.versions
    ensures var step := MigrateStep(k, true, Some(stored), down);
            Safe(db, step) && Apart(Apply(db, step)) <==> KeepsBytes(db, step)
  {
    var step := MigrateStep(k, true, Some(stored), down);
    MoveRows(db, k, stored, down);
    CurrentIsRow(db, k);
    if Place(db.index.objects[k].content.location).Some? {
      Unsafe(db, step, VersionAt(ArchivedKey(db.index, k)));
    } else {
      PlacelessUnmoved(db, step, db.index.objects[k].content.location);
    }
  }

  lemma PlainMoveSafe(db: Db, k: Key, stored: Content, down: set<string>)
    requires Apart(db) && Migrates(db, k, Some(stored)) && ArchivedKey(db.index, k) !in db.index.versions
    ensures var step := MigrateStep(k, true, Some(stored), down);
            Safe(db, step) && Apart(Apply(db, step)) <==> Free(db, stored.location)
  {
    var step, own := MigrateStep(k, true, Some(stored), down), ObjectAt(k);
    MoveRows(db, k, stored, down);
    forall r | BytesOf(db, r).Some? && BytesOf(db, r).value in Asked(db, step) ensures r == own {
      assert BytesOf(db, own) == BytesOf(db, r);
    }
    MoveApart(db, Apply(db, step), own, own, own);
    MoveSafe(db, step, own, own, own);
    assert BytesOf(db, own) == Place(db.index.objects[k].content.location);
    if r :| BytesOf(db, r) == Some(stored.location) {
      assert BytesOf(Apply(db, step), own) == BytesOf(db, r);
      assert r != own ==> BytesOf(Apply(db, step), r) == BytesOf(db, r);
    }
  }

  lemma MigrateSafe(db: Db, k: Key, move: bool, stored: Option<Content>, down: set<string>)
    requires Tidy(db) && Apart(db)
    ensures var step := MigrateStep(k, move, stored, down);
            Safe(db, step) && Apart(Apply(db, step)) <==> KeepsBytes(db, step)
  {
    if !Migrates(db, k, stored) {
      Unmoved(db, MigrateStep(k, move, stored, down));
    } else if !move {
      CopySafe(db, k, stored.value, down);
    } else if ArchivedKey(db.index, k) in db.index.versions {
      VersionMoveSafe(db, k, stored.value, down);
    } else {
      PlainMoveSafe(db, k, stored.value, down);
    }
  }

  lemma ReplicateSafe(db: Db, k: Key, provider: string, run: ReplicaRun, last: bool)
    requires Apart(db)
    ensures var step := ReplicateStep(k, provider, run, last);
            Safe(db, step) && Apart(Apply(db, step)) <==> KeepsBytes(db, step)
  {
    var step, r := ReplicateStep(k, provider, run, last), ReplicaKey(k, provider);
    if k in db.index.objects && run.Copied? && provider in db.books.used {
      PlacingSafe(db, step, ReplicaAt(r), run.content.location);
    } else {
      var row := Apply(db, step).books.replicas[r];
      assert Place(row.location).Some? ==> BytesOf(db, ReplicaAt(r)) == Some(row.location);
      PlacingSafe(db, step, ReplicaAt(r), row.location);
    }
  }

  lemma UpdateRows(db: Db, k: Key, id: string, wanted: Protection, bypass: bool, now: Instant)
    ensures var after := db.(index := UpdateProtection(db.index, k, id, wanted, bypass, now));
            forall x :: BytesOf(after, x) == BytesOf(db, x)
  {
    UpdateKeepsBytes(db.index, k, id, wanted, bypass, now);
    UpdateIsLocal(db.index, k, id, wanted, bypass, now);
    OtherRows(db, db.(index := UpdateProtection(db.index, k, id, wanted, bypass, now)), k);
  }

  lemma RetainRows(db: Db, k: Key, id: string, mode: string, until: Instant, bypass: bool, now: Instant)
    ensures forall x :: BytesOf(Retain(db, k, id, mode, until, bypass, now), x) == BytesOf(db, x)
  {
    if LockEnabled(db, k) && RetentionAllowed(mode, until, now) && Exists(db.index, k, id) {
      var read := Protected(db.index, k, id);
      UpdateRows(db, k, read.versionId, WithRetention(read.protection, mode, until), bypass, now);
    }
  }

  lemma HoldRows(db: Db, k: Key, id: string, on: bool, now: Instant)
    ensures forall x :: BytesOf(Hold(db, k, id, on, now), x) == BytesOf(db, x)
  {
    if LockEnabled(db, k) && Exists(db.index, k, id) {
      var read := Protected(db.index, k, id);
      UpdateRows(db, k, read.versionId, read.protection.(hold := on), false, now);
    }
  }

  // ---- every request ---------------------------------------------------

  /** Every request, exactly: no bytes of a remaining row are asked to be deleted and no two rows
      come to share bytes, if and only if the request keeps bytes. */
  lemma StepSafe(db: Db, step: Step)
    requires Tidy(db) && Apart(db) && Drawn(db, step) && KeepsVersions(db, step)
    ensures Safe(db, step) && Apart(Apply(db, step)) <==> KeepsBytes(db, step)
  {
    match step
    case PutStep(input) => PutSafe(db, input);
    case DeleteStep(input) => DeleteSafe(db, input);
    case RetentionStep(k, id, mode, until, bypass, now) =>
      RetainRows(db, k, id, mode, until, bypass, now);
      Unmoved(db, step);
    case HoldStep(k, id, on, now) =>
      HoldRows(db, k, id, on, now);
      Unmoved(db, step);
    case RestoreTrashStep(id) => RestoreSafe(db, id);
    case PurgeTrashStep(id, down) => PurgeSafe(db, id, down);
    case MigrateStep(k, move, stored, down) => MigrateSafe(db, k, move, stored, down);
    case TurnReplicaStep(k, provider, running) =>
      assert forall x :: BytesOf(Apply(db, step), x) == BytesOf(db, x);
      Unmoved(db, step);
    case ReplicateStep(k, provider, run, last) => ReplicateSafe(db, k, provider, run, last);
  }

  ghost predicate Sound(db: Db, step: Step) {
    Drawn(db, step) && KeepsVersions(db, step) && KeepsBytes(db, step)
  }

  ghost predicate RunSound(db: Db, steps: seq<Step>)
    decreases steps
  {
    steps == [] || (Sound(db, steps[0]) && RunSound(Apply(db, steps[0]), steps[1..]))
  }

  ghost predicate RunSafe(db: Db, steps: seq<Step>)
    decreases steps
  {
    steps == [] || (Safe(db, steps[0]) && RunSafe(Apply(db, steps[0]), steps[1..]))
  }

  /** Over every run of such requests no delete is ever asked for bytes that a row points to. */
  lemma {:induction false} BytesStay(db: Db, steps: seq<Step>)
    requires Tidy(db) && Apart(db) && RunSound(db, steps)
    ensures RunSafe(db, steps) && Tidy(Run(db, steps)) && Apart(Run(db, steps))
    decreases steps
  {
    if steps != [] {
      StepSafe(db, steps[0]);
      StepTidy(db, steps[0]);
      BytesStay(Apply(db, steps[0]), steps[1..]);
    }
  }

  /** A store without rows is where such runs can start. */
  lemma EmptyIsApart(db: Db)
    requires db.index == Index(map[], map[], map[]) && db.books.trash == map[] && db.books.replicas == map[]
    ensures Tidy(db) && Apart(db)
  {}

  // ---- inputs that lose bytes ------------------------------------------

  /** An object put again at the place its trashed predecessor still points to loses its bytes when
      the trash is purged. */
  lemma PurgeTakesNewBytes(db: Db, delete: DeleteInput, put: PutInput)
    requires Tidy(db) && Drawn(db, DeleteStep(delete)) && ObjectDeletable(db, delete)
    requires !Versioned(db, delete.key) && db.buckets[delete.key.bucket].trash && !delete.permanent
    requires put.key == delete.key && PutAccepted(Delete(db, delete), put)
    requires put.stored.value.location == db.index.objects[put.key].content.location
    requires Place(put.stored.value.location).Some?
    ensures var again, purge := Put(Delete(db, delete), put), PurgeTrashStep(delete.trashId, {});
            && BytesOf(Apply(again, purge), ObjectAt(put.key)) == Some(put.stored.value.location)
            && put.stored.value.location in Asked(again, purge)
  {
    TrashedRow(db, delete);
    PutAgain(Delete(db, delete), put);
  }

  lemma TrashedRow(db: Db, delete: DeleteInput)
    requires Tidy(db) && ObjectDeletable(db, delete)
    requires !Versioned(db, delete.key) && db.buckets[delete.key.bucket].trash && !delete.permanent
    ensures var after := Delete(db, delete);
            && after.buckets == db.buckets && NoVersions(after.index, delete.key) && delete.trashId in after.books.trash
            && after.books.trash[delete.trashId].content == db.index.objects[delete.key].content
  {}

  lemma PutAgain(db: Db, put: PutInput)
    requires put.key.bucket in db.buckets && !Versioned(db, put.key) && NoVersions(db.index, put.key)
    requires PutAccepted(db, put)
    ensures BytesOf(Put(db, put), ObjectAt(put.key)) == Place(put.stored.value.location)
    ensures Put(db, put).books.trash == db.books.trash
  {
    TrashSurvivesPut(db, put);
    PlainPutIsLocal(db.index, put.key, NewObjectOf(db.buckets[put.key.bucket], put));
  }

  lemma TrashSurvivesPut(db: Db, input: PutInput)
    ensures Put(db, input).books.trash == db.books.trash
  {}

  /** An overwrite stored at the place of one of the key's replicas asks for its own new bytes to be
      deleted with that replica. */
  lemma OverwriteTakesNewBytes(db: Db, input: PutInput, r: ReplicaKey)
    requires Tidy(db) && input.key.bucket in db.buckets && !Versioned(db, input.key) && PutAccepted(db, input)
    requires r.key == input.key && BytesOf(db, ReplicaAt(r)) == Some(input.stored.value.location)
    ensures BytesOf(Put(db, input), ObjectAt(input.key)) == Some(input.stored.value.location)
    ensures input.stored.value.location in Asked(db, PutStep(input))
  {
    var k, bucket := input.key, db.buckets[input.key.bucket];
    var o := NewObjectOf(bucket, input);
    assert NoVersions(db.index, k);
    PutBooksRows(db.books, db.index, k, bucket, o.content, input.down);
    PlainPutMove(db, Put(db, input), k, o);
    ReplicaIsAsked(db, r);
  }

  const KEY := Key("x", "k")

  function BytesIn(p: string, size: nat): Content {
    Content(Location(p, "r", "k"), size, "", "", "")
  }

  /** An object stored at "a" with a replica at "b", and an overwrite that fails over to "b". */
  function Replicated(): Db {
    Db(map["x" := Bucket(false, false, false, ["a", "b"], "", 0)],
       Index(map[KEY := ObjectRow(BytesIn("a", 1), "completed", "")], map[], map[]),
       Books(map[], map[ReplicaKey(KEY, "b") := ReplicaRow(Location("b", "r", "k"), 1, "succeeded")],
             map["a" := 1, "b" := 1], {}))
  }

  function FailedOver(now: Instant): PutInput {
    PutInput(KEY, map[], map[], NO_PROTECTION, Some(BytesIn("b", 2)), "", now, now, {})
  }

  lemma ReplicatedIsTidy()
    ensures Tidy(Replicated())
    ensures forall row :: BytesOf(Replicated(), row).Some?
              ==> row == ObjectAt(KEY) || row == ReplicaAt(ReplicaKey(KEY, "b"))
    ensures BytesOf(Replicated(), ObjectAt(KEY)) == Some(Location("a", "r", "k"))
    ensures BytesOf(Replicated(), ReplicaAt(ReplicaKey(KEY, "b"))) == Some(Location("b", "r", "k"))
  {}

  lemma FailedOverAccepted(now: Instant)
    ensures PutAccepted(Replicated(), FailedOver(now)) && !Versioned(Replicated(), KEY)
  {}

  lemma FailoverTakesNewBytes(now: Instant)
    ensures Tidy(Replicated()) && Apart(Replicated())
    ensures BytesOf(Put(Replicated(), FailedOver(now)), ObjectAt(KEY)) == Some(Location("b", "r", "k"))
    ensures Location("b", "r", "k") in Asked(Replicated(), PutStep(FailedOver(now)))
  {
    var db, input := Replicated(), FailedOver(now);
    ReplicatedIsTidy();
    FailedOverAccepted(now);
    OverwriteTakesNewBytes(db, input, ReplicaKey(KEY, "b"));
  }
}
