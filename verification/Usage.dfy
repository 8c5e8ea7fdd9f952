/** Usage conservation: each provider's counter is the summed size of what the tables say it
    stores, after every request; so no charge is ever clamped at zero. */
module Usage {
  import opened Common
  import opened Timestamps
  import opened VersionOrder
  import opened ObjectIndex
  import opened Objects
  import opened VersionBacking
  import opened StoreShape
  import Sums

  // ---- what a provider stores ------------------------------------------

  /** Bytes of a key's current object at provider p, unless its version row already counts them. */
  function ObjectCharge(ix: Index, k: Key, p: string): int {
    if k in ix.objects && ix.objects[k].content.location.provider == p && ArchivedKey(ix, k) !in ix.versions
    then ix.objects[k].content.size else 0
  }

  function VersionCharge(vs: Versions, v: VersionKey, p: string): int {
    if v in vs && !vs[v].isMarker && vs[v].content.location.provider == p then vs[v].content.size else 0
  }

  function ObjectBytes(ix: Index, p: string): map<Key, int> {
    map k | k in ix.objects :: ObjectCharge(ix, k, p)
  }

  function VersionBytes(vs: Versions, p: string): map<VersionKey, int> {
    map v | v in vs :: VersionCharge(vs, v, p)
  }

  function TrashBytes(b: Books, p: string): map<string, int> {
    map id | id in b.trash :: if b.trash[id].content.location.provider == p then b.trash[id].content.size as int else 0
  }

  /** Only a replica that was stored is charged. */
  function ReplicaCharge(b: Books, r: ReplicaKey, p: string): int {
    if r in b.replicas && r.provider == p && b.replicas[r].status == "succeeded" then b.replicas[r].size else 0
  }

  function ReplicaBytes(b: Books, p: string): map<ReplicaKey, int> {
    map r | r in b.replicas :: ReplicaCharge(b, r, p)
  }

  ghost function IndexTotal(ix: Index, p: string): int {
    Sums.Total(ObjectBytes(ix, p)) + Sums.Total(VersionBytes(ix.versions, p))
  }

  ghost function BooksTotal(b: Books, p: string): int {
    Sums.Total(TrashBytes(b, p)) + Sums.Total(ReplicaBytes(b, p))
  }

  /** Current objects, non-marker versions, trash and replicas: what provider p is charged for. */
  ghost function Stored(db: Db, p: string): int {
    IndexTotal(db.index, p) + BooksTotal(db.books, p)
  }

  ghost predicate Balanced(db: Db) {
    forall p :: p in db.books.used ==> db.books.used[p] == Stored(db, p)
  }

  // ---- charges of single rows ------------------------------------------

  /** A change to one key of the objects and to none of another key's versions. */
  lemma ObjectsMove(before: Index, after: Index, k: Key, p: string)
    requires OnlyKey(before, after, k)
    ensures Sums.Total(ObjectBytes(after, p)) - ObjectCharge(after, k, p)
         == Sums.Total(ObjectBytes(before, p)) - ObjectCharge(before, k, p)
  {
    var a, b := ObjectBytes(before, p), ObjectBytes(after, p);
    forall j | j != k
      ensures j in a <==> j in b
      ensures j in a ==> a[j] == b[j]
    {
      assert SameObject(before, after, j);
      assert SameVersion(before, after, ArchivedKey(before, j));
    }
    assert a - {k} == b - {k};
    Sums.TotalUpdate(a, b, k);
  }

  lemma VersionsMove(before: Versions, after: Versions, v: VersionKey, p: string)
    requires before - {v} == after - {v}
    ensures Sums.Total(VersionBytes(after, p)) - VersionCharge(after, v, p)
         == Sums.Total(VersionBytes(before, p)) - VersionCharge(before, v, p)
  {
    var a, b := VersionBytes(before, p), VersionBytes(after, p);
    forall w | w != v
      ensures w in a <==> w in b
      ensures w in a ==> a[w] == b[w]
    {
      assert w in before <==> w in before - {v};
      assert w in after <==> w in after - {v};
      assert w in before ==> before[w] == (before - {v})[w];
      assert w in after ==> after[w] == (after - {v})[w];
    }
    assert a - {v} == b - {v};
    Sums.TotalUpdate(a, b, v);
  }

  lemma BooksNonNegative(b: Books, p: string)
    ensures Sums.Total(TrashBytes(b, p)) >= 0 && Sums.Total(ReplicaBytes(b, p)) >= 0
    ensures forall id :: id in b.trash && b.trash[id].content.location.provider == p
              ==> b.trash[id].content.size <= Sums.Total(TrashBytes(b, p))
    ensures forall r :: ReplicaCharge(b, r, p) <= Sums.Total(ReplicaBytes(b, p))
  {
    Sums.TotalNonNegative(TrashBytes(b, p));
    Sums.TotalNonNegative(ReplicaBytes(b, p));
    forall id | id in b.trash && b.trash[id].content.location.provider == p
      ensures b.trash[id].content.size <= Sums.Total(TrashBytes(b, p))
    {
      assert TrashBytes(b, p)[id] == b.trash[id].content.size;
    }
    forall r ensures ReplicaCharge(b, r, p) <= Sums.Total(ReplicaBytes(b, p)) {
      if r in b.replicas {
        assert ReplicaBytes(b, p)[r] == ReplicaCharge(b, r, p);
      }
    }
  }

  lemma IndexNonNegative(ix: Index, p: string)
    ensures IndexTotal(ix, p) >= 0
    ensures forall k :: ObjectCharge(ix, k, p) <= IndexTotal(ix, p)
    ensures forall v :: VersionCharge(ix.versions, v, p) <= IndexTotal(ix, p)
  {
    Sums.TotalNonNegative(ObjectBytes(ix, p));
    Sums.TotalNonNegative(VersionBytes(ix.versions, p));
    forall k ensures ObjectCharge(ix, k, p) <= Sums.Total(ObjectBytes(ix, p)) {
      if k in ix.objects {
        assert ObjectBytes(ix, p)[k] == ObjectCharge(ix, k, p);
      }
    }
    forall v ensures VersionCharge(ix.versions, v, p) <= Sums.Total(VersionBytes(ix.versions, p)) {
      if v in ix.versions {
        assert VersionBytes(ix.versions, p)[v] == VersionCharge(ix.versions, v, p);
      }
    }
  }

  // ---- the index side of each request ----------------------------------

  function At(c: Content, p: string): int {
    if c.location.provider == p then c.size else 0
  }

  lemma ArchiveFrame(ix: Index, k: Key)
    ensures OnlyKey(ix, Archive(ix, k), k)
    ensures Archive(ix, k).versions - {ArchivedKey(ix, k)} == ix.versions - {ArchivedKey(ix, k)}
  {}

  lemma ArchiveCharges(ix: Index, k: Key, p: string)
    ensures ObjectCharge(Archive(ix, k), k, p) + VersionCharge(Archive(ix, k).versions, ArchivedKey(ix, k), p)
         == ObjectCharge(ix, k, p) + VersionCharge(ix.versions, ArchivedKey(ix, k), p)
  {}

  /** Archiving moves an object's bytes from its index row to its version row. */
  lemma ArchiveTotal(ix: Index, k: Key, p: string)
    ensures IndexTotal(Archive(ix, k), p) == IndexTotal(ix, p)
  {
    ArchiveFrame(ix, k);
    ArchiveCharges(ix, k, p);
    ObjectsMove(ix, Archive(ix, k), k, p);
    VersionsMove(ix.versions, Archive(ix, k).versions, ArchivedKey(ix, k), p);
  }

  /** What a versioned put changes beside archiving: one more version row, and which row counts. */
  lemma VersionedPutFrame(ix: Index, k: Key, o: NewObject, p: string)
    requires VersionKey(k, o.versionId) !in Archive(ix, k).versions && o.versionId != ""
    ensures var archived, after, v := Archive(ix, k), PutObject(ix, k, true, o), VersionKey(k, o.versionId);
            && archived.versions - {v} == after.versions - {v}
            && VersionCharge(archived.versions, v, p) == 0 && VersionCharge(after.versions, v, p) == At(o.content, p)
            && ObjectCharge(archived, k, p) == 0 && ObjectCharge(after, k, p) == 0
  {
    PutTables(ix, k, o);
    var archived, v := Archive(ix, k), VersionKey(k, o.versionId);
    assert archived.versions[v := NewVersion(o)] - {v} == archived.versions - {v};
  }

  lemma VersionedPutTotal(ix: Index, k: Key, o: NewObject, p: string)
    requires VersionKey(k, o.versionId) !in Archive(ix, k).versions && o.versionId != ""
    ensures IndexTotal(PutObject(ix, k, true, o), p) == IndexTotal(ix, p) + At(o.content, p)
  {
    var archived, after, v := Archive(ix, k), PutObject(ix, k, true, o), VersionKey(k, o.versionId);
    ArchiveTotal(ix, k, p);
    VersionedPutFrame(ix, k, o, p);
    VersionedPutIsLocal(ix, k, o);
    ObjectsMove(archived, after, k, p);
    VersionsMove(archived.versions, after.versions, v, p);
  }

  lemma PlainPutTotal(ix: Index, k: Key, o: NewObject, p: string)
    requires NoVersions(ix, k)
    ensures IndexTotal(PutObject(ix, k, false, o), p)
         == IndexTotal(ix, p) + At(o.content, p) - (if k in ix.objects then At(ix.objects[k].content, p) else 0)
  {
    PutIsLocal(ix, k, false, o);
    ObjectsMove(ix, PutObject(ix, k, false, o), k, p);
  }

  lemma MarkerFrame(ix: Index, k: Key, markerId: string, createdAt: string)
    requires VersionKey(k, markerId) !in Archive(ix, k).versions
    ensures var archived, after, v := Archive(ix, k), PutMarker(ix, k, markerId, createdAt), VersionKey(k, markerId);
            && OnlyKey(archived, after, k) && archived.versions - {v} == after.versions - {v}
            && k !in after.objects && v in after.versions && after.versions[v].isMarker
  {}

  lemma MarkerTotal(ix: Index, k: Key, markerId: string, createdAt: string, p: string)
    requires VersionKey(k, markerId) !in Archive(ix, k).versions && k in ix.objects
    ensures IndexTotal(PutMarker(ix, k, markerId, createdAt), p) == IndexTotal(ix, p)
  {
    var archived, after, v := Archive(ix, k), PutMarker(ix, k, markerId, createdAt), VersionKey(k, markerId);
    ArchiveTotal(ix, k, p);
    MarkerFrame(ix, k, markerId, createdAt);
    assert ObjectCharge(archived, k, p) == 0;
    ObjectsMove(archived, after, k, p);
    VersionsMove(archived.versions, after.versions, v, p);
  }

  lemma DropObjectTotal(ix: Index, k: Key, p: string)
    ensures IndexTotal(DropObject(ix, k), p) == IndexTotal(ix, p) - ObjectCharge(ix, k, p)
  {
    DropIsLocal(ix, k);
    ObjectsMove(ix, DropObject(ix, k), k, p);
  }

  /** A key with versions counts its bytes by version rows only. */
  lemma DeleteVersionTotal(ix: Index, v: VersionKey, status: Content -> string, p: string)
    requires v in ix.versions && CurrentIsVersion(ix, v.key) && IdsNamed(ix)
    ensures IndexTotal(DeleteVersion(ix, v, status), p) == IndexTotal(ix, p) - VersionCharge(ix.versions, v, p)
  {
    var after := DeleteVersion(ix, v, status);
    DeleteVersionIsLocal(ix, v, status);
    ShownAfterDelete(ix, v, status);
    ObjectsMove(ix, after, v.key, p);
    assert ix.versions - {v} == after.versions - {v};
    VersionsMove(ix.versions, after.versions, v, p);
  }

  lemma RestoreTrashTotal(ix: Index, t: TrashRow, p: string)
    requires t.key !in ix.objects
    ensures IndexTotal(RestoreTrashIndex(ix, t), p)
         == IndexTotal(ix, p) + (if VersionKey(t.key, "null") in ix.versions then 0 else At(t.content, p))
  {
    RestoreTrashIsLocal(ix, t);
    ObjectsMove(ix, RestoreTrashIndex(ix, t), t.key, p);
  }

  lemma MoveTotal(ix: Index, k: Key, content: Content, p: string)
    requires k in ix.objects
    ensures IndexTotal(MoveIndex(ix, k, content), p)
         == IndexTotal(ix, p)
            + (if ArchivedKey(ix, k) in ix.versions then 0 else At(content, p) - At(ix.objects[k].content, p))
  {
    MoveIsLocal(ix, k, content);
    ObjectsMove(ix, MoveIndex(ix, k, content), k, p);
  }

  /** The current object's bytes are counted, by its own row or by that of its version. */
  lemma CurrentIsCounted(db: Db, k: Key, p: string)
    requires Tidy(db) && k in db.index.objects
    ensures At(db.index.objects[k].content, p) <= IndexTotal(db.index, p)
  {
    var ix, v := db.index, ArchivedKey(db.index, k);
    IndexNonNegative(ix, p);
    if v in ix.versions {
      assert Versioned(db, k) && CurrentIsVersion(ix, k);
      assert VersionCharge(ix.versions, v, p) == At(ix.objects[k].content, p);
    } else {
      assert ObjectCharge(ix, k, p) == At(ix.objects[k].content, p);
    }
  }

  lemma UpdateTotal(ix: Index, k: Key, id: string, wanted: Protection, bypass: bool, now: Instant, p: string)
    ensures IndexTotal(UpdateProtection(ix, k, id, wanted, bypass, now), p) == IndexTotal(ix, p)
  {
    var after := UpdateProtection(ix, k, id, wanted, bypass, now);
    UpdateIsLocal(ix, k, id, wanted, bypass, now);
    UpdateKeepsBytes(ix, k, id, wanted, bypass, now);
    ObjectsMove(ix, after, k, p);
    assert VersionBytes(after.versions, p) == VersionBytes(ix.versions, p);
  }

  // ---- the books side of each request ----------------------------------

  /** What the counter of p says the index stores: all but the trash and replicas. */
  ghost function IndexShare(b: Books, p: string): int
    requires p in b.used
  {
    b.used[p] - BooksTotal(b, p)
  }

  /** The counters cover the trash and the replicas. */
  ghost predicate Covered(b: Books, p: string) {
    p in b.used && IndexShare(b, p) >= 0
  }

  lemma SameRows(b: Books, after: Books, p: string)
    requires after.trash == b.trash && after.replicas == b.replicas
    ensures BooksTotal(after, p) == BooksTotal(b, p)
  {
    assert TrashBytes(after, p) == TrashBytes(b, p);
    assert ReplicaBytes(after, p) == ReplicaBytes(b, p);
  }

  lemma ChargeShare(b: Books, q: string, size: nat, p: string)
    requires Covered(b, p)
    ensures Covered(AddUsage(b, q, size), p)
    ensures IndexShare(AddUsage(b, q, size), p) == IndexShare(b, p) + (if p == q then size else 0)
  {
    BooksNonNegative(b, p);
    SameRows(b, AddUsage(b, q, size), p);
  }

  /** Taking off what the counter covers never meets the clamp. */
  lemma UnchargeShare(b: Books, q: string, size: nat, p: string)
    requires Covered(b, p) && (p == q ==> IndexShare(b, p) >= size)
    ensures Covered(Uncharge(b, q, size), p)
    ensures IndexShare(Uncharge(b, q, size), p) == IndexShare(b, p) - (if p == q then size else 0)
  {
    BooksNonNegative(b, p);
    SameRows(b, Uncharge(b, q, size), p);
  }

  lemma IssueShare(b: Books, l: Location, p: string)
    requires Covered(b, p)
    ensures Covered(Issue(b, l), p) && IndexShare(Issue(b, l), p) == IndexShare(b, p)
  {
    SameRows(b, Issue(b, l), p);
  }

  // ---- replicas --------------------------------------------------------

  lemma ReplicasMove(before: Books, after: Books, r: ReplicaKey, p: string)
    requires forall q :: q != r ==> ReplicaCharge(before, q, p) == ReplicaCharge(after, q, p)
    ensures Sums.Total(ReplicaBytes(after, p)) - ReplicaCharge(after, r, p)
         == Sums.Total(ReplicaBytes(before, p)) - ReplicaCharge(before, r, p)
  {
    var x, y := ReplicaBytes(before, p), ReplicaBytes(after, p);
    forall q | q != r ensures Sums.Value(x, q) == Sums.Value(y, q) {
      assert ReplicaCharge(before, q, p) == ReplicaCharge(after, q, p);
    }
    Sums.TotalDiffersAt(x, y, r);
  }

  /** A key has at most one replica at a provider. */
  lemma ReplicaDropTotal(b: Books, k: Key, down: set<string>, p: string)
    ensures BooksTotal(DropReplicas(b, k, down), p) == BooksTotal(b, p) - ReplicaCharge(b, ReplicaKey(k, p), p)
  {
    var after, r := DropReplicas(b, k, down), ReplicaKey(k, p);
    forall q | q != r ensures ReplicaCharge(b, q, p) == ReplicaCharge(after, q, p) {
      assert q.key == k ==> q.provider != p;
    }
    ReplicasMove(b, after, r, p);
    assert TrashBytes(after, p) == TrashBytes(b, p);
  }

  lemma EnqueueTotal(b: Books, k: Key, bucket: Bucket, content: Content, p: string)
    ensures BooksTotal(EnqueueAll(b, k, bucket, content), p)
         == BooksTotal(b, p)
            - (if p in Targets(bucket, content.location.provider) then ReplicaCharge(b, ReplicaKey(k, p), p) else 0)
  {
    var after, r := EnqueueAll(b, k, bucket, content), ReplicaKey(k, p);
    forall q | q != r ensures ReplicaCharge(b, q, p) == ReplicaCharge(after, q, p) {
      assert q.key == k ==> q.provider != p;
    }
    ReplicasMove(b, after, r, p);
    assert TrashBytes(after, p) == TrashBytes(b, p);
  }

  /** A key whose replicas were just dropped, or that had no object, has none to forget. */
  lemma EnqueueTotalFresh(b: Books, k: Key, bucket: Bucket, content: Content, p: string)
    requires ReplicaCharge(b, ReplicaKey(k, p), p) == 0
    ensures BooksTotal(EnqueueAll(b, k, bucket, content), p) == BooksTotal(b, p)
    ensures EnqueueAll(b, k, bucket, content).used == b.used
  {
    EnqueueTotal(b, k, bucket, content, p);
  }

  // ---- trash and copies ------------------------------------------------

  lemma TrashShare(b: Books, id: string, row: TrashRow, p: string)
    requires Covered(b, p) && id !in b.trash && IndexShare(b, p) >= At(row.content, p)
    ensures Covered(PutTrash(b, id, row), p)
    ensures IndexShare(PutTrash(b, id, row), p) == IndexShare(b, p) - At(row.content, p)
  {
    var x, y := TrashBytes(b, p), TrashBytes(PutTrash(b, id, row), p);
    assert x - {id} == y - {id};
    Sums.TotalUpdate(x, y, id);
    assert ReplicaBytes(PutTrash(b, id, row), p) == ReplicaBytes(b, p);
  }

  lemma DropTrashShare(b: Books, id: string, p: string)
    requires Covered(b, p) && id in b.trash
    ensures Covered(DropTrash(b, id), p)
    ensures IndexShare(DropTrash(b, id), p) == IndexShare(b, p) + At(b.trash[id].content, p)
  {
    var x, y := TrashBytes(b, p), TrashBytes(DropTrash(b, id), p);
    assert x - {id} == y - {id};
    Sums.TotalUpdate(x, y, id);
    assert ReplicaBytes(DropTrash(b, id), p) == ReplicaBytes(b, p);
  }

  /** A repeated copy replaces the charge of the earlier one. */
  lemma CopyUsed(b: Books, r: ReplicaKey, content: Content, p: string)
    requires Covered(b, p)
    ensures p in CopyBooks(b, r, content).used
    ensures CopyBooks(b, r, content).used[p]
         == b.used[p] + (if p == r.provider then content.size - EarlierCopy(b, r) else 0)
  {
    BooksNonNegative(b, p);
    assert ReplicaCharge(b, r, p) <= Sums.Total(ReplicaBytes(b, p));
  }

  lemma CopyReplicas(b: Books, r: ReplicaKey, content: Content, p: string)
    ensures BooksTotal(CopyBooks(b, r, content), p)
         == BooksTotal(b, p) + (if p == r.provider then content.size - EarlierCopy(b, r) else 0)
  {
    var after := CopyBooks(b, r, content);
    assert after.trash == b.trash;
    assert after.replicas == b.replicas[r := ReplicaRow(content.location, content.size, "succeeded")];
    ReplicasMove(b, after, r, p);
  }

  lemma CopyShare(b: Books, r: ReplicaKey, content: Content, p: string)
    requires Covered(b, p)
    ensures p in CopyBooks(b, r, content).used && IndexShare(CopyBooks(b, r, content), p) == IndexShare(b, p)
  {
    CopyUsed(b, r, content, p);
    CopyReplicas(b, r, content, p);
  }

  // ---- the standing condition ------------------------------------------

  ghost predicate Accounted(db: Db, p: string) {
    p in db.books.used && db.books.used[p] == Stored(db, p)
  }

  lemma ShareOf(db: Db, p: string)
    requires Accounted(db, p)
    ensures Covered(db.books, p) && IndexShare(db.books, p) == IndexTotal(db.index, p)
  {
    IndexNonNegative(db.index, p);
  }

  lemma ShareDecides(db: Db, p: string)
    requires p in db.books.used
    ensures Accounted(db, p) <==> IndexShare(db.books, p) == IndexTotal(db.index, p)
  {}

  lemma CleanUpShare(b: Books, previous: Content, current: Content, p: string)
    requires Covered(b, p) && IndexShare(b, p) >= At(previous, p)
    ensures Covered(CleanUp(b, previous, current), p)
    ensures IndexShare(CleanUp(b, previous, current), p) == IndexShare(b, p) - At(previous, p)
  {
    UnchargeShare(b, previous.location.provider, previous.size, p);
    IssueShare(Uncharge(b, previous.location.provider, previous.size), previous.location, p);
  }

  lemma ChargedShare(b: Books, ix: Index, k: Key, bucket: Bucket, content: Content, p: string)
    requires Covered(b, p)
    requires k in ix.objects && !bucket.versioning ==> IndexShare(b, p) >= At(ix.objects[k].content, p)
    ensures Covered(Charged(b, ix, k, bucket, content), p)
    ensures IndexShare(Charged(b, ix, k, bucket, content), p)
         == IndexShare(b, p) + At(content, p)
            - (if k in ix.objects && !bucket.versioning then At(ix.objects[k].content, p) else 0)
  {
    var charged := AddUsage(b, content.location.provider, content.size);
    ChargeShare(b, content.location.provider, content.size, p);
    if k in ix.objects && !bucket.versioning {
      CleanUpShare(charged, ix.objects[k].content, content, p);
    }
  }

  lemma PutIndexTotal(ix: Index, k: Key, versioning: bool, o: NewObject, p: string)
    requires versioning ==> VersionKey(k, o.versionId) !in Archive(ix, k).versions && o.versionId != ""
    requires !versioning ==> NoVersions(ix, k)
    ensures IndexTotal(PutObject(ix, k, versioning, o), p)
         == IndexTotal(ix, p) + At(o.content, p)
            - (if k in ix.objects && !versioning then At(ix.objects[k].content, p) else 0)
    ensures k in ix.objects && !versioning ==> At(ix.objects[k].content, p) <= IndexTotal(ix, p)
  {
    if versioning {
      VersionedPutTotal(ix, k, o, p);
    } else {
      PlainPutTotal(ix, k, o, p);
      IndexNonNegative(ix, p);
      assert k in ix.objects ==> ObjectCharge(ix, k, p) == At(ix.objects[k].content, p);
    }
  }
}
