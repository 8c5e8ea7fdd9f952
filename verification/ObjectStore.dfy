/** The request handlers, step by step over the mutable tables. Every handler is shown to do to
    the tables what the functions of Objects say. */
module ObjectStore {
  import opened Common
  import opened Timestamps
  import opened VersionOrder
  import opened ObjectIndex
  import opened Objects
  import Text

  const LISTING_LIMIT := 1000

  function ListingLimit(requested: int): nat {
    if requested <= 0 || requested > LISTING_LIMIT then LISTING_LIMIT else requested
  }

  /** A listing of 1 to 1000 rows is taken as asked, anything else as 1000. */
  lemma ListingLimitExactly(requested: int)
    ensures ListingLimit(requested) == requested <==> 1 <= requested <= 1000
    ensures ListingLimit(requested) != requested ==> ListingLimit(requested) == 1000
  {}

  class Store {
    var buckets: map<string, Bucket>
    var objects: map<Key, ObjectRow>
    var attributes: map<Key, Attributes>
    var versions: map<VersionKey, VersionRow>
    var trash: map<string, TrashRow>
    var replicas: map<ReplicaKey, ReplicaRow>
    var used: map<string, int>
    var issued: set<Location>

    function Tables(): Index
      reads this
    {
      Index(objects, attributes, versions)
    }

    function Ledger(): Books
      reads this
    {
      Books(trash, replicas, used, issued)
    }

    function State(): Db
      reads this
    {
      Db(buckets, Tables(), Ledger())
    }

    // ---- single statements ---------------------------------------------

    method PutObjectRow(k: Key, content: Content, status: string, createdAt: string)
      modifies this`objects
      ensures Tables() == PutRow(old(Tables()), k, content, status, createdAt)
    {
      var created := if k in objects then objects[k].createdAt else createdAt;
      objects := objects[k := ObjectRow(content, status, created)];
    }

    method PutObjectVersion(v: VersionKey, row: VersionRow)
      modifies this`versions
      ensures Tables() == InsertVersion(old(Tables()), v, row)
    {
      if v !in versions {
        versions := versions[v := row];
      }
    }

    method DeleteObjectRow(k: Key)
      modifies this`objects, this`attributes
      ensures Tables() == DropObject(old(Tables()), k)
    {
      objects := objects - {k};
      attributes := attributes - {k};
    }

    method AddProviderUsage(p: string, delta: int)
      modifies this`used
      ensures Ledger() == AddUsage(old(Ledger()), p, delta)
    {
      if p in used {
        used := used[p := if used[p] + delta < 0 then 0 else used[p] + delta];
      }
    }

    /** The adapter is asked to delete the bytes. */
    method IssueDelete(l: Location)
      modifies this`issued
      ensures Ledger() == Issue(old(Ledger()), l)
    {
      issued := issued + {l};
    }

    method FirstListed(rows: set<VersionKey>) returns (first: VersionKey)
      requires rows != {} && rows <= versions.Keys
      requires forall a, b :: a in rows && b in rows ==> a.key.bucket == b.key.bucket
      ensures first in rows && forall other :: other in rows && other != first ==> ListedBefore(versions, first, other)
    {
      first :| first in rows;
      var left := rows - {first};
      while left != {}
        invariant first in rows && left <= rows && first !in left
        invariant forall other :: other in rows - left && other != first ==> ListedBefore(versions, first, other)
      {
        var next :| next in left;
        ghost var seen, best := rows - left, first;
        left := left - {next};
        ListingIsTotal(versions, first, next);
        if ListedBefore(versions, next, first) {
          first := next;
          forall other | other in seen && other != best ensures ListedBefore(versions, next, other) {
            ListingIsTransitive(versions, next, best, other);
          }
        }
      }
    }

    /** The rows whose key starts with `prefix`, by key and newest first, up to the limit. */
    method ListObjectVersions(bucket: string, prefix: string, requested: int) returns (rows: seq<VersionKey>)
      ensures IsListing(versions, bucket, prefix, ListingLimit(requested), rows)
    {
      var limit := ListingLimit(requested);
      var left := set v | v in versions && Matches(v, bucket, prefix);
      rows := [];
      while left != {} && |rows| < limit
        invariant |rows| <= limit
        invariant forall v :: v in left ==> v in versions && Matches(v, bucket, prefix)
        invariant forall i :: 0 <= i < |rows| ==> rows[i] in versions && Matches(rows[i], bucket, prefix)
        invariant forall v :: v in versions && Matches(v, bucket, prefix) ==> v in left || v in rows
        invariant forall i, j :: 0 <= i < j < |rows| ==> ListedBefore(versions, rows[i], rows[j])
        invariant forall i, v :: 0 <= i < |rows| && v in left ==> ListedBefore(versions, rows[i], v)
        decreases left
      {
        var first := FirstListed(left);
        rows := rows + [first];
        left := left - {first};
      }
    }

    // ---- replicas ------------------------------------------------------

    /** The bytes that were asked for at the providers done so far. */
    ghost function Asked(rows: map<ReplicaKey, ReplicaRow>, k: Key, done: set<string>): set<Location> {
      set p | p in done && ReplicaKey(k, p) in rows :: rows[ReplicaKey(k, p)].location
    }

    lemma AskedAll(rows: map<ReplicaKey, ReplicaRow>, k: Key, done: set<string>)
      requires done == set r | r in rows && r.key == k :: r.provider
      ensures Asked(rows, k, done) == set r | r in rows && r.key == k :: rows[r].location
    {
      forall r | r in rows && r.key == k ensures rows[r].location in Asked(rows, k, done) {
        assert r == ReplicaKey(k, r.provider) && r.provider in done;
      }
    }

    lemma AskedOneMore(rows: map<ReplicaKey, ReplicaRow>, k: Key, done: set<string>, p: string)
      requires ReplicaKey(k, p) in rows
      ensures Asked(rows, k, done + {p}) == Asked(rows, k, done) + {rows[ReplicaKey(k, p)].location}
    {
      assert p in done + {p};
      forall q | q in done ensures q in done + {p} {}
    }

    method DeleteObjectReplicas(k: Key, down: set<string>)
      modifies this`replicas, this`used, this`issued
      ensures Ledger() == DropReplicas(old(Ledger()), k, down)
    {
      var providers := set r | r in replicas && r.key == k :: r.provider;
      AskedAll(replicas, k, providers);
      DeleteEachReplica(k, providers, down);
      replicas := map r | r in replicas && r.key != k :: replicas[r];
    }

    /** The counter of p once the replicas at the providers done so far are deleted. */
    ghost function LeftOf(before: map<string, int>, rows: map<ReplicaKey, ReplicaRow>, k: Key,
                          done: set<string>, p: string): int
      requires p in before && forall q :: q in done ==> ReplicaKey(k, q) in rows
    {
      if p in done then Max(before[p] - rows[ReplicaKey(k, p)].size, 0) else before[p]
    }

    method DeleteEachReplica(k: Key, providers: set<string>, down: set<string>)
      requires forall p :: p in providers ==> ReplicaKey(k, p) in replicas
      modifies this`used, this`issued
      ensures issued == old(issued) + Asked(replicas, k, providers)
      ensures used.Keys == old(used).Keys
      ensures forall p :: p in used ==> used[p] == LeftOf(old(used), replicas, k, providers - down, p)
    {
      var left := providers;
      while left != {}
        invariant left <= providers
        invariant used.Keys == old(used).Keys
        invariant forall p :: p in used ==> used[p] == LeftOf(old(used), replicas, k, providers - left - down, p)
        invariant issued == old(issued) + Asked(replicas, k, providers - left)
      {
        var p :| p in left;
        var replica := replicas[ReplicaKey(k, p)];
        AskedOneMore(replicas, k, providers - left, p);
        assert providers - (left - {p}) == (providers - left) + {p};
        issued := issued + {replica.location};
        if p !in down {
          AddProviderUsage(p, -(replica.size as int));
        }
        left := left - {p};
      }
    }

    method EnqueueObjectReplicas(k: Key, bucket: Bucket, content: Content)
      modifies this`replicas
      ensures Ledger() == EnqueueAll(old(Ledger()), k, bucket, content)
    {
      var targets := Targets(bucket, content.location.provider);
      var left := targets;
      while left != {}
        invariant left <= targets
        invariant replicas == old(replicas) + map r | r in (set p | p in targets - left :: ReplicaKey(k, p)) ::
                                                 ReplicaRow(Location(r.provider, "", ""), content.size, "pending")
      {
        var p :| p in left;
        replicas := replicas[ReplicaKey(k, p) := ReplicaRow(Location(p, "", ""), content.size, "pending")];
        left := left - {p};
        assert targets - left == (targets - (left + {p})) + {p};
      }
      assert targets - left == targets;
    }

    // ---- restoring -----------------------------------------------------

    /** The end of a run of a replica; how the copying goes is up to the providers, and whether the
        attempt was the last is up to the row's attempts. */
    method RunObjectReplication(k: Key, provider: string, run: ReplicaRun, last: bool) returns (r: Result<()>)
      modifies this`replicas, this`used
      ensures State() == Replicate(old(State()), k, provider, run, last)
      ensures r == if k !in objects then Err(NotFound)
          else if run.Copied? && provider in old(used) then Ok(()) else Err(AdapterFailed)
    {
      var row := ReplicaKey(k, provider);
      if k !in objects {
        replicas := replicas[row := ReplicaRow(Location(provider, "", ""), 0, "failed")];
        return Err(NotFound);
      }
      if run.Refused? || provider !in used {
        FailObjectReplica(row, objects[k].content.size, last);
        return Err(AdapterFailed);
      }
      if run.Disabled? {
        replicas := replicas[row := ReplicaRow(Location(provider, "", ""), objects[k].content.size, "failed")];
        return Err(AdapterFailed);
      }
      AddProviderUsage(provider, run.content.size);
      replicas := replicas[row := ReplicaRow(run.content.location, run.content.size, "succeeded")];
      return Ok(());
    }

    method FailObjectReplica(row: ReplicaKey, size: nat, last: bool)
      modifies this`replicas
      ensures replicas == old(replicas)[row := FailedReplica(old(Ledger()), row, size, last)]
    {
      var replica := ReplicaRow(Location(row.provider, "", ""), size, "pending");
      if row in replicas {
        replica := replicas[row].(status := if last then "failed" else "pending");
      }
      replicas := replicas[row := replica];
    }

    method RestoreVersionAsCurrent(bucket: Bucket, v: VersionKey)
      requires v in versions
      modifies this`objects, this`attributes, this`replicas
      ensures Tables() == RestoreVersion(old(Tables()), v, StatusIn(bucket)(old(versions)[v].content))
      ensures Ledger() == EnqueueAll(old(Ledger()), v.key, bucket, old(versions)[v].content)
    {
      var row := versions[v];
      PutObjectRow(v.key, row.content, "none", row.createdAt);
      attributes := attributes[v.key := Attributes(row.metadata, row.tags, v.id, row.protection)];
      if Targets(bucket, row.content.location.provider) != {} {
        PutObjectRow(v.key, row.content, "pending", row.createdAt);
        EnqueueObjectReplicas(v.key, bucket, row.content);
      }
    }

    /** The scan that skips the keys the prefix also matches and stops at the first row of the key. */
    method RestoreLatestObjectVersion(bucket: Bucket, k: Key)
      modifies this`objects, this`attributes, this`replicas
      ensures Tables() == RestoreLatest(old(Tables()), k, StatusIn(bucket))
      ensures Ledger() == RestoreBooks(old(Ledger()), old(Tables()), k, bucket)
    {
      var rows := ListObjectVersions(k.bucket, k.name, 1000);
      for i := 0 to |rows|
        invariant Tables() == old(Tables()) && Ledger() == old(Ledger())
        invariant forall j :: 0 <= j < i ==> rows[j].key != k
      {
        if rows[i].key != k {
          continue;
        }
        FirstRowIsNewest(versions, k, LISTING_LIMIT, rows, i);
        assert rows[i] == VersionKey(k, rows[i].id);
        if versions[rows[i]].isMarker {
          return;
        }
        RestoreVersionAsCurrent(bucket, rows[i]);
        return;
      }
      FirstRowIsNewest(versions, k, LISTING_LIMIT, rows, |rows|);
    }

    // ---- put -----------------------------------------------------------

    method CleanupOverwrittenObject(previous: Content, current: Content)
      modifies this`used, this`issued
      ensures Ledger() == CleanUp(old(Ledger()), previous, current)
    {
      AddProviderUsage(previous.location.provider, -(previous.size as int));
      if previous.location != current.location {
        IssueDelete(previous.location);
      }
    }

    method WriteIndex(k: Key, versioning: bool, o: NewObject)
      modifies this`objects, this`attributes, this`versions
      ensures Tables() == PutObject(old(Tables()), k, versioning, o)
    {
      var isNew := k !in objects;
      if !isNew && versioning {
        PutObjectVersion(ArchivedKey(Tables(), k), ArchivedRow(Tables(), k));
      }
      PutObjectRow(k, o.content, o.status, o.createdAt);
      var a := NewAttributes(o, versioning);
      if !isNew || Persistent(a) {
        attributes := attributes[k := a];
      }
      if versioning {
        PutObjectVersion(VersionKey(k, o.versionId), NewVersion(o));
      }
    }

    /** The protection a put asks for, and whether the bucket allows it. */
    method CheckProtection(bucket: Bucket, input: PutInput) returns (r: Result<Protection>)
      ensures r == if PutAllowed(bucket, input) then Ok(Requested(bucket, input)) else Err(InvalidArgument)
    {
      var wanted := input.protection;
      if bucket.objectLock && wanted.mode == "" && bucket.defaultDays > 0 {
        wanted := wanted.(mode := Text.Upper(bucket.defaultMode), retainUntil := Some(input.defaultUntil));
      }
      if (wanted.mode != "" || wanted.retainUntil.Some? || wanted.hold) && !bucket.objectLock {
        return Err(InvalidArgument);
      }
      if wanted.mode != "" && wanted.mode != "GOVERNANCE" && wanted.mode != "COMPLIANCE" {
        return Err(InvalidArgument);
      }
      if wanted.mode != "" && !RetainedAt(wanted, input.now) {
        return Err(InvalidArgument);
      }
      return Ok(wanted);
    }

    method Put(input: PutInput) returns (r: Result<NewObject>)
      modifies this
      ensures State() == Objects.Put(old(State()), input)
      ensures r.Ok? <==> PutAccepted(EnsureBucket(old(State()), input.key.bucket), input)
    {
      var k := input.key;
      if k.bucket !in buckets {
        buckets := buckets[k.bucket := DEFAULT_BUCKET];
      }
      var bucket := buckets[k.bucket];
      var wanted := CheckProtection(bucket, input);
      if wanted.Err? {
        return Err(wanted.error);
      }
      if input.stored.None? || input.stored.value.location.provider !in used {
        return Err(NoProviderAvailable);
      }
      var o := NewObjectOf(bucket, input);
      assert o.protection == wanted.value;
      StoreObject(k, bucket, o, input.down);
      return Ok(o);
    }

    /** The put as it is called: a declared or received size above the configured maximum is
        refused, the first before the bucket is even created. */
    method PutWithin(input: PutInput, declared: int, received: int, maximum: int) returns (r: Result<NewObject>)
      modifies this
      ensures declared > maximum ==> State() == old(State()) && r == Err(TooLarge)
      ensures declared <= maximum ==> State() == Objects.Put(old(State()), Received(input, received, maximum))
      ensures r.Ok? <==> declared <= maximum && received <= maximum
                         && PutAccepted(EnsureBucket(old(State()), input.key.bucket), input)
    {
      if declared > maximum {
        return Err(TooLarge);
      }
      r := Put(Received(input, received, maximum));
    }

    method StoreObject(k: Key, bucket: Bucket, o: NewObject, down: set<string>)
      modifies this`objects, this`attributes, this`versions, this`replicas, this`used, this`issued
      ensures Tables() == PutObject(old(Tables()), k, bucket.versioning, o)
      ensures Ledger() == PutBooks(old(Ledger()), old(Tables()), k, bucket, o.content, down)
    {
      var existing := if k in objects then Some(objects[k].content) else None;
      AddProviderUsage(o.content.location.provider, o.content.size);
      WriteIndex(k, bucket.versioning, o);
      if existing.Some? && !bucket.versioning {
        CleanupOverwrittenObject(existing.value, o.content);
      }
      if existing.Some? {
        DeleteObjectReplicas(k, down);
      }
      EnqueueObjectReplicas(k, bucket, o.content);
    }

    // ---- delete --------------------------------------------------------

    method DeleteObjectWithOptions(input: DeleteInput) returns (r: Result<()>)
      modifies this
      ensures State() == Objects.Delete(old(State()), input)
      ensures r == DeleteResult(old(State()), input)
    {
      var k := input.key;
      if k.bucket !in buckets {
        return Err(NotFound);
      }
      var bucket := buckets[k.bucket];
      if input.versionId != "" {
        r := DeleteObjectVersion(bucket, input);
        return;
      }
      if k !in objects {
        return Err(NotFound);
      }
      if Locked(Hydrated(Tables(), k).protection, input.bypass, input.now) {
        return Err(ObjectLocked);
      }
      if bucket.versioning && !input.permanent {
        PutDeleteMarker(k, input);
        return Ok(());
      }
      if bucket.trash && !input.permanent {
        MoveToTrash(k, input);
        return Ok(());
      }
      r := DeleteNow(k, input);
    }

    method PutDeleteMarker(k: Key, input: DeleteInput)
      requires k in objects
      modifies this`objects, this`attributes, this`versions, this`replicas, this`used, this`issued
      ensures Tables() == PutMarker(old(Tables()), k, input.markerId, Format(input.now))
      ensures Ledger() == DropReplicas(old(Ledger()), k, input.down)
    {
      InsertMarker(k, input.markerId, Format(input.now));
      DeleteObjectReplicas(k, input.down);
      DeleteObjectRow(k);
    }

    method InsertMarker(k: Key, markerId: string, createdAt: string)
      requires k in objects
      modifies this`versions
      ensures Tables() == InsertVersion(Archive(old(Tables()), k), VersionKey(k, markerId), MarkerRow(createdAt))
    {
      PutObjectVersion(ArchivedKey(Tables(), k), ArchivedRow(Tables(), k));
      PutObjectVersion(VersionKey(k, markerId), MarkerRow(createdAt));
    }

    method MoveToTrash(k: Key, input: DeleteInput)
      requires k in objects
      modifies this`objects, this`attributes, this`trash, this`replicas, this`used, this`issued
      ensures Tables() == DropObject(old(Tables()), k)
      ensures Ledger() == DropReplicas(PutTrash(old(Ledger()), input.trashId,
                            TrashOf(old(Tables()), k, Format(input.now), input.purgeAfter)), k, input.down)
    {
      trash := trash[input.trashId := TrashOf(Tables(), k, Format(input.now), input.purgeAfter)];
      DeleteObjectReplicas(k, input.down);
      DeleteObjectRow(k);
    }

    method DeleteNow(k: Key, input: DeleteInput) returns (r: Result<()>)
      requires k in objects
      modifies this`objects, this`attributes, this`replicas, this`used, this`issued
      ensures r == if old(objects)[k].content.location.provider in input.down then Err(AdapterFailed) else Ok(())
      ensures r.Err? ==> Tables() == old(Tables()) && Ledger() == Issue(old(Ledger()), old(objects)[k].content.location)
      ensures r.Ok? ==> Tables() == DropObject(old(Tables()), k)
      ensures r.Ok? ==> Ledger() == Uncharge(DropReplicas(Issue(old(Ledger()), old(objects)[k].content.location), k,
                                                          input.down),
                                             old(objects)[k].content.location.provider, old(objects)[k].content.size)
    {
      var content := objects[k].content;
      IssueDelete(content.location);
      if content.location.provider in input.down {
        return Err(AdapterFailed);
      }
      DeleteObjectReplicas(k, input.down);
      DeleteObjectRow(k);
      AddProviderUsage(content.location.provider, -(content.size as int));
      return Ok(());
    }

    /** Removes the row of a version, and shows what is left if the version was shown. */
    method RemoveVersion(bucket: Bucket, v: VersionKey, down: set<string>)
      requires v in versions && !versions[v].isMarker
      modifies this`objects, this`attributes, this`versions, this`replicas, this`used, this`issued
      ensures Tables() == DeleteVersion(old(Tables()), v, StatusIn(bucket))
      ensures Ledger() == if !Restores(old(Tables()), v) then old(Ledger())
                          else RestoreBooks(DropReplicas(old(Ledger()), v.key, down), WithoutVersion(old(Tables()), v),
                                            v.key, bucket)
    {
      versions := versions - {v};
      if v.key in objects && CurrentId(Tables(), v.key) == v.id {
        DeleteObjectReplicas(v.key, down);
        DeleteObjectRow(v.key);
        RestoreLatestObjectVersion(bucket, v.key);
      }
    }

    method DeleteObjectVersion(bucket: Bucket, input: DeleteInput) returns (r: Result<()>)
      modifies this
      ensures State() == DeleteVersionOf(old(State()), bucket, input)
      ensures r == VersionDeleteResult(old(Tables()), VersionKey(input.key, input.versionId), input)
    {
      var k, v := input.key, VersionKey(input.key, input.versionId);
      if v !in versions {
        return Err(NotFound);
      }
      var row := versions[v];
      if row.isMarker {
        versions := versions - {v};
        RestoreLatestObjectVersion(bucket, k);
        return Ok(());
      }
      if Locked(row.protection, input.bypass, input.now) {
        return Err(ObjectLocked);
      }
      IssueDelete(row.content.location);
      if row.content.location.provider in input.down {
        return Err(AdapterFailed);
      }
      RemoveVersion(bucket, v, input.down);
      AddProviderUsage(row.content.location.provider, -(row.content.size as int));
      return Ok(());
    }

    // ---- retention and legal hold --------------------------------------

    method UpdateObjectProtection(k: Key, id: string, wanted: Protection, bypass: bool, now: Instant)
      returns (r: Result<()>)
      modifies this`attributes, this`versions
      ensures Tables() == if LockEnabled(old(State()), k)
                          then UpdateProtection(old(Tables()), k, id, wanted, bypass, now) else old(Tables())
      ensures r.Ok? <==> LockEnabled(old(State()), k) && UpdateAllowed(old(Tables()), k, id, wanted, bypass, now)
    {
      if k.bucket !in buckets {
        return Err(NotFound);
      }
      if !buckets[k.bucket].objectLock {
        return Err(InvalidArgument);
      }
      if !Exists(Tables(), k, id) {
        return Err(NotFound);
      }
      var existing := Protected(Tables(), k, id);
      var p := existing.protection;
      if p.mode == "COMPLIANCE" && RetainedAt(p, now) && MovesEarlier(p, wanted) {
        return Err(ObjectLocked);
      }
      if p.mode == "GOVERNANCE" && RetainedAt(p, now) && MovesEarlier(p, wanted) && !bypass {
        return Err(ObjectLocked);
      }
      existing := existing.(protection := wanted);
      if existing.versionId != "" {
        var v := VersionKey(k, existing.versionId);
        if v !in versions {
          return Err(NotFound);
        }
        versions := versions[v := versions[v].(metadata := existing.metadata, tags := existing.tags,
                                               protection := wanted)];
      }
      if k in objects && CurrentId(Tables(), k) == existing.versionId {
        attributes := attributes[k := existing];
      }
      return Ok(());
    }

    method PutObjectRetention(k: Key, id: string, mode: string, until: Instant, bypass: bool, now: Instant)
      returns (r: Result<()>)
      modifies this`attributes, this`versions
      ensures State() == Retain(old(State()), k, id, mode, until, bypass, now)
      ensures r.Ok? <==> RetentionAllowed(mode, until, now) && ProtectionAllowed(old(State()), k, id, bypass, now,
                           (p: Protection) => WithRetention(p, mode, until))
    {
      if !RetentionAllowed(mode, until, now) {
        return Err(InvalidArgument);
      }
      if !Exists(Tables(), k, id) {
        return Err(NotFound);
      }
      var read := Protected(Tables(), k, id);
      r := UpdateObjectProtection(k, read.versionId, WithRetention(read.protection, mode, until), bypass, now);
    }

    method PutObjectLegalHold(k: Key, id: string, on: bool, now: Instant) returns (r: Result<()>)
      modifies this`attributes, this`versions
      ensures State() == Hold(old(State()), k, id, on, now)
      ensures r.Ok? <==> ProtectionAllowed(old(State()), k, id, false, now, (p: Protection) => p.(hold := on))
    {
      if !Exists(Tables(), k, id) {
        return Err(NotFound);
      }
      var read := Protected(Tables(), k, id);
      r := UpdateObjectProtection(k, read.versionId, read.protection.(hold := on), false, now);
    }

    // ---- trash and migration -------------------------------------------

    method RestoreTrashObject(id: string) returns (r: Result<()>)
      modifies this`objects, this`attributes, this`trash
      ensures State() == RestoreTrash(old(State()), id)
      ensures r == if id !in old(trash) then Err(NotFound)
                   else if old(trash)[id].key in old(objects) then Err(Conflict) else Ok(())
    {
      if id !in trash {
        return Err(NotFound);
      }
      var t := trash[id];
      if t.key in objects {
        return Err(Conflict);
      }
      PutObjectRow(t.key, t.content, "none", t.deletedAt);
      attributes := attributes[t.key := Attributes(t.metadata, t.tags, "", NO_PROTECTION)];
      trash := trash - {id};
      return Ok(());
    }

    method PurgeTrashObject(id: string, down: set<string>) returns (r: Result<()>)
      modifies this`trash, this`used, this`issued
      ensures State() == PurgeTrash(old(State()), id, down)
      ensures r == if id !in old(trash) then Err(NotFound)
                   else if old(trash)[id].content.location.provider in down then Err(AdapterFailed) else Ok(())
    {
      if id !in trash {
        return Err(NotFound);
      }
      var content := trash[id].content;
      IssueDelete(content.location);
      if content.location.provider in down {
        return Err(AdapterFailed);
      }
      trash := trash - {id};
      AddProviderUsage(content.location.provider, -(content.size as int));
      return Ok(());
    }

    method MigrateObject(k: Key, move: bool, stored: Option<Content>, down: set<string>) returns (r: Result<()>)
      modifies this`objects, this`replicas, this`used, this`issued
      ensures State() == Migrate(old(State()), k, move, stored, down)
      ensures r.Ok? <==> k in old(objects) && stored.Some? && stored.value.location.provider in old(used)
    {
      if k !in objects || stored.None? || stored.value.location.provider !in used {
        return Err(AdapterFailed);
      }
      var obj, content := objects[k], stored.value;
      var target := content.location.provider;
      AddProviderUsage(target, content.size);
      if !move {
        var existing := ReplicaKey(k, target);
        if existing in replicas && replicas[existing].size > 0 && replicas[existing].status == "succeeded" {
          AddProviderUsage(target, -(replicas[existing].size as int));
        }
        replicas := replicas[existing := ReplicaRow(content.location, content.size, "succeeded")];
        return Ok(());
      }
      PutObjectRow(k, content, obj.replicaStatus, obj.createdAt);
      IssueDelete(obj.content.location);
      if obj.content.location.provider !in down {
        AddProviderUsage(obj.content.location.provider, -(obj.content.size as int));
      }
      return Ok(());
    }
  }
}
