/** The rows of the object index and the order in which a prefix listing reports versions. */
module VersionOrder {
  import opened Common
  import opened Timestamps
  import Text

  // ---- rows ------------------------------------------------------------

  datatype Location = Location(provider: string, remoteBucket: string, remoteKey: string)

  datatype Content = Content(location: Location, size: nat, contentType: string, etag: string, checksum: string)

  datatype Protection = Protection(mode: string, retainUntil: Option<Instant>, hold: bool)

  datatype ObjectRow = ObjectRow(content: Content, replicaStatus: string, createdAt: string)

  datatype Attributes = Attributes(
    metadata: map<string, string>, tags: map<string, string>, versionId: string, protection: Protection)

  datatype VersionKey = VersionKey(key: Key, id: string)

  datatype VersionRow = VersionRow(
    content: Content, metadata: map<string, string>, tags: map<string, string>,
    protection: Protection, isMarker: bool, createdAt: string)

  type Versions = map<VersionKey, VersionRow>

  // ---- listing order ---------------------------------------------------

  /** Key ascending, then creation text descending; the database leaves equal creation texts
      of one key unordered, here the smaller id comes first. */
  predicate ListedBefore(versions: Versions, a: VersionKey, b: VersionKey)
    requires a in versions && b in versions
  {
    if a.key.name != b.key.name then Text.Less(a.key.name, b.key.name)
    else if versions[a].createdAt != versions[b].createdAt then Text.Less(versions[b].createdAt, versions[a].createdAt)
    else Text.Less(a.id, b.id)
  }

  lemma ListingIsTotal(versions: Versions, a: VersionKey, b: VersionKey)
    requires a in versions && b in versions && a.key.bucket == b.key.bucket
    ensures a == b || ListedBefore(versions, a, b) || ListedBefore(versions, b, a)
    ensures !(ListedBefore(versions, a, b) && ListedBefore(versions, b, a))
  {
    Text.Trichotomy(a.key.name, b.key.name);
    Text.Trichotomy(versions[a].createdAt, versions[b].createdAt);
    Text.Trichotomy(a.id, b.id);
  }

  lemma ListingIsTransitive(versions: Versions, a: VersionKey, b: VersionKey, c: VersionKey)
    requires a in versions && b in versions && c in versions
    requires ListedBefore(versions, a, b) && ListedBefore(versions, b, c)
    ensures ListedBefore(versions, a, c)
  {
    Text.Trichotomy(a.key.name, b.key.name);
    Text.AtMostTransitive(a.key.name, b.key.name, c.key.name);
    if a.key.name == b.key.name == c.key.name {
      Text.Trichotomy(versions[a].createdAt, versions[b].createdAt);
      Text.AtMostTransitive(versions[c].createdAt, versions[b].createdAt, versions[a].createdAt);
      if versions[a].createdAt == versions[b].createdAt == versions[c].createdAt {
        Text.Transitive(a.id, b.id, c.id);
      }
    }
  }

  // ---- the newest version of a key -------------------------------------

  ghost predicate IsNewest(versions: Versions, k: Key, id: string) {
    && VersionKey(k, id) in versions
    && forall other :: VersionKey(k, other) in versions && other != id
         ==> ListedBefore(versions, VersionKey(k, id), VersionKey(k, other))
  }

  lemma NewestIsUnique(versions: Versions, k: Key, a: string, b: string)
    requires IsNewest(versions, k, a) && IsNewest(versions, k, b)
    ensures a == b
  {
    ListingIsTotal(versions, VersionKey(k, a), VersionKey(k, b));
  }

  /** A nonempty set of version rows of one bucket has one that is listed first. */
  lemma {:induction false} FirstExists(versions: Versions, rows: set<VersionKey>) returns (first: VersionKey)
    requires rows != {} && rows <= versions.Keys
    requires forall a, b :: a in rows && b in rows ==> a.key.bucket == b.key.bucket
    ensures first in rows
    ensures forall other :: other in rows && other != first ==> ListedBefore(versions, first, other)
    decreases rows
  {
    var v :| v in rows;
    if rows == {v} {
      first := v;
    } else {
      var u := FirstExists(versions, rows - {v});
      ListingIsTotal(versions, u, v);
      first := if ListedBefore(versions, u, v) then u else v;
      forall other | other in rows && other != first ensures ListedBefore(versions, first, other) {
        if first == v && other != u {
          ListingIsTransitive(versions, v, u, other);
        }
      }
    }
  }

  lemma NewestExists(versions: Versions, k: Key)
    requires exists id :: VersionKey(k, id) in versions
    ensures exists id :: IsNewest(versions, k, id)
  {
    var rows := set v | v in versions && v.key == k;
    var id :| VersionKey(k, id) in versions;
    assert VersionKey(k, id) in rows;
    var first := FirstExists(versions, rows);
    assert first == VersionKey(k, first.id);
    assert IsNewest(versions, k, first.id);
  }

  ghost function Newest(versions: Versions, k: Key): (r: Option<string>)
    ensures r.None? <==> forall id :: VersionKey(k, id) !in versions
    ensures r.Some? ==> IsNewest(versions, k, r.value)
  {
    if exists id :: VersionKey(k, id) in versions then
      NewestExists(versions, k);
      var id :| IsNewest(versions, k, id);
      Some(id)
    else None
  }

  /** Naming the newest version by its defining property. */
  lemma NewestIs(versions: Versions, k: Key, id: string)
    requires IsNewest(versions, k, id)
    ensures Newest(versions, k) == Some(id)
  {
    NewestIsUnique(versions, k, id, Newest(versions, k).value);
  }

  /** A row newer than every other of its key is the newest. */
  lemma InsertedIsNewest(versions: Versions, k: Key, id: string, row: VersionRow)
    requires VersionKey(k, id) !in versions
    requires forall other :: VersionKey(k, other) in versions
               ==> Text.Less(versions[VersionKey(k, other)].createdAt, row.createdAt)
    ensures Newest(versions[VersionKey(k, id) := row], k) == Some(id)
  {
    var after := versions[VersionKey(k, id) := row];
    forall other | VersionKey(k, other) in after && other != id
      ensures ListedBefore(after, VersionKey(k, id), VersionKey(k, other))
    {
      Text.Trichotomy(row.createdAt, row.createdAt);
    }
    NewestIs(after, k, id);
  }

  /** Which version is newest depends on nothing but the ids and creation times of the key. */
  lemma NewestFrame(before: Versions, after: Versions, k: Key)
    requires forall id :: VersionKey(k, id) in before <==> VersionKey(k, id) in after
    requires forall id :: (VersionKey(k, id) in before
        ==> before[VersionKey(k, id)].createdAt == after[VersionKey(k, id)].createdAt)
    ensures Newest(before, k) == Newest(after, k)
  {
    if Newest(before, k).Some? {
      var id := Newest(before, k).value;
      assert IsNewest(after, k, id);
      NewestIs(after, k, id);
    }
  }

  /** Removing a version that is not the newest leaves the newest. */
  lemma NewestAfterDrop(versions: Versions, k: Key, id: string)
    requires Newest(versions, k).Some? && Newest(versions, k).value != id
    ensures Newest(versions - {VersionKey(k, id)}, k) == Newest(versions, k)
  {
    var newest := Newest(versions, k).value;
    assert IsNewest(versions - {VersionKey(k, id)}, k, newest);
    NewestIs(versions - {VersionKey(k, id)}, k, newest);
  }

  /** An older row does not take the place of the newest. */
  lemma OlderStaysNewest(versions: Versions, k: Key, id: string, added: string, row: VersionRow)
    requires Newest(versions, k) == Some(id) && VersionKey(k, added) !in versions
    requires Text.Less(row.createdAt, versions[VersionKey(k, id)].createdAt)
    ensures Newest(versions[VersionKey(k, added) := row], k) == Some(id)
  {
    var after := versions[VersionKey(k, added) := row];
    Text.Trichotomy(row.createdAt, row.createdAt);
    forall other | VersionKey(k, other) in after && other != id
      ensures ListedBefore(after, VersionKey(k, id), VersionKey(k, other))
    {
      if other != added {
        assert ListedBefore(versions, VersionKey(k, id), VersionKey(k, other));
      }
    }
    NewestIs(after, k, id);
  }

  lemma NewerThanNewest(versions: Versions, k: Key, id: string, created: string)
    requires Newest(versions, k) == Some(id) && Text.Less(versions[VersionKey(k, id)].createdAt, created)
    ensures forall other :: (VersionKey(k, other) in versions
        ==> Text.Less(versions[VersionKey(k, other)].createdAt, created))
  {
    forall other | VersionKey(k, other) in versions
      ensures Text.Less(versions[VersionKey(k, other)].createdAt, created)
    {
      if other != id {
        assert ListedBefore(versions, VersionKey(k, id), VersionKey(k, other));
        Text.AtMostTransitive(versions[VersionKey(k, other)].createdAt, versions[VersionKey(k, id)].createdAt, created);
      }
    }
  }

  // ---- prefix listing --------------------------------------------------

  predicate Matches(v: VersionKey, bucket: string, prefix: string) {
    v.key.bucket == bucket && prefix <= v.key.name
  }

  /** A listing: matching rows in order, complete up to the limit. */
  ghost predicate IsListing(versions: Versions, bucket: string, prefix: string, limit: nat, rows: seq<VersionKey>) {
    && (forall i :: 0 <= i < |rows| ==> rows[i] in versions && Matches(rows[i], bucket, prefix))
    && (forall i, j :: 0 <= i < j < |rows| ==> ListedBefore(versions, rows[i], rows[j]))
    && |rows| <= limit
    && (forall v :: v in versions && Matches(v, bucket, prefix) && v !in rows
          ==> |rows| == limit && forall i :: 0 <= i < |rows| ==> ListedBefore(versions, rows[i], v))
  }

  /** A key sorts before all its extensions, so the first row of a listing by the key's own
      name that is for the key, if any, is its newest version, whatever the limit. */
  lemma FirstRowIsNewest(versions: Versions, k: Key, limit: nat, rows: seq<VersionKey>, i: nat)
    requires limit >= 1 && IsListing(versions, k.bucket, k.name, limit, rows)
    requires i <= |rows| && forall j :: 0 <= j < i ==> rows[j].key != k
    ensures i < |rows| && rows[i].key == k ==> Newest(versions, k) == Some(rows[i].id)
    ensures i == |rows| ==> Newest(versions, k) == None
  {
    if i < |rows| && rows[i].key == k {
      forall other | VersionKey(k, other) in versions && other != rows[i].id
        ensures ListedBefore(versions, rows[i], VersionKey(k, other))
      {
        if VersionKey(k, other) in rows {
          var j :| 0 <= j < |rows| && rows[j] == VersionKey(k, other);
          assert i < j;
        }
      }
      assert rows[i] == VersionKey(k, rows[i].id);
      NewestIs(versions, k, rows[i].id);
    }
    if i == |rows| && Newest(versions, k).Some? {
      var v := VersionKey(k, Newest(versions, k).value);
      assert v !in rows;
      assert ListedBefore(versions, rows[0], v);
      assert rows[0].key.name != k.name;
      Text.PrefixFirst(k.name, rows[0].key.name);
      Text.Trichotomy(k.name, rows[0].key.name);
      assert false;
    }
  }
}
