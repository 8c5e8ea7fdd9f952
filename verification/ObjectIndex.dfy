/** The index tables: current objects, their attributes and all versions, what each request does
    to them, and that in a versioned bucket the current object is always the newest version. */
module ObjectIndex {
  import opened Common
  import opened Timestamps
  import opened VersionOrder
  import Text

  datatype Index = Index(objects: map<Key, ObjectRow>, attributes: map<Key, Attributes>, versions: Versions)

  // ---- single statements -----------------------------------------------

  /** An upsert keeps the creation time of an existing row. */
  function PutRow(ix: Index, k: Key, content: Content, status: string, createdAt: string): Index {
    var created := if k in ix.objects then ix.objects[k].createdAt else createdAt;
    ix.(objects := ix.objects[k := ObjectRow(content, status, created)])
  }

  function PutAttributes(ix: Index, k: Key, a: Attributes): Index {
    ix.(attributes := ix.attributes[k := a])
  }

  /** An insert that does nothing on a conflict. */
  function InsertVersion(ix: Index, v: VersionKey, row: VersionRow): Index {
    if v in ix.versions then ix else ix.(versions := ix.versions[v := row])
  }

  /** Deleting the index row cascades to its attributes. */
  function DropObject(ix: Index, k: Key): Index {
    ix.(objects := ix.objects - {k}, attributes := ix.attributes - {k})
  }

  function DropVersion(ix: Index, v: VersionKey): Index {
    ix.(versions := ix.versions - {v})
  }

  // ---- records ---------------------------------------------------------

  const NO_PROTECTION := Protection("", None, false)

  /** The attributes of the current object of a key; a missing row reads as empty. */
  function Hydrated(ix: Index, k: Key): Attributes {
    if k in ix.attributes then ix.attributes[k] else Attributes(map[], map[], "", NO_PROTECTION)
  }

  function CurrentId(ix: Index, k: Key): string {
    Hydrated(ix, k).versionId
  }

  /** The version row that the current object becomes; one from before versioning gets id "null". */
  function ArchivedKey(ix: Index, k: Key): VersionKey {
    VersionKey(k, if CurrentId(ix, k) == "" then "null" else CurrentId(ix, k))
  }

  function ArchivedRow(ix: Index, k: Key): VersionRow
    requires k in ix.objects
  {
    var a := Hydrated(ix, k);
    VersionRow(ix.objects[k].content, a.metadata, a.tags, a.protection, false, ix.objects[k].createdAt)
  }

  function Archive(ix: Index, k: Key): Index {
    if k in ix.objects then InsertVersion(ix, ArchivedKey(ix, k), ArchivedRow(ix, k)) else ix
  }

  function MarkerRow(createdAt: string): VersionRow {
    VersionRow(Content(Location("", "", ""), 0, "", "", ""), map[], map[], NO_PROTECTION, true, createdAt)
  }

  // ---- requests --------------------------------------------------------

  /** The object a put stores; `versionId` is the drawn id, used in versioned buckets only. */
  datatype NewObject = NewObject(
    content: Content, metadata: map<string, string>, tags: map<string, string>, protection: Protection,
    versionId: string, createdAt: string, status: string)

  predicate Persistent(a: Attributes) {
    a.metadata != map[] || a.tags != map[] || a.versionId != "" || a.protection != NO_PROTECTION
  }

  function NewAttributes(o: NewObject, versioning: bool): Attributes {
    Attributes(o.metadata, o.tags, if versioning then o.versionId else "", o.protection)
  }

  function NewVersion(o: NewObject): VersionRow {
    VersionRow(o.content, o.metadata, o.tags, o.protection, false, o.createdAt)
  }

  function PutObject(ix: Index, k: Key, versioning: bool, o: NewObject): Index {
    var archived := if versioning then Archive(ix, k) else ix;
    var placed := PutRow(archived, k, o.content, o.status, o.createdAt);
    var a := NewAttributes(o, versioning);
    var described := if k in ix.objects || Persistent(a) then PutAttributes(placed, k, a) else placed;
    if versioning then InsertVersion(described, VersionKey(k, o.versionId), NewVersion(o)) else described
  }

  /** A version becomes the current object again. */
  function RestoreVersion(ix: Index, v: VersionKey, status: string): Index
    requires v in ix.versions
  {
    var row := ix.versions[v];
    PutAttributes(PutRow(ix, v.key, row.content, status, row.createdAt), v.key,
                  Attributes(row.metadata, row.tags, v.id, row.protection))
  }

  /** The version that restoring the latest would bring back, unless it is a delete marker. */
  ghost function Restorable(ix: Index, k: Key): (r: Option<string>)
    ensures r.Some? ==> VersionKey(k, r.value) in ix.versions
  {
    var newest := Newest(ix.versions, k);
    if newest.Some? && !ix.versions[VersionKey(k, newest.value)].isMarker then newest else None
  }

  ghost function RestoreLatest(ix: Index, k: Key, status: Content -> string): Index {
    var id := Restorable(ix, k);
    if id.None? then ix
    else RestoreVersion(ix, VersionKey(k, id.value), status(ix.versions[VersionKey(k, id.value)].content))
  }

  /** The index once a version row is gone: its key shows the newest that is left, if it showed
      the version or a delete marker was removed. */
  function WithoutVersion(ix: Index, v: VersionKey): Index
    requires v in ix.versions
  {
    var dropped := DropVersion(ix, v);
    if !ix.versions[v].isMarker && v.key in ix.objects && CurrentId(ix, v.key) == v.id then DropObject(dropped, v.key)
    else dropped
  }

  predicate Restores(ix: Index, v: VersionKey)
    requires v in ix.versions
  {
    ix.versions[v].isMarker || (v.key in ix.objects && CurrentId(ix, v.key) == v.id)
  }

  ghost function DeleteVersion(ix: Index, v: VersionKey, status: Content -> string): Index
    requires v in ix.versions
  {
    var left := WithoutVersion(ix, v);
    if Restores(ix, v) then RestoreLatest(left, v.key, status) else left
  }

  function PutMarker(ix: Index, k: Key, markerId: string, createdAt: string): Index {
    DropObject(InsertVersion(Archive(ix, k), VersionKey(k, markerId), MarkerRow(createdAt)), k)
  }

  // ---- retention and legal hold ----------------------------------------

  predicate RetainedAt(p: Protection, now: Instant) {
    p.retainUntil.Some? && Nanos(p.retainUntil.value) > Nanos(now)
  }

  predicate Locked(p: Protection, bypass: bool, now: Instant) {
    p.hold || (RetainedAt(p, now) && (p.mode == "COMPLIANCE" || !bypass))
  }

  predicate Exists(ix: Index, k: Key, id: string) {
    if id == "" then k in ix.objects else VersionKey(k, id) in ix.versions
  }

  /** The attributes of a version, or of the current object for id "". */
  function Protected(ix: Index, k: Key, id: string): Attributes
    requires Exists(ix, k, id)
  {
    if id == "" then Hydrated(ix, k)
    else
      var row := ix.versions[VersionKey(k, id)];
      Attributes(row.metadata, row.tags, id, row.protection)
  }

  predicate MovesEarlier(existing: Protection, wanted: Protection) {
    existing.retainUntil.Some?
    && (wanted.retainUntil.None? || Nanos(wanted.retainUntil.value) < Nanos(existing.retainUntil.value))
  }

  /** Unexpired retention may not be shortened, except governance with the bypass flag. */
  predicate Shortens(existing: Protection, wanted: Protection, bypass: bool, now: Instant) {
    RetainedAt(existing, now) && MovesEarlier(existing, wanted)
    && (existing.mode == "COMPLIANCE" || (existing.mode == "GOVERNANCE" && !bypass))
  }

  function ProtectVersion(ix: Index, v: VersionKey, wanted: Attributes): Index
    requires v in ix.versions
  {
    ix.(versions := ix.versions[v := ix.versions[v].(metadata := wanted.metadata, tags := wanted.tags,
                                                     protection := wanted.protection)])
  }

  predicate UpdateAllowed(ix: Index, k: Key, id: string, wanted: Protection, bypass: bool, now: Instant) {
    Exists(ix, k, id)
    && !Shortens(Protected(ix, k, id).protection, wanted, bypass, now)
    && (Protected(ix, k, id).versionId != "" ==> VersionKey(k, Protected(ix, k, id).versionId) in ix.versions)
  }

  function UpdateProtection(ix: Index, k: Key, id: string, wanted: Protection, bypass: bool, now: Instant): Index {
    if !UpdateAllowed(ix, k, id, wanted, bypass, now) then ix else
      var a := Protected(ix, k, id).(protection := wanted);
      var versioned := if a.versionId == "" then ix else ProtectVersion(ix, VersionKey(k, a.versionId), a);
      if k in ix.objects && CurrentId(ix, k) == a.versionId then PutAttributes(versioned, k, a) else versioned
  }

  predicate RetentionAllowed(mode: string, until: Instant, now: Instant) {
    (mode == "GOVERNANCE" || mode == "COMPLIANCE") && Nanos(until) > Nanos(now)
  }

  /** The protection a retention request asks for. */
  function WithRetention(p: Protection, mode: string, until: Instant): Protection {
    p.(mode := mode, retainUntil := Some(until))
  }

  function PutRetention(ix: Index, k: Key, id: string, mode: string, until: Instant, bypass: bool,
                        now: Instant): Index {
    if !RetentionAllowed(mode, until, now) || !Exists(ix, k, id) then ix else
      var read := Protected(ix, k, id);
      UpdateProtection(ix, k, read.versionId, WithRetention(read.protection, mode, until), bypass, now)
  }

  function PutLegalHold(ix: Index, k: Key, id: string, on: bool, now: Instant): Index {
    if !Exists(ix, k, id) then ix else
      var read := Protected(ix, k, id);
      UpdateProtection(ix, k, read.versionId, read.protection.(hold := on), false, now)
  }

  // ---- the current object is the newest version ------------------------

  /** The index row and attributes of the key are those of its newest version; there is none
      when that is a delete marker; with no version left there is at most an object from
      before versioning. */
  ghost predicate CurrentIsNewest(ix: Index, k: Key) {
    match Newest(ix.versions, k)
    case None => k in ix.objects ==> CurrentId(ix, k) == ""
    case Some(id) =>
      var row := ix.versions[VersionKey(k, id)];
      if row.isMarker then k !in ix.objects
      else
        && k in ix.objects && ix.objects[k].content == row.content
        && k in ix.attributes && ix.attributes[k] == Attributes(row.metadata, row.tags, id, row.protection)
  }

  /** The current object of the key is one of its versions; only an object from before versioning
      is not, and its key has no versions. Whether it is the newest is left open. */
  ghost predicate CurrentIsVersion(ix: Index, k: Key) {
    k in ix.objects ==>
      if CurrentId(ix, k) == "" then NoVersions(ix, k)
      else
        && ArchivedKey(ix, k) in ix.versions
        && var row := ix.versions[ArchivedKey(ix, k)];
           && !row.isMarker && ix.objects[k].content == row.content
           && Hydrated(ix, k) == Attributes(row.metadata, row.tags, CurrentId(ix, k), row.protection)
  }

  /** No version rows for the key: what a bucket without versioning keeps. */
  ghost predicate NoVersions(ix: Index, k: Key) {
    forall v :: v in ix.versions ==> v.key != k
  }

  lemma NewestIsVersion(ix: Index, k: Key)
    requires CurrentIsNewest(ix, k) && VersionKey(k, "") !in ix.versions
    ensures CurrentIsVersion(ix, k)
  {
    forall v | v in ix.versions && v.key == k ensures Newest(ix.versions, k).Some? {
      assert v == VersionKey(k, v.id);
    }
  }

  /** The clock's text is past every creation text of the key. */
  ghost predicate Later(ix: Index, k: Key, now: string) {
    && (forall id :: VersionKey(k, id) in ix.versions ==> Text.Less(ix.versions[VersionKey(k, id)].createdAt, now))
    && (k in ix.objects && CurrentId(ix, k) == "" ==> Text.Less(ix.objects[k].createdAt, now))
  }

  /** A drawn version id is new, and is neither empty nor the id of archived objects. */
  predicate FreshId(ix: Index, k: Key, id: string) {
    id != "" && id != "null" && VersionKey(k, id) !in ix.versions
  }

  // ---- frames ----------------------------------------------------------

  predicate SameObject(before: Index, after: Index, k: Key) {
    && (k in before.objects <==> k in after.objects)
    && (k in before.objects ==> before.objects[k].content == after.objects[k].content)
    && Hydrated(before, k) == Hydrated(after, k)
    && (k in before.attributes <==> k in after.attributes)
  }

  predicate SameVersion(before: Index, after: Index, v: VersionKey) {
    && (v in before.versions <==> v in after.versions)
    && (v in before.versions ==> before.versions[v] == after.versions[v])
  }

  /** Nothing but the given key changed. */
  ghost predicate OnlyKey(before: Index, after: Index, k: Key) {
    && (forall j :: j != k ==> SameObject(before, after, j))
    && (forall v: VersionKey :: v.key != k ==> SameVersion(before, after, v))
  }

  lemma OnlyKeyTransitive(a: Index, b: Index, c: Index, k: Key)
    requires OnlyKey(a, b, k) && OnlyKey(b, c, k)
    ensures OnlyKey(a, c, k)
  {
    forall j | j != k ensures SameObject(a, c, j) {
      assert SameObject(a, b, j) && SameObject(b, c, j);
    }
    forall v: VersionKey | v.key != k ensures SameVersion(a, c, v) {
      assert SameVersion(a, b, v) && SameVersion(b, c, v);
    }
  }

  /** Another key stays as consistent as it was. */
  lemma OtherKeyKeeps(before: Index, after: Index, k: Key, other: Key)
    requires OnlyKey(before, after, k) && other != k && CurrentIsNewest(before, other)
    ensures CurrentIsNewest(after, other)
  {
    assert SameObject(before, after, other);
    forall id
      ensures VersionKey(other, id) in before.versions <==> VersionKey(other, id) in after.versions
      ensures VersionKey(other, id) in before.versions
          ==> before.versions[VersionKey(other, id)] == after.versions[VersionKey(other, id)]
    {
      assert SameVersion(before, after, VersionKey(other, id));
    }
    NewestFrame(before.versions, after.versions, other);
  }

  // ---- put -------------------------------------------------------------

  /** Archiving the current object adds at most an older version. */
  lemma ArchiveIsOld(ix: Index, k: Key, now: string)
    requires CurrentIsNewest(ix, k) && Later(ix, k, now)
    ensures forall id :: VersionKey(k, id) in Archive(ix, k).versions
              ==> Text.Less(Archive(ix, k).versions[VersionKey(k, id)].createdAt, now)
                  && (VersionKey(k, id) in ix.versions || id == "null")
  {}

  lemma PutTables(ix: Index, k: Key, o: NewObject)
    requires VersionKey(k, o.versionId) !in Archive(ix, k).versions && o.versionId != ""
    ensures var after := PutObject(ix, k, true, o);
            && after.versions == Archive(ix, k).versions[VersionKey(k, o.versionId) := NewVersion(o)]
            && after.attributes == ix.attributes[k := NewAttributes(o, true)]
            && k in after.objects && after.objects[k].content == o.content
  {}

  lemma ArchiveIsLocal(ix: Index, k: Key)
    ensures OnlyKey(ix, Archive(ix, k), k)
  {}

  lemma PlainPutIsLocal(ix: Index, k: Key, o: NewObject)
    ensures OnlyKey(ix, PutObject(ix, k, false, o), k)
    ensures PutObject(ix, k, false, o).versions == ix.versions
  {}

  lemma VersionedPutIsLocal(ix: Index, k: Key, o: NewObject)
    ensures OnlyKey(Archive(ix, k), PutObject(ix, k, true, o), k)
  {
    var archived, a := Archive(ix, k), NewAttributes(o, true);
    var placed := PutRow(archived, k, o.content, o.status, o.createdAt);
    var described := if k in ix.objects || Persistent(a) then PutAttributes(placed, k, a) else placed;
    RowsAreLocal(archived, placed, k);
    RowsAreLocal(placed, described, k);
    OnlyKeyTransitive(archived, placed, described, k);
    InsertIsLocal(described, k, o.versionId, NewVersion(o));
    OnlyKeyTransitive(archived, described, PutObject(ix, k, true, o), k);
  }

  lemma RowsAreLocal(before: Index, after: Index, k: Key)
    requires after.versions == before.versions
    requires after.objects - {k} == before.objects - {k} && after.attributes - {k} == before.attributes - {k}
    ensures OnlyKey(before, after, k)
  {
    forall j | j != k ensures SameObject(before, after, j) {
      assert j in before.objects <==> j in before.objects - {k};
      assert j in after.objects <==> j in after.objects - {k};
      assert j in before.attributes <==> j in before.attributes - {k};
      assert j in after.attributes <==> j in after.attributes - {k};
    }
  }

  lemma InsertIsLocal(ix: Index, k: Key, id: string, row: VersionRow)
    ensures OnlyKey(ix, InsertVersion(ix, VersionKey(k, id), row), k)
  {}

  lemma PutIsLocal(ix: Index, k: Key, versioning: bool, o: NewObject)
    ensures OnlyKey(ix, PutObject(ix, k, versioning, o), k)
    ensures !versioning ==> PutObject(ix, k, versioning, o).versions == ix.versions
  {
    if versioning {
      ArchiveIsLocal(ix, k);
      VersionedPutIsLocal(ix, k, o);
      OnlyKeyTransitive(ix, Archive(ix, k), PutObject(ix, k, true, o), k);
    } else {
      PlainPutIsLocal(ix, k, o);
    }
  }

  lemma PutKeeps(ix: Index, k: Key, o: NewObject)
    requires CurrentIsNewest(ix, k) && Later(ix, k, o.createdAt) && FreshId(ix, k, o.versionId)
    ensures CurrentIsNewest(PutObject(ix, k, true, o), k)
    ensures forall id :: VersionKey(k, id) in PutObject(ix, k, true, o).versions
              ==> VersionKey(k, id) in ix.versions || id == "null" || id == o.versionId
  {
    ArchiveIsOld(ix, k, o.createdAt);
    PutTables(ix, k, o);
    InsertedIsNewest(Archive(ix, k).versions, k, o.versionId, NewVersion(o));
  }

  lemma PutKeepsByText(ix: Index, k: Key, o: NewObject, id: string)
    requires CurrentIsNewest(ix, k) && FreshId(ix, k, o.versionId)
    requires id != "" && Newest(Archive(ix, k).versions, k) == Some(id)
    ensures var last := Archive(ix, k).versions[VersionKey(k, id)].createdAt;
            && (Text.Less(last, o.createdAt) ==> CurrentIsNewest(PutObject(ix, k, true, o), k))
            && (Text.Less(o.createdAt, last) ==> !CurrentIsNewest(PutObject(ix, k, true, o), k))
  {
    var versions := Archive(ix, k).versions;
    var last := versions[VersionKey(k, id)].createdAt;
    PutTables(ix, k, o);
    Text.Trichotomy(o.createdAt, last);
    if Text.Less(o.createdAt, last) {
      OlderStaysNewest(versions, k, id, o.versionId, NewVersion(o));
    } else if Text.Less(last, o.createdAt) {
      NewerThanNewest(versions, k, id, o.createdAt);
      InsertedIsNewest(versions, k, o.versionId, NewVersion(o));
    }
  }

  /** With a clock that only moves forward, a put keeps the current object newest exactly when the
      new creation text does not clash with that of the newest version so far, which is the
      archived object itself when the key is from before versioning. */
  lemma PutKeepsNewestExactly(ix: Index, k: Key, o: NewObject, id: string, created: Instant, now: Instant)
    requires CurrentIsNewest(ix, k) && FreshId(ix, k, o.versionId)
    requires id != "" && Newest(Archive(ix, k).versions, k) == Some(id)
    requires Archive(ix, k).versions[VersionKey(k, id)].createdAt == Format(created) && o.createdAt == Format(now)
    requires Nanos(created) < Nanos(now)
    ensures CurrentIsNewest(PutObject(ix, k, true, o), k) <==> !FractionClash(created, now)
  {
    PutKeepsByText(ix, k, o, id);
    LaterTextExactly(created, now);
  }

  lemma LaterTextExactly(created: Instant, now: Instant)
    requires Nanos(created) < Nanos(now)
    ensures Text.Less(Format(created), Format(now)) <==> !FractionClash(created, now)
    ensures Text.Less(Format(now), Format(created)) <==> FractionClash(created, now)
  {
    TextOrderIsClockOrder(created, now);
    Text.Trichotomy(Format(created), Format(now));
    if Format(created) == Format(now) {
      FormatInjective(created, now);
    }
  }

  /** The current object of a consistent key is, once archived, its newest version. */
  lemma ShownIsNewest(ix: Index, k: Key)
    requires CurrentIsNewest(ix, k) && k in ix.objects && VersionKey(k, "") !in ix.versions
    ensures var v := ArchivedKey(ix, k);
            && v in Archive(ix, k).versions && Newest(Archive(ix, k).versions, k) == Some(v.id)
            && !Archive(ix, k).versions[v].isMarker
  {
    if Newest(ix.versions, k).None? {
      InsertedIsNewest(ix.versions, k, "null", ArchivedRow(ix, k));
    }
  }

  // ---- delete ----------------------------------------------------------

  lemma MarkerIsLocal(ix: Index, k: Key, markerId: string, createdAt: string)
    ensures OnlyKey(ix, PutMarker(ix, k, markerId, createdAt), k)
  {
    var archived := Archive(ix, k);
    var marked := InsertVersion(archived, VersionKey(k, markerId), MarkerRow(createdAt));
    ArchiveIsLocal(ix, k);
    InsertIsLocal(archived, k, markerId, MarkerRow(createdAt));
    OnlyKeyTransitive(ix, archived, marked, k);
    DropIsLocal(marked, k);
    OnlyKeyTransitive(ix, marked, PutMarker(ix, k, markerId, createdAt), k);
  }

  lemma MarkerKeeps(ix: Index, k: Key, markerId: string, createdAt: string)
    requires CurrentIsNewest(ix, k) && Later(ix, k, createdAt) && FreshId(ix, k, markerId)
    ensures CurrentIsNewest(PutMarker(ix, k, markerId, createdAt), k)
    ensures OnlyKey(ix, PutMarker(ix, k, markerId, createdAt), k)
    ensures forall id :: VersionKey(k, id) in PutMarker(ix, k, markerId, createdAt).versions
              ==> VersionKey(k, id) in ix.versions || id == "null" || id == markerId
  {
    MarkerIsLocal(ix, k, markerId, createdAt);
    ArchiveIsOld(ix, k, createdAt);
    InsertedIsNewest(Archive(ix, k).versions, k, markerId, MarkerRow(createdAt));
  }

  lemma MarkerKeepsByText(ix: Index, k: Key, markerId: string, createdAt: string)
    requires CurrentIsNewest(ix, k) && k in ix.objects && VersionKey(k, "") !in ix.versions && FreshId(ix, k, markerId)
    ensures ArchivedKey(ix, k) in Archive(ix, k).versions
    ensures var last := Archive(ix, k).versions[ArchivedKey(ix, k)].createdAt;
            && (Text.Less(last, createdAt) ==> CurrentIsNewest(PutMarker(ix, k, markerId, createdAt), k))
            && (Text.Less(createdAt, last) ==> !CurrentIsNewest(PutMarker(ix, k, markerId, createdAt), k))
  {
    var versions, id := Archive(ix, k).versions, ArchivedKey(ix, k).id;
    ShownIsNewest(ix, k);
    var last := versions[VersionKey(k, id)].createdAt;
    Text.Trichotomy(createdAt, last);
    if Text.Less(createdAt, last) {
      OlderStaysNewest(versions, k, id, markerId, MarkerRow(createdAt));
    } else if Text.Less(last, createdAt) {
      NewerThanNewest(versions, k, id, createdAt);
      InsertedIsNewest(versions, k, markerId, MarkerRow(createdAt));
    }
  }

  /** So does a delete marker: it hides the key as its newest version exactly when its time does
      not clash with that of the version shown. */
  lemma MarkerKeepsNewestExactly(ix: Index, k: Key, markerId: string, created: Instant, now: Instant)
    requires CurrentIsNewest(ix, k) && k in ix.objects && VersionKey(k, "") !in ix.versions && FreshId(ix, k, markerId)
    requires ArchivedKey(ix, k) in Archive(ix, k).versions
    requires Archive(ix, k).versions[ArchivedKey(ix, k)].createdAt == Format(created) && Nanos(created) < Nanos(now)
    ensures CurrentIsNewest(PutMarker(ix, k, markerId, Format(now)), k) <==> !FractionClash(created, now)
  {
    MarkerKeepsByText(ix, k, markerId, Format(now));
    LaterTextExactly(created, now);
  }

  /** An object from before versioning has exactly one version once archived: its own row under
      the id "null", to which the two exact conditions then refer. */
  lemma ArchivedFromBefore(ix: Index, k: Key)
    requires CurrentIsNewest(ix, k) && k in ix.objects && CurrentId(ix, k) == "" && VersionKey(k, "") !in ix.versions
    ensures Newest(Archive(ix, k).versions, k) == Some("null")
    ensures var row, a := Archive(ix, k).versions[VersionKey(k, "null")], Hydrated(ix, k);
            && row.createdAt == ix.objects[k].createdAt && row.content == ix.objects[k].content && !row.isMarker
            && row.metadata == a.metadata && row.tags == a.tags && row.protection == a.protection
    ensures forall id :: VersionKey(k, id) in Archive(ix, k).versions <==> id == "null"
  {
    ShownIsNewest(ix, k);
  }

  lemma DropIsLocal(ix: Index, k: Key)
    ensures OnlyKey(ix, DropObject(ix, k), k)
    ensures forall id :: OnlyKey(ix, DropVersion(ix, VersionKey(k, id)), k)
  {}

  lemma RestoreIsLocal(ix: Index, k: Key, status: Content -> string)
    ensures RestoreLatest(ix, k, status).versions == ix.versions
    ensures OnlyKey(ix, RestoreLatest(ix, k, status), k)
  {}

  /** Restoring the latest version makes the key consistent, when no object stands against it. */
  lemma RestoreKeeps(ix: Index, k: Key, status: Content -> string)
    requires CurrentIsNewest(ix, k) || k !in ix.objects
    ensures CurrentIsNewest(RestoreLatest(ix, k, status), k)
  {}

  lemma WithoutVersionIsLocal(ix: Index, v: VersionKey)
    requires v in ix.versions
    ensures WithoutVersion(ix, v).versions == ix.versions - {v}
    ensures OnlyKey(ix, WithoutVersion(ix, v), v.key)
  {
    DropIsLocal(ix, v.key);
    DropIsLocal(DropVersion(ix, v), v.key);
    OnlyKeyTransitive(ix, DropVersion(ix, v), DropObject(DropVersion(ix, v), v.key), v.key);
  }

  lemma DeleteVersionIsLocal(ix: Index, v: VersionKey, status: Content -> string)
    requires v in ix.versions
    ensures DeleteVersion(ix, v, status).versions == ix.versions - {v}
    ensures OnlyKey(ix, DeleteVersion(ix, v, status), v.key)
  {
    WithoutVersionIsLocal(ix, v);
    RestoreIsLocal(WithoutVersion(ix, v), v.key, status);
    if Restores(ix, v) {
      OnlyKeyTransitive(ix, WithoutVersion(ix, v), DeleteVersion(ix, v, status), v.key);
    }
  }

  /** Dropping a version the key does not show keeps the key consistent. */
  lemma DropOtherVersion(ix: Index, k: Key, id: string)
    requires CurrentIsNewest(ix, k) && Newest(ix.versions, k) != None && Newest(ix.versions, k) != Some(id)
    ensures CurrentIsNewest(DropVersion(ix, VersionKey(k, id)), k)
  {
    NewestAfterDrop(ix.versions, k, id);
  }

  lemma DeleteVersionKeeps(ix: Index, v: VersionKey, status: Content -> string)
    requires CurrentIsNewest(ix, v.key) && v in ix.versions
    ensures CurrentIsNewest(DeleteVersion(ix, v, status), v.key)
  {
    assert v == VersionKey(v.key, v.id);
    if Newest(ix.versions, v.key) != Some(v.id) {
      DropOtherVersion(ix, v.key, v.id);
    }
    if Restores(ix, v) {
      RestoreKeeps(WithoutVersion(ix, v), v.key, status);
    }
  }

  // ---- retention and hold ----------------------------------------------

  lemma UpdateIsLocal(ix: Index, k: Key, id: string, wanted: Protection, bypass: bool, now: Instant)
    ensures var after := UpdateProtection(ix, k, id, wanted, bypass, now);
            && OnlyKey(ix, after, k) && after.objects == ix.objects && after.versions.Keys == ix.versions.Keys
            && forall v :: v in ix.versions ==> after.versions[v].createdAt == ix.versions[v].createdAt
  {}

  lemma UpdateKeepsBytes(ix: Index, k: Key, id: string, wanted: Protection, bypass: bool, now: Instant)
    ensures var after := UpdateProtection(ix, k, id, wanted, bypass, now);
            && CurrentId(after, k) == CurrentId(ix, k)
            && ix.versions.Keys <= after.versions.Keys
            && (forall v :: v in ix.versions ==> after.versions[v].content == ix.versions[v].content)
            && (forall v :: v in ix.versions ==> after.versions[v].isMarker == ix.versions[v].isMarker)
  {}

  lemma UpdateKeeps(ix: Index, k: Key, id: string, wanted: Protection, bypass: bool, now: Instant)
    requires CurrentIsNewest(ix, k) && VersionKey(k, "") !in ix.versions
    ensures CurrentIsNewest(UpdateProtection(ix, k, id, wanted, bypass, now), k)
  {
    UpdateIsLocal(ix, k, id, wanted, bypass, now);
    NewestFrame(ix.versions, UpdateProtection(ix, k, id, wanted, bypass, now).versions, k);
  }
}
