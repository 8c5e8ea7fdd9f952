/** The generation guard on stored vectors: replacing them is conditional on the index row,
    an overwrite invalidates them, a delete cascades to them. */
module Generations {
  import opened Common
  import Text
  import opened Embeddings

  /** What identifies one immutable content of a key: its checksum and its index time. */
  datatype Generation = Generation(checksum: string, updatedAt: string)

  datatype Embedding = Embedding(kind: string, model: string, modelVersion: string, metric: string, dimensions: int,
                                 values: seq<Float32Bits>)

  /** The fields hashed into a row id, so equal identities are equal ids. */
  datatype RowId = RowId(
    key: Key, generation: Generation, plugin: string,
    kind: string, model: string, modelVersion: string, ordinal: nat)

  /** An upload between its first read of the index and its invalidation. */
  datatype Phase = Started(isNew: bool) | Indexed(isNew: bool)

  datatype Db = Db(index: map<Key, Generation>, rows: map<RowId, Embedding>, uploads: map<Key, Phase>)

  const MAXIMUM_PER_PLUGIN := 128

  predicate ValidEmbedding(e: Embedding) {
    && !Text.Blank(e.model) && !Text.Blank(e.modelVersion) && !Text.Blank(e.kind)
    && (e.metric == "cosine" || e.metric == "dot" || e.metric == "l2")
    && 0 < e.dimensions <= MAXIMUM_DIMENSIONS && e.dimensions == |e.values|
    && (e.metric == "cosine" ==> exists v :: v in e.values && !IsZero(v))
    && AllFinite(e.values)
  }

  predicate ValidBatch(key: Key, plugin: string, batch: seq<Embedding>) {
    && key.bucket != "" && key.name != "" && plugin != ""
    && |batch| <= MAXIMUM_PER_PLUGIN
    && forall e :: e in batch ==> ValidEmbedding(e)
  }

  predicate IsCurrent(db: Db, key: Key, g: Generation) {
    key in db.index && db.index[key] == g
  }

  function RowIdOf(key: Key, g: Generation, plugin: string, batch: seq<Embedding>, i: nat): RowId
    requires i < |batch|
  {
    RowId(key, g, plugin, batch[i].kind, batch[i].model, batch[i].modelVersion, i)
  }

  predicate InBatch(id: RowId, key: Key, g: Generation, plugin: string, batch: seq<Embedding>) {
    id.ordinal < |batch| && id == RowIdOf(key, g, plugin, batch, id.ordinal)
  }

  /** One row for each ordinal of the batch. */
  function BatchRows(key: Key, g: Generation, plugin: string, batch: seq<Embedding>): (rows: map<RowId, Embedding>)
    ensures forall id :: id in rows <==> InBatch(id, key, g, plugin, batch)
    ensures forall id :: id in rows ==> id.ordinal < |batch| && rows[id] == batch[id.ordinal]
  {
    if batch == [] then map[] else
      var n := |batch| - 1;
      var before := BatchRows(key, g, plugin, batch[..n]);
      before[RowIdOf(key, g, plugin, batch, n) := batch[n]]
  }

  lemma BatchGrows(key: Key, g: Generation, plugin: string, batch: seq<Embedding>, i: nat)
    requires i < |batch|
    ensures BatchRows(key, g, plugin, batch[..i + 1])
         == BatchRows(key, g, plugin, batch[..i])[RowIdOf(key, g, plugin, batch, i) := batch[i]]
  {
    assert batch[..i + 1][..i] == batch[..i];
  }

  lemma AddLast(a: map<RowId, Embedding>, b: map<RowId, Embedding>, id: RowId, e: Embedding)
    ensures (a + b)[id := e] == a + b[id := e]
  {}

  /** All rows but those that one plugin stores for one key. */
  function OthersRows(rows: map<RowId, Embedding>, key: Key, plugin: string): map<RowId, Embedding> {
    map id | id in rows && !(id.key == key && id.plugin == plugin) :: rows[id]
  }

  function WithoutKey(rows: map<RowId, Embedding>, key: Key): map<RowId, Embedding> {
    map id | id in rows && id.key != key :: rows[id]
  }

  function Replace(db: Db, key: Key, g: Generation, plugin: string, batch: seq<Embedding>): Db {
    if !ValidBatch(key, plugin, batch) || !IsCurrent(db, key, g) then db
    else db.(rows := OthersRows(db.rows, key, plugin) + BatchRows(key, g, plugin, batch))
  }

  // ---- the store -------------------------------------------------------

  class EmbeddingStore {
    var index: map<Key, Generation>
    var rows: map<RowId, Embedding>
    ghost var uploads: map<Key, Phase>

    ghost function State(): Db
      reads this
    {
      Db(index, rows, uploads)
    }

    /** Guard, delete and inserts of one transaction. */
    method ReplaceObjectEmbeddings(key: Key, g: Generation, plugin: string, batch: seq<Embedding>)
      returns (result: Result<()>)
      modifies this`rows
      ensures State() == Replace(old(State()), key, g, plugin, batch)
      ensures result == if !ValidBatch(key, plugin, batch) then Err(InvalidArgument)
                        else if !IsCurrent(old(State()), key, g) then Err(Superseded)
                        else Ok(())
    {
      if key.bucket == "" || key.name == "" || plugin == "" || |batch| > MAXIMUM_PER_PLUGIN {
        return Err(InvalidArgument);
      }
      for i := 0 to |batch|
        invariant forall j :: 0 <= j < i ==> ValidEmbedding(batch[j])
      {
        if !ValidEmbedding(batch[i]) {
          return Err(InvalidArgument);
        }
      }
      if key !in index || index[key] != g {
        return Err(Superseded);
      }
      rows := map id | id in rows && !(id.key == key && id.plugin == plugin) :: rows[id];
      InsertBatch(key, g, plugin, batch);
      return Ok(());
    }

    method InsertBatch(key: Key, g: Generation, plugin: string, batch: seq<Embedding>)
      requires forall id :: id in rows ==> !(id.key == key && id.plugin == plugin)
      modifies this`rows
      ensures rows == old(rows) + BatchRows(key, g, plugin, batch)
    {
      for ordinal := 0 to |batch|
        invariant rows == old(rows) + BatchRows(key, g, plugin, batch[..ordinal])
      {
        var e := batch[ordinal];
        var id := RowId(key, g, plugin, e.kind, e.model, e.modelVersion, ordinal);
        ghost var stored := BatchRows(key, g, plugin, batch[..ordinal]);
        assert id !in stored;
        BatchGrows(key, g, plugin, batch, ordinal);
        AddLast(old(rows), stored, id, e);
        rows := rows[id := e];
      }
      assert batch[..|batch|] == batch;
    }

    method DeleteObjectEmbeddings(key: Key)
      modifies this`rows
      ensures State() == old(State()).(rows := WithoutKey(old(rows), key))
    {
      rows := map id | id in rows && id.key != key :: rows[id];
    }
  }

  // ---- interleavings ---------------------------------------------------

  /** Uploads of one key follow one another; everything else interleaves freely. */
  datatype Step =
    | StartUpload(key: Key)
    | WriteIndex(key: Key, generation: Generation)
    | Invalidate(key: Key)
    | DeleteKey(key: Key)
    | ReplaceRows(key: Key, generation: Generation, plugin: string, batch: seq<Embedding>)

  function Apply(db: Db, step: Step): Db {
    match step
    case StartUpload(key) =>
      if key in db.uploads then db else db.(uploads := db.uploads[key := Started(key !in db.index)])
    case WriteIndex(key, g) =>
      if key !in db.uploads || db.uploads[key].Indexed? then db
      else db.(index := db.index[key := g], uploads := db.uploads[key := Indexed(db.uploads[key].isNew)])
    case Invalidate(key) =>
      if key !in db.uploads || db.uploads[key].Started? then db
      else
        var kept := if db.uploads[key].isNew then db.rows else WithoutKey(db.rows, key);
        db.(rows := kept, uploads := db.uploads - {key})
    case DeleteKey(key) =>
      db.(index := db.index - {key}, rows := WithoutKey(db.rows, key))
    case ReplaceRows(key, g, plugin, batch) => Replace(db, key, g, plugin, batch)
  }

  function Run(db: Db, steps: seq<Step>): Db
    decreases steps
  {
    if steps == [] then db else Run(Apply(db, steps[0]), steps[1..])
  }

  /** Every stored vector of the key carries the generation of its current index row. */
  ghost predicate Fresh(db: Db, key: Key) {
    forall id :: id in db.rows && id.key == key ==> key in db.index && id.generation == db.index[key]
  }

  /** Stale rows exist only inside an overwrite, between its index write and its invalidation. */
  ghost predicate Guarded(db: Db) {
    forall key :: (key in db.uploads && db.uploads[key] == Indexed(false)) || Fresh(db, key)
  }

  /** A first upload finds no row, and none can be stored before its index write. */
  ghost predicate NewIsEmpty(db: Db) {
    forall key :: key in db.uploads && db.uploads[key] == Started(true) ==> key !in db.index
  }

  lemma StepGuarded(db: Db, step: Step)
    requires Guarded(db) && NewIsEmpty(db)
    ensures Guarded(Apply(db, step)) && NewIsEmpty(Apply(db, step))
  {
    var after := Apply(db, step);
    forall key | !(key in after.uploads && after.uploads[key] == Indexed(false))
      ensures Fresh(after, key)
    {
      assert Fresh(db, key) || db.uploads[key] == Indexed(false);
      if step.Invalidate? && step.key == key {
        assert key in db.uploads && db.uploads[key] == Indexed(true) ==> Fresh(db, key);
      }
    }
  }

  /** Freshness over every interleaving of uploads, deletes and embedding writers: when no
      upload of a key is in progress, its vectors carry the current checksum and time. */
  lemma {:induction false} StoredVectorsAreFresh(db: Db, steps: seq<Step>)
    requires Guarded(db) && NewIsEmpty(db)
    ensures Guarded(Run(db, steps)) && NewIsEmpty(Run(db, steps))
    ensures forall key :: key !in Run(db, steps).uploads ==> Fresh(Run(db, steps), key)
    decreases steps
  {
    if steps != [] {
      StepGuarded(db, steps[0]);
      StoredVectorsAreFresh(Apply(db, steps[0]), steps[1..]);
    }
  }

  predicate StoredBy(db: Db, id: RowId, key: Key, plugin: string) {
    id in db.rows && id.key == key && id.plugin == plugin
  }

  /** Retrying a replacement for one generation stores the same ids and adds no duplicates:
      exactly one row for each ordinal of the batch. */
  lemma RetryIsIdempotent(db: Db, key: Key, g: Generation, plugin: string, batch: seq<Embedding>)
    requires ValidBatch(key, plugin, batch) && IsCurrent(db, key, g)
    ensures var once := Replace(db, key, g, plugin, batch);
            && Replace(once, key, g, plugin, batch) == once
            && forall id :: StoredBy(once, id, key, plugin) <==> InBatch(id, key, g, plugin, batch)
  {
    var once := Replace(db, key, g, plugin, batch);
    assert OthersRows(once.rows, key, plugin) == OthersRows(db.rows, key, plugin);
  }

  // ---- what a step leaves alone ----------------------------------------

  /** The row is there afterwards exactly if it was before, unchanged. */
  predicate Untouched(db: Db, after: Db, id: RowId) {
    (id in after.rows <==> id in db.rows) && (id in db.rows ==> after.rows[id] == db.rows[id])
  }

  /** A valid current replacement leaves every row of another key or another plugin as it was, and of its
      own exactly one per ordinal, with that ordinal's values. */
  lemma ReplaceIsExact(db: Db, key: Key, g: Generation, plugin: string, batch: seq<Embedding>, id: RowId)
    requires ValidBatch(key, plugin, batch) && IsCurrent(db, key, g)
    ensures var after := Replace(db, key, g, plugin, batch);
            && after.index == db.index
            && (id.key != key || id.plugin != plugin ==> Untouched(db, after, id))
            && (id.key == key && id.plugin == plugin ==>
                  if InBatch(id, key, g, plugin, batch) then id in after.rows && after.rows[id] == batch[id.ordinal]
                  else id !in after.rows)
  {
    assert id in BatchRows(key, g, plugin, batch) <==> InBatch(id, key, g, plugin, batch);
  }

  /** A replacement that is invalid, or late, leaves everything as it was. */
  lemma LateReplaceChangesNothing(db: Db, key: Key, g: Generation, plugin: string, batch: seq<Embedding>)
    requires key in db.index ==> db.index[key].checksum != g.checksum || db.index[key].updatedAt != g.updatedAt
    ensures Replace(db, key, g, plugin, batch) == db
  {}

  /** Why one embedding is refused: it names no model, version or kind, its metric is none of the three,
      its dimensions are not those of its values or out of range, a value is not finite, or all are zero
      under the metric that divides by the norm. */
  predicate Refusable(e: Embedding) {
    || Text.Blank(e.model) || Text.Blank(e.modelVersion) || Text.Blank(e.kind)
    || (e.metric != "cosine" && e.metric != "dot" && e.metric != "l2")
    || e.dimensions != |e.values| || e.values == [] || |e.values| > 4096 || !AllFinite(e.values)
    || (e.metric == "cosine" && forall i :: 0 <= i < |e.values| ==> IsZero(e.values[i]))
  }

  /** A batch is refused exactly without a key or plugin, above the limit, or for one such embedding. */
  lemma RefusedExactly(key: Key, plugin: string, batch: seq<Embedding>)
    ensures !ValidBatch(key, plugin, batch)
       <==> || key.bucket == "" || key.name == "" || plugin == "" || |batch| > 128
            || exists i :: 0 <= i < |batch| && Refusable(batch[i])
  {
    forall e ensures ValidEmbedding(e) <==> !Refusable(e) {
      if e.metric == "cosine" && exists v :: v in e.values && !IsZero(v) {
        var v :| v in e.values && !IsZero(v);
        var i :| 0 <= i < |e.values| && e.values[i] == v;
      }
    }
    forall i | 0 <= i < |batch| ensures batch[i] in batch {}
  }

  /** Removing a key's vectors, by its own request, by a delete or by the overwrite's invalidation, takes
      all of them and no other key's. */
  lemma RemovalIsExact(db: Db, key: Key, id: RowId)
    ensures var removed := db.(rows := WithoutKey(db.rows, key));
            if id.key == key then id !in removed.rows else Untouched(db, removed, id)
    ensures var deleted := Apply(db, DeleteKey(key));
            && key !in deleted.index && deleted.index == db.index - {key}
            && if id.key == key then id !in deleted.rows else Untouched(db, deleted, id)
    ensures key in db.uploads && db.uploads[key] == Indexed(false) ==>
              (var after := Apply(db, Invalidate(key));
               && after.index == db.index && key !in after.uploads
               && if id.key == key then id !in after.rows else Untouched(db, after, id))
  {}

  /** A whole upload of a key: afterwards its row carries the new generation, an overwrite has left no
      vector of it, and other keys have theirs. */
  lemma UploadIsExact(db: Db, key: Key, g: Generation, id: RowId)
    requires key !in db.uploads
    ensures var after := Run(db, [StartUpload(key), WriteIndex(key, g), Invalidate(key)]);
            && IsCurrent(after, key, g) && after.index - {key} == db.index - {key} && after.uploads == db.uploads
            && (id.key != key ==> Untouched(db, after, id))
            && (id.key == key && key in db.index ==> id !in after.rows)
  {
    var steps := [StartUpload(key), WriteIndex(key, g), Invalidate(key)];
    var a := Apply(db, steps[0]);
    var b := Apply(a, steps[1]);
    var c := Apply(b, steps[2]);
    assert steps[1..] == [steps[1], steps[2]] && steps[1..][1..] == [steps[2]] && [steps[2]][1..] == [];
    assert Run(db, steps) == Run(a, steps[1..]) == Run(b, [steps[2]]) == Run(c, []) == c;
  }
}
