/** Usage between statements: uploads and deletes of an unversioned, unreplicated bucket, cut into
    the statements that other instances can run in between. */
module UsageInterleavings {
  import opened Common
  import Sums

  /** What the index knows of an object's bytes. */
  datatype Row = Row(provider: string, size: nat)

  /** A request in progress, with what it has read. An upload has read the object it overwrites, has
      committed its bytes, or has written the index and still has to take the old object's bytes
      off; a delete has read the object, or has removed the row and still has to. */
  datatype Request =
    | Uploading(key: Key, existing: Option<Row>)
    | Committed(key: Key, existing: Option<Row>, row: Row)
    | Written(key: Key, existing: Option<Row>)
    | Deleting(key: Key, read: Row)
    | Removed(key: Key, read: Row)

  datatype World = World(used: map<string, int>, objects: map<Key, Row>, requests: map<string, Request>)

  datatype Step =
    | StartUpload(id: string, key: Key)
    | CommitBytes(id: string, row: Row)
    | WriteRow(id: string)
    | CleanUp(id: string)
    | StartDelete(id: string, key: Key)
    | RemoveRow(id: string)
    | TakeOff(id: string)
    | GiveUp(id: string)

  function Current(w: World, k: Key): Option<Row> {
    if k in w.objects then Some(w.objects[k]) else None
  }

  /** The counter never goes below zero. */
  function Add(used: map<string, int>, p: string, delta: int): map<string, int> {
    if p in used then used[p := Max(used[p] + delta, 0)] else used
  }

  function WithoutRow(used: map<string, int>, row: Option<Row>): map<string, int> {
    if row.Some? then Add(used, row.value.provider, -(row.value.size as int)) else used
  }

  function Apply(w: World, step: Step): World {
    match step
    case StartUpload(id, k) =>
      if id in w.requests then w else w.(requests := w.requests[id := Uploading(k, Current(w, k))])
    case CommitBytes(id, row) =>
      if id !in w.requests || !w.requests[id].Uploading? || row.provider !in w.used then w else
        var r := w.requests[id];
        w.(used := Add(w.used, row.provider, row.size), requests := w.requests[id := Committed(r.key, r.existing, row)])
    case WriteRow(id) =>
      if id !in w.requests || !w.requests[id].Committed? then w else
        var r := w.requests[id];
        w.(objects := w.objects[r.key := r.row], requests := w.requests[id := Written(r.key, r.existing)])
    case CleanUp(id) =>
      if id !in w.requests || !w.requests[id].Written? then w
      else w.(used := WithoutRow(w.used, w.requests[id].existing), requests := w.requests - {id})
    case StartDelete(id, k) =>
      if id in w.requests || k !in w.objects then w else w.(requests := w.requests[id := Deleting(k, w.objects[k])])
    case RemoveRow(id) =>
      if id !in w.requests || !w.requests[id].Deleting? then w else
        var r := w.requests[id];
        w.(objects := w.objects - {r.key}, requests := w.requests[id := Removed(r.key, r.read)])
    case TakeOff(id) =>
      if id !in w.requests || !w.requests[id].Removed? then w
      else w.(used := WithoutRow(w.used, Some(w.requests[id].read)), requests := w.requests - {id})
    case GiveUp(id) =>
      if id in w.requests && (w.requests[id].Uploading? || w.requests[id].Deleting?)
          then w.(requests := w.requests - {id}) else w
  }

  function Run(w: World, steps: seq<Step>): World
    decreases steps
  {
    if steps == [] then w else Run(Apply(w, steps[0]), steps[1..])
  }

  // ---- what a counter should say ---------------------------------------

  function At(row: Option<Row>, p: string): int {
    if row.Some? && row.value.provider == p then row.value.size else 0
  }

  /** Bytes at p that a request has on the counter without an index row for them. */
  function Owed(r: Request, p: string): int {
    match r
    case Committed(_, _, row) => At(Some(row), p)
    case Written(_, existing) => At(existing, p)
    case Removed(_, read) => At(Some(read), p)
    case _ => 0
  }

  function StoredBytes(w: World, p: string): map<Key, int> {
    map k | k in w.objects :: At(Some(w.objects[k]), p)
  }

  function OwedBytes(w: World, p: string): map<string, int> {
    map id | id in w.requests :: Owed(w.requests[id], p)
  }

  ghost function Due(w: World, p: string): int {
    Sums.Total(StoredBytes(w, p)) + Sums.Total(OwedBytes(w, p))
  }

  /** The counter is what is stored, plus what was committed and is not yet indexed, plus what is
      no longer indexed and was not yet taken off. */
  ghost predicate Exact(w: World, p: string) {
    p in w.used && w.used[p] == Due(w, p)
  }

  lemma StoredMoves(w: World, after: World, k: Key, p: string)
    requires after.objects - {k} == w.objects - {k}
    ensures Sums.Total(StoredBytes(after, p)) - At(Current(after, k), p)
        == Sums.Total(StoredBytes(w, p)) - At(Current(w, k), p)
  {
    var x, y := StoredBytes(w, p), StoredBytes(after, p);
    forall j | j != k ensures Sums.Value(x, j) == Sums.Value(y, j) {
      assert j in w.objects <==> j in w.objects - {k};
      assert j in after.objects <==> j in after.objects - {k};
    }
    Sums.TotalDiffersAt(x, y, k);
  }

  function OwedBy(w: World, id: string, p: string): int {
    if id in w.requests then Owed(w.requests[id], p) else 0
  }

  lemma OwedMoves(w: World, after: World, id: string, p: string)
    requires after.requests - {id} == w.requests - {id}
    ensures Sums.Total(OwedBytes(after, p)) - OwedBy(after, id, p) == Sums.Total(OwedBytes(w, p)) - OwedBy(w, id, p)
  {
    var x, y := OwedBytes(w, p), OwedBytes(after, p);
    forall j | j != id ensures Sums.Value(x, j) == Sums.Value(y, j) {
      assert j in w.requests <==> j in w.requests - {id};
      assert j in after.requests <==> j in after.requests - {id};
    }
    Sums.TotalDiffersAt(x, y, id);
  }

  lemma DueCovers(w: World, id: string, p: string)
    ensures OwedBy(w, id, p) <= Due(w, p)
  {
    Sums.TotalNonNegative(StoredBytes(w, p));
    Sums.TotalNonNegative(OwedBytes(w, p));
    if id in w.requests {
      assert OwedBytes(w, p)[id] == OwedBy(w, id, p);
    }
  }

  // ---- one statement ---------------------------------------------------

  /** The row a request replaces or removes has the bytes at p that the request has read. */
  predicate ReadStillTrue(w: World, step: Step, p: string) {
    match step
    case WriteRow(id) =>
      (id in w.requests && w.requests[id].Committed?)
          ==> At(Current(w, w.requests[id].key), p) == At(w.requests[id].existing, p)
    case RemoveRow(id) =>
      (id in w.requests && w.requests[id].Deleting?)
          ==> At(Current(w, w.requests[id].key), p) == At(Some(w.requests[id].read), p)
    case _ => true
  }

  /** A statement keeps the counter of p exact if and only if the index write or removal finds the
      bytes there that its request has read. */
  lemma StepExactly(w: World, step: Step, p: string)
    requires Exact(w, p)
    ensures Exact(Apply(w, step), p) <==> ReadStillTrue(w, step, p)
  {
    var after := Apply(w, step);
    var id := step.id;
    DueCovers(w, id, p);
    OnlyOneRequest(w, step);
    OwedMoves(w, after, id, p);
    if (step.WriteRow? || step.RemoveRow?) && id in w.requests {
      OnlyOneRow(w, step);
      StoredMoves(w, after, w.requests[id].key, p);
    } else {
      SameRows(w, step);
    }
  }

  lemma OnlyOneRequest(w: World, step: Step)
    ensures Apply(w, step).requests - {step.id} == w.requests - {step.id}
  {}

  lemma OnlyOneRow(w: World, step: Step)
    requires (step.WriteRow? || step.RemoveRow?) && step.id in w.requests
    ensures var k := w.requests[step.id].key; Apply(w, step).objects - {k} == w.objects - {k}
  {}

  lemma SameRows(w: World, step: Step)
    requires !((step.WriteRow? || step.RemoveRow?) && step.id in w.requests)
    ensures Apply(w, step).objects == w.objects
  {}

  // ---- serialised requests ---------------------------------------------

  ghost predicate Busy(w: World, k: Key) {
    exists id :: id in w.requests && w.requests[id].key == k
  }

  /** A request starts on a key only when no other is in progress on it. */
  ghost predicate Serial(w: World, steps: seq<Step>)
    decreases steps
  {
    steps == [] ||
    (&& (steps[0].StartUpload? || steps[0].StartDelete? ==> !Busy(w, steps[0].key))
     && Serial(Apply(w, steps[0]), steps[1..]))
  }

  /** What a request has read of its key is still so, until it changes the row itself. */
  predicate Informed(w: World, id: string)
    requires id in w.requests
  {
    match w.requests[id]
    case Uploading(k, existing) => Current(w, k) == existing
    case Committed(k, existing, _) => Current(w, k) == existing
    case Deleting(k, read) => Current(w, k) == Some(read)
    case _ => true
  }

  ghost predicate AllInformed(w: World) {
    (forall id :: id in w.requests ==> Informed(w, id)) && OneEach(w)
  }

  ghost predicate OneEach(w: World) {
    forall a, b :: a in w.requests && b in w.requests && w.requests[a].key == w.requests[b].key ==> a == b
  }

  /** A step gives its request no other key, and only a start adds a request. */
  lemma KeysStay(w: World, step: Step, id: string)
    requires id in Apply(w, step).requests
    ensures id in w.requests ==> w.requests[id].key == Apply(w, step).requests[id].key
    ensures id !in w.requests ==> step.id == id && (step.StartUpload? || step.StartDelete?)
    ensures id !in w.requests ==> Apply(w, step).requests[id].key == step.key
  {}

  lemma StepOneEach(w: World, step: Step)
    requires OneEach(w) && (step.StartUpload? || step.StartDelete? ==> !Busy(w, step.key))
    ensures OneEach(Apply(w, step))
  {
    var after := Apply(w, step).requests;
    forall a, b | a in after && b in after && after[a].key == after[b].key ensures a == b {
      KeysStay(w, step, a);
      KeysStay(w, step, b);
    }
  }

  /** Only the request itself changes the row it has read. */
  lemma RowsStay(w: World, step: Step, k: Key)
    requires step.id in w.requests ==> w.requests[step.id].key != k
    ensures Current(Apply(w, step), k) == Current(w, k)
  {}

  lemma StepInformed(w: World, step: Step, id: string)
    requires AllInformed(w) && id in Apply(w, step).requests
    ensures Informed(Apply(w, step), id)
  {
    if id != step.id && id in w.requests {
      assert Informed(w, id);
      RowsStay(w, step, w.requests[id].key);
    }
    if id == step.id && id in w.requests {
      assert Informed(w, id);
    }
  }

  lemma StepAllInformed(w: World, step: Step)
    requires AllInformed(w)
    requires step.StartUpload? || step.StartDelete? ==> !Busy(w, step.key)
    ensures AllInformed(Apply(w, step))
  {
    StepOneEach(w, step);
    forall id | id in Apply(w, step).requests ensures Informed(Apply(w, step), id) {
      StepInformed(w, step, id);
    }
  }

  /** With the requests on each key one after the other, every interleaving of their statements
      keeps every counter exact, and when none is in progress it is what the index stores. */
  lemma {:induction false} SerialRunsAreExact(w: World, steps: seq<Step>, p: string)
    requires Exact(w, p) && AllInformed(w) && Serial(w, steps)
    ensures Exact(Run(w, steps), p) && AllInformed(Run(w, steps))
    ensures Run(w, steps).requests == map[] ==> Run(w, steps).used[p] == Sums.Total(StoredBytes(Run(w, steps), p))
    decreases steps
  {
    if steps == [] {
      if w.requests == map[] {
        assert OwedBytes(w, p) == map[];
      }
    } else {
      var step := steps[0];
      if step.id in w.requests {
        assert Informed(w, step.id);
      }
      StepExactly(w, step, p);
      StepAllInformed(w, step);
      SerialRunsAreExact(Apply(w, step), steps[1..], p);
    }
  }

  // ---- two requests on one key -----------------------------------------

  /** Two deletes that have both read an object take its bytes off twice. */
  lemma TwoDeletesRace(w: World, a: string, b: string, k: Key)
    requires a != b && a !in w.requests && b !in w.requests && k in w.objects
    requires w.objects[k].provider in w.used && w.used[w.objects[k].provider] >= 2 * w.objects[k].size
    ensures var p, size := w.objects[k].provider, w.objects[k].size;
            var both := Apply(Apply(w, StartDelete(a, k)), StartDelete(b, k));
            var removed := Apply(Apply(both, RemoveRow(a)), RemoveRow(b));
            var after := Apply(Apply(removed, TakeOff(a)), TakeOff(b));
            after.objects == w.objects - {k} && after.used[p] == w.used[p] - 2 * size
  {
    var both := Apply(Apply(w, StartDelete(a, k)), StartDelete(b, k));
    assert both == w.(requests := w.requests[a := Deleting(k, w.objects[k])][b := Deleting(k, w.objects[k])]);
    var removed := Apply(Apply(both, RemoveRow(a)), RemoveRow(b));
    assert removed.objects == w.objects - {k} && removed.used == w.used;
    assert removed.requests == w.requests[a := Removed(k, w.objects[k])][b := Removed(k, w.objects[k])];
  }
}
