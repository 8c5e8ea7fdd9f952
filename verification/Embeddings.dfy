/** Vector rows: the blob codec and the bounded exact search. */
module Embeddings {
  import opened Common
  import Sorting
  import Text

  // ---- blob codec ------------------------------------------------------

  type Byte = b: int | 0 <= b < 0x100
  type Float32Bits = v: int | 0 <= v < 0x1_0000_0000

  /** Neither NaN nor infinite: the exponent field is not all ones. */
  predicate Finite(v: Float32Bits) {
    (v / 0x80_0000) % 0x100 != 0xFF
  }

  /** Plus or minus zero. */
  predicate IsZero(v: Float32Bits) {
    v % 0x8000_0000 == 0
  }

  predicate AllFinite(values: seq<Float32Bits>) {
    forall i :: 0 <= i < |values| ==> Finite(values[i])
  }

  function ByteOf(v: Float32Bits, j: nat): Byte
    requires j < 4
  {
    if j == 0 then v % 0x100
    else if j == 1 then (v / 0x100) % 0x100
    else if j == 2 then (v / 0x1_0000) % 0x100
    else v / 0x100_0000
  }

  function WordAt(data: seq<Byte>, i: nat): Float32Bits
    requires 4 * i + 4 <= |data|
  {
    var a: int, b: int, c: int, d: int := data[4 * i], data[4 * i + 1], data[4 * i + 2], data[4 * i + 3];
    a + 0x100 * b + 0x1_0000 * c + 0x100_0000 * d
  }

  function Blob(values: seq<Float32Bits>): (data: seq<Byte>)
    ensures |data| == 4 * |values|
  {
    seq(4 * |values|, k requires 0 <= k < 4 * |values| => ByteOf(values[k / 4], k % 4))
  }

  function Encode(values: seq<Float32Bits>): Result<seq<Byte>> {
    if AllFinite(values) then Ok(Blob(values)) else Err(InvalidArgument)
  }

  function Words(data: seq<Byte>): seq<Float32Bits> {
    seq(|data| / 4, i requires 0 <= i < |data| / 4 => WordAt(data, i))
  }

  function Decode(data: seq<Byte>, dimensions: int): Result<seq<Float32Bits>> {
    if dimensions <= 0 || |data| != dimensions * 4 || !AllFinite(Words(data)) then Err(InvalidArgument)
    else Ok(Words(data))
  }

  method EncodeFloat32Vector(values: seq<Float32Bits>) returns (r: Result<seq<Byte>>)
    ensures r == Encode(values)
  {
    var data := new Byte[|values| * 4];
    for i := 0 to |values|
      invariant AllFinite(values[..i])
      invariant forall k :: 0 <= k < 4 * i ==> data[k] == ByteOf(values[k / 4], k % 4)
    {
      if !Finite(values[i]) {
        return Err(InvalidArgument);
      }
      data[4 * i], data[4 * i + 1] := ByteOf(values[i], 0), ByteOf(values[i], 1);
      data[4 * i + 2], data[4 * i + 3] := ByteOf(values[i], 2), ByteOf(values[i], 3);
    }
    assert values[..|values|] == values;
    assert data[..] == Blob(values);
    return Ok(data[..]);
  }

  method DecodeFloat32Vector(data: seq<Byte>, dimensions: int) returns (r: Result<seq<Float32Bits>>)
    ensures r == Decode(data, dimensions)
  {
    if dimensions <= 0 || |data| != dimensions * 4 {
      return Err(InvalidArgument);
    }
    var values := new Float32Bits[dimensions];
    for i := 0 to dimensions
      invariant forall k :: 0 <= k < i ==> values[k] == WordAt(data, k) && Finite(values[k])
    {
      values[i] := WordAt(data, i);
      if !Finite(values[i]) {
        assert Words(data)[i] == values[i];
        return Err(InvalidArgument);
      }
    }
    assert values[..] == Words(data);
    return Ok(values[..]);
  }

  lemma WordOfBytes(v: Float32Bits)
    ensures ByteOf(v, 0) + 0x100 * ByteOf(v, 1) + 0x1_0000 * ByteOf(v, 2) + 0x100_0000 * ByteOf(v, 3) == v
  {
    assert v / 0x1_0000 == v / 0x100 / 0x100;
    assert v / 0x100_0000 == v / 0x1_0000 / 0x100;
  }

  lemma BytesOfWord(a: Byte, b: Byte, c: Byte, d: Byte)
    ensures var v := a as int + 0x100 * b + 0x1_0000 * c + 0x100_0000 * d;
            ByteOf(v, 0) == a && ByteOf(v, 1) == b && ByteOf(v, 2) == c && ByteOf(v, 3) == d
  {
    var v := a as int + 0x100 * b + 0x1_0000 * c + 0x100_0000 * d;
    assert v / 0x100 == b + 0x100 * c + 0x1_0000 * d;
    assert v / 0x1_0000 == c + 0x100 * d;
    assert v / 0x100_0000 == d;
  }

  lemma WordAtBlob(values: seq<Float32Bits>, i: nat)
    requires i < |values|
    ensures WordAt(Blob(values), i) == values[i]
  {
    assert (4 * i) / 4 == i && (4 * i + 1) / 4 == i && (4 * i + 2) / 4 == i && (4 * i + 3) / 4 == i;
    WordOfBytes(values[i]);
  }

  /** Decoding an encoded vector with its own length gives it back. */
  lemma DecodeEncode(values: seq<Float32Bits>)
    requires |values| > 0 && AllFinite(values)
    ensures Encode(values).Ok? && |Encode(values).value| == 4 * |values|
    ensures Decode(Encode(values).value, |values|) == Ok(values)
  {
    var data := Blob(values);
    forall i | 0 <= i < |values| ensures Words(data)[i] == values[i] {
      WordAtBlob(values, i);
    }
    assert Words(data) == values;
  }

  /** Every blob the decoder accepts is the encoding of what it decoded. */
  lemma EncodeDecode(data: seq<Byte>, dimensions: int)
    requires Decode(data, dimensions).Ok?
    ensures Encode(Decode(data, dimensions).value) == Ok(data)
  {
    var values := Words(data);
    forall k | 0 <= k < |data| ensures ByteOf(values[k / 4], k % 4) == data[k] {
      var i := k / 4;
      BytesOfWord(data[4 * i], data[4 * i + 1], data[4 * i + 2], data[4 * i + 3]);
      assert k == 4 * i + k % 4;
    }
    assert Blob(values) == data;
  }

  // ---- bounded search --------------------------------------------------

  /** A scored row. Ids are primary keys, so the rest of the row follows the id. */
  datatype Candidate = Candidate(id: string, score: real)

  predicate Better(left: Candidate, right: Candidate) {
    if left.score == right.score then Text.Less(left.id, right.id) else left.score > right.score
  }

  lemma BetterIsTotal()
    ensures Sorting.TotalOrder(Better)
  {
    forall x, y
      ensures !Better(x, x)
      ensures Better(x, y) ==> !Better(y, x)
      ensures !Better(x, y) && !Better(y, x) ==> x == y
    {
      Text.Trichotomy(x.id, y.id);
    }
    forall x, y, z | !Better(y, x) && !Better(z, y) ensures !Better(z, x) {
      if x.score == y.score == z.score {
        Text.Trichotomy(x.id, y.id);
        Text.Trichotomy(y.id, z.id);
        Text.Trichotomy(x.id, z.id);
        Text.AtMostTransitive(x.id, y.id, z.id);
      }
    }
  }

  /** A row as it is read. It has no score when its vector cannot be compared with the query's. */
  datatype Row = Row(
    id: string, bucket: string, kind: string, model: string, modelVersion: string,
    metric: string, dimensions: int, score: Option<real>)

  predicate Passes(row: Row, minScore: Option<real>) {
    row.score.Some? && (minScore.None? || row.score.value >= minScore.value)
  }

  function Scored(row: Row): Candidate
    requires row.score.Some?
  {
    Candidate(row.id, row.score.value)
  }

  /** The passing rows, in the order they are read. */
  function Passing(rows: seq<Row>, minScore: Option<real>): seq<Candidate> {
    if rows == [] then []
    else
      var rest := Passing(rows[..|rows| - 1], minScore);
      var row := rows[|rows| - 1];
      if Passes(row, minScore) then rest + [Scored(row)] else rest
  }

  /** Sort every passing row, best first, and keep the first `limit`. */
  function BestOf(rows: seq<Row>, minScore: Option<real>, limit: nat): seq<Candidate> {
    Sorting.Take(Sorting.Sort(Passing(rows, minScore), Better), limit)
  }

  /** `results` holds, in any order, the first `limit` of a ranking. */
  ghost predicate HoldsBest(results: seq<Candidate>, ranking: seq<Candidate>, limit: nat) {
    multiset(results) == multiset(Sorting.Take(ranking, limit))
  }

  lemma BufferSize(results: seq<Candidate>, ranking: seq<Candidate>, limit: nat)
    requires HoldsBest(results, ranking, limit)
    ensures |results| == Min(limit, |ranking|)
  {
    assert |multiset(results)| == |results|;
  }

  lemma SpareBufferStep(results: seq<Candidate>, ranking: seq<Candidate>, c: Candidate, limit: nat)
    requires |ranking| < limit && HoldsBest(results, ranking, limit)
    ensures HoldsBest(results + [c], Sorting.Insert(c, ranking, Better), limit)
  {}

  /** One more candidate against a full buffer: replacing the worst row keeps the best `limit`. */
  lemma FullBufferStep(results: seq<Candidate>, ranking: seq<Candidate>, c: Candidate, limit: nat, worst: nat)
    requires Sorting.Sorted(ranking, Better) && 1 <= limit <= |ranking|
    requires HoldsBest(results, ranking, limit)
    requires Sorting.WorstAt(results, worst, Better)
    ensures HoldsBest(if Better(c, results[worst]) then results[worst := c] else results,
                      Sorting.Insert(c, ranking, Better), limit)
  {
    assert Sorting.Take(ranking, limit) == ranking[..limit];
    BetterIsTotal();
    Sorting.ReplaceWorst(results, ranking, c, limit, worst, Better);
  }

  /** The ranking of the rows read so far grows by insertion. */
  lemma RankingGrows(passing: seq<Candidate>, c: Candidate)
    ensures Sorting.Sorted(Sorting.Sort(passing, Better), Better)
    ensures Sorting.Sort(passing + [c], Better) == Sorting.Insert(c, Sorting.Sort(passing, Better), Better)
  {
    BetterIsTotal();
    Sorting.SortAppend(passing, c, Better);
  }

  lemma FinalSort(results: seq<Candidate>, passing: seq<Candidate>, limit: nat)
    requires HoldsBest(results, Sorting.Sort(passing, Better), limit)
    ensures Sorting.Sort(results, Better) == Sorting.Take(Sorting.Sort(passing, Better), limit)
  {
    BetterIsTotal();
    Sorting.SortArranges(results, passing, limit, Better);
  }

  /** The scan for the worst row: one comparison with the worst so far is enough. */
  lemma WorseChain(worst: Candidate, next: Candidate, seen: seq<Candidate>)
    requires forall c :: c in seen ==> !Better(worst, c)
    ensures !Better(next, next)
    ensures Better(worst, next) ==> forall c :: c in seen ==> !Better(next, c)
  {
    BetterIsTotal();
  }

  method WorstIndex(results: seq<Candidate>) returns (worst: nat)
    requires results != []
    ensures Sorting.WorstAt(results, worst, Better)
  {
    worst := 0;
    Text.Trichotomy(results[0].id, results[0].id);
    for i := 1 to |results|
      invariant worst < i
      invariant forall j :: 0 <= j < i ==> !Better(results[worst], results[j])
    {
      WorseChain(results[worst], results[i], results[..i]);
      if Better(results[worst], results[i]) {
        worst := i;
      }
    }
  }

  const MAXIMUM_RESULTS := 100
  const DEFAULT_CANDIDATES := 10_000
  const MAXIMUM_CANDIDATES := 100_000
  const MAXIMUM_DIMENSIONS := 4096

  /** The row limits after the query is normalised. */
  function ResultLimit(limit: int): nat {
    if limit <= 0 then 10 else if limit > MAXIMUM_RESULTS then MAXIMUM_RESULTS else limit
  }

  function CandidateLimit(maximum: int): nat {
    if maximum <= 0 then DEFAULT_CANDIDATES else if maximum > MAXIMUM_CANDIDATES then MAXIMUM_CANDIDATES else maximum
  }

  /** One passing candidate: appended while there is room, otherwise put in the worst row's place
      if it is better. `passing` are the candidates that passed before it. */
  method Keep(results: seq<Candidate>, candidate: Candidate, limit: nat, ghost passing: seq<Candidate>)
    returns (kept: seq<Candidate>)
    requires 1 <= limit && HoldsBest(results, Sorting.Sort(passing, Better), limit)
    ensures HoldsBest(kept, Sorting.Sort(passing + [candidate], Better), limit)
  {
    ghost var ranking := Sorting.Sort(passing, Better);
    RankingGrows(passing, candidate);
    BufferSize(results, ranking, limit);
    if |results| < limit {
      SpareBufferStep(results, ranking, candidate, limit);
      return results + [candidate];
    }
    var worst := WorstIndex(results);
    FullBufferStep(results, ranking, candidate, limit, worst);
    kept := if Better(candidate, results[worst]) then results[worst := candidate] else results;
  }

  lemma PassingStep(rows: seq<Row>, row: Row, minScore: Option<real>)
    ensures Passing(rows + [row], minScore)
         == if Passes(row, minScore) then Passing(rows, minScore) + [Scored(row)] else Passing(rows, minScore)
  {
    assert (rows + [row])[..|rows|] == rows;
  }

  /** One row read; `before` are the rows read before it. */
  method Read(results: seq<Candidate>, row: Row, minScore: Option<real>, limit: nat, ghost before: seq<Row>)
    returns (kept: seq<Candidate>)
    requires 1 <= limit && HoldsBest(results, Sorting.Sort(Passing(before, minScore), Better), limit)
    ensures HoldsBest(kept, Sorting.Sort(Passing(before + [row], minScore), Better), limit)
  {
    PassingStep(before, row, minScore);
    if row.score.None? || (minScore.Some? && row.score.value < minScore.value) {
      return results;
    }
    kept := Keep(results, Scored(row), limit, Passing(before, minScore));
  }

  /** The streaming pass over the rows, sorted once at the end. */
  method Rank(rows: seq<Row>, minScore: Option<real>, limit: nat) returns (results: seq<Candidate>)
    requires 1 <= limit
    ensures results == BestOf(rows, minScore, limit)
  {
    results := [];
    for n := 0 to |rows|
      invariant HoldsBest(results, Sorting.Sort(Passing(rows[..n], minScore), Better), limit)
    {
      assert rows[..n + 1] == rows[..n] + [rows[n]];
      results := Read(results, rows[n], minScore, limit, rows[..n]);
    }
    assert rows[..|rows|] == rows;
    FinalSort(results, Passing(rows, minScore), limit);
    results := Sorting.Sort(results, Better);
  }

  // ---- the query -------------------------------------------------------

  /** The texts of a query are trimmed, and its metric is in lower case. */
  datatype Query = Query(
    model: string, modelVersion: string, kind: string, bucket: string, metric: string,
    values: seq<Float32Bits>, minScore: Option<real>, limit: int, maximum: int)

  function Metric(q: Query): string {
    if q.metric == "" then "cosine" else q.metric
  }

  predicate ValidQuery(q: Query) {
    && q.model != "" && 0 < |q.values| <= MAXIMUM_DIMENSIONS
    && (Metric(q) == "cosine" || Metric(q) == "dot" || Metric(q) == "l2")
    && AllFinite(q.values)
    && (Metric(q) == "cosine" ==> exists v :: v in q.values && !IsZero(v))
  }

  predicate Selected(q: Query, row: Row) {
    && row.model == q.model && row.metric == Metric(q) && row.dimensions == |q.values|
    && (q.modelVersion != "" ==> row.modelVersion == q.modelVersion)
    && (q.kind != "" ==> row.kind == q.kind)
    && (q.bucket != "" ==> row.bucket == q.bucket)
  }

  function Selection(table: seq<Row>, q: Query): (rows: seq<Row>)
    ensures forall row :: row in rows <==> row in table && Selected(q, row)
  {
    if table == [] then []
    else if Selected(q, table[0]) then [table[0]] + Selection(table[1..], q)
    else Selection(table[1..], q)
  }

  /** What a query asks for: the best passing rows among the first selected ones. */
  function Answer(table: seq<Row>, q: Query): seq<Candidate> {
    BestOf(Sorting.Take(Selection(table, q), CandidateLimit(q.maximum)), q.minScore, ResultLimit(q.limit))
  }

  /** The query is checked, its limits are normalised, and at most the candidate limit is read.
      `table` has the rows by id. */
  method SearchObjectEmbeddings(table: seq<Row>, q: Query) returns (r: Result<seq<Candidate>>)
    ensures r == if ValidQuery(q) then Ok(Answer(table, q)) else Err(InvalidArgument)
  {
    var metric := if q.metric == "" then "cosine" else q.metric;
    if q.model == "" || q.values == [] || |q.values| > MAXIMUM_DIMENSIONS {
      return Err(InvalidArgument);
    }
    if metric != "cosine" && metric != "dot" && metric != "l2" {
      return Err(InvalidArgument);
    }
    var encoded := EncodeFloat32Vector(q.values);
    if encoded.Err? {
      return Err(InvalidArgument);
    }
    if metric == "cosine" && forall v :: v in q.values ==> IsZero(v) {
      return Err(InvalidArgument);
    }
    var limit := if q.limit <= 0 then 10 else q.limit;
    limit := if limit > MAXIMUM_RESULTS then MAXIMUM_RESULTS else limit;
    var maximum := if q.maximum <= 0 then DEFAULT_CANDIDATES else q.maximum;
    maximum := if maximum > MAXIMUM_CANDIDATES then MAXIMUM_CANDIDATES else maximum;
    var results := Rank(Sorting.Take(Selection(table, q), maximum), q.minScore, limit);
    return Ok(results);
  }

  // ---- what the answer means -------------------------------------------

  /** One of the rows passes with this id and score. */
  ghost predicate Offers(rows: seq<Row>, minScore: Option<real>, c: Candidate) {
    exists row :: row in rows && Passes(row, minScore) && Scored(row) == c
  }

  lemma {:induction false} PassingMembers(rows: seq<Row>, minScore: Option<real>, c: Candidate)
    ensures c in Passing(rows, minScore) <==> Offers(rows, minScore, c)
  {
    if rows != [] {
      var n := |rows| - 1;
      PassingMembers(rows[..n], minScore, c);
      assert rows == rows[..n] + [rows[n]];
      if Offers(rows[..n], minScore, c) {
        var row :| row in rows[..n] && Passes(row, minScore) && Scored(row) == c;
        assert row in rows;
      }
    }
  }

  lemma LeftOutIsWorse(ranking: seq<Candidate>, limit: nat, c: Candidate, kept: Candidate)
    requires Sorting.Sorted(ranking, Better)
    requires c in ranking && c !in Sorting.Take(ranking, limit) && kept in Sorting.Take(ranking, limit)
    ensures |Sorting.Take(ranking, limit)| == limit && Better(kept, c)
  {
    var best := Sorting.Take(ranking, limit);
    var j :| 0 <= j < |ranking| && ranking[j] == c;
    var i :| 0 <= i < |best| && best[i] == kept;
    assert ranking[i] == kept && best == ranking[..limit] && i < limit;
    assert forall k :: 0 <= k < |best| ==> best[k] == ranking[k];
    Text.Trichotomy(c.id, kept.id);
  }

  lemma KeptOrWorse(ranking: seq<Candidate>, limit: nat, c: Candidate)
    requires Sorting.Sorted(ranking, Better)
    ensures Sorting.Sorted(Sorting.Take(ranking, limit), Better)
    ensures c in Sorting.Take(ranking, limit) ==> c in ranking
    ensures c in ranking && c !in Sorting.Take(ranking, limit)
        ==> forall kept :: kept in Sorting.Take(ranking, limit) ==> Better(kept, c)
  {
    var best := Sorting.Take(ranking, limit);
    if c in ranking && c !in best {
      forall kept | kept in best ensures Better(kept, c) {
        LeftOutIsWorse(ranking, limit, c, kept);
      }
    }
  }

  lemma RankingMembers(passing: seq<Candidate>, c: Candidate)
    ensures c in Sorting.Sort(passing, Better) <==> c in passing
  {
    assert c in Sorting.Sort(passing, Better) <==> c in multiset(passing);
  }

  /** What the first `limit` of the ranking are: passing rows, best first, and every passing
      row that is left out is worse than each one kept. */
  lemma BestOfMeaning(rows: seq<Row>, minScore: Option<real>, limit: nat, c: Candidate)
    ensures Sorting.Sorted(BestOf(rows, minScore, limit), Better)
    ensures |BestOf(rows, minScore, limit)| == Min(limit, |Passing(rows, minScore)|)
    ensures c in BestOf(rows, minScore, limit) ==> Offers(rows, minScore, c)
    ensures Offers(rows, minScore, c) && c !in BestOf(rows, minScore, limit)
        ==> forall kept :: kept in BestOf(rows, minScore, limit) ==> Better(kept, c)
  {
    var passing := Passing(rows, minScore);
    RankingGrows(passing, c);
    PassingMembers(rows, minScore, c);
    RankingMembers(passing, c);
    KeptOrWorse(Sorting.Sort(passing, Better), limit, c);
  }

  // ---- in plain numbers ------------------------------------------------

  /** The four bytes of each value, lowest first. */
  lemma LittleEndian(values: seq<Float32Bits>, i: nat)
    requires i < |values| && Encode(values).Ok?
    ensures var data := Encode(values).value;
            && |data| == 4 * |values|
            && data[4 * i] == values[i] % 256 && data[4 * i + 1] == values[i] / 256 % 256
            && data[4 * i + 2] == values[i] / 65_536 % 256 && data[4 * i + 3] == values[i] / 16_777_216
  {
    assert (4 * i + 1) / 4 == i && (4 * i + 2) / 4 == i && (4 * i + 3) / 4 == i;
  }

  /** The largest finite value, the infinities and the first value that is not a number. */
  lemma FiniteEnds()
    ensures Finite(0x7F7F_FFFF) && Finite(0xFF7F_FFFF) && Finite(0) && Finite(0x8000_0000)
    ensures !Finite(0x7F80_0000) && !Finite(0xFF80_0000) && !Finite(0x7F80_0001) && !Finite(0x7FFF_FFFF)
    ensures IsZero(0) && IsZero(0x8000_0000) && !IsZero(1) && !IsZero(0x8000_0001)
  {}

  /** A query is refused exactly without a model, with a metric that is none of the three, with no values
      or too many, with one that is not finite, or with only zeros under the metric that divides by the
      norm; no metric stands for that one. */
  lemma RefusedExactly(q: Query)
    ensures !ValidQuery(q)
       <==> || q.model == "" || q.values == [] || |q.values| > 4096
            || (q.metric != "" && q.metric != "cosine" && q.metric != "dot" && q.metric != "l2")
            || (exists i :: 0 <= i < |q.values| && !Finite(q.values[i]))
            || ((q.metric == "" || q.metric == "cosine") && forall i :: 0 <= i < |q.values| ==> IsZero(q.values[i]))
  {
    if exists v :: v in q.values && !IsZero(v) {
      var v :| v in q.values && !IsZero(v);
      var i :| 0 <= i < |q.values| && q.values[i] == v;
    }
    forall i | 0 <= i < |q.values| ensures q.values[i] in q.values {}
  }

  /** The limits that are taken as asked, and what stands for the others. */
  lemma LimitsExactly(asked: int)
    ensures ResultLimit(asked) == if asked <= 0 then 10 else Min(asked, 100)
    ensures CandidateLimit(asked) == if asked <= 0 then 10_000 else Min(asked, 100_000)
  {}

  /** The row is one that the query asks for: its model, metric and dimensions, what is named of its
      version, kind and bucket, and a score that is not below the minimum. */
  predicate AskedFor(row: Row, q: Query) {
    && row.model == q.model && row.metric == (if q.metric == "" then "cosine" else q.metric)
    && row.dimensions == |q.values|
    && (q.modelVersion == "" || row.modelVersion == q.modelVersion)
    && (q.kind == "" || row.kind == q.kind) && (q.bucket == "" || row.bucket == q.bucket)
    && row.score.Some? && (q.minScore.None? || q.minScore.value <= row.score.value)
  }

  /** A higher score comes first, and at one score the smaller id. */
  predicate Ahead(a: Candidate, b: Candidate) {
    a.score > b.score || (a.score == b.score && Text.Less(a.id, b.id))
  }

  /** What a search answers: rows asked for, best first, no more than the limit; and when no more rows are
      selected than may be read, every row asked for that is missing is behind each of a full answer. */
  lemma AnswerMeans(table: seq<Row>, q: Query, row: Row)
    ensures |Answer(table, q)| <= ResultLimit(q.limit)
    ensures forall i, j :: 0 <= i < j < |Answer(table, q)| ==> !Ahead(Answer(table, q)[j], Answer(table, q)[i])
    ensures forall c :: c in Answer(table, q) ==> exists r :: r in table && AskedFor(r, q) && Scored(r) == c
    ensures |Selection(table, q)| <= CandidateLimit(q.maximum) && row in table && AskedFor(row, q)
        && Scored(row) !in Answer(table, q)
        ==> |Answer(table, q)| == ResultLimit(q.limit)
            && forall kept :: kept in Answer(table, q) ==> Ahead(kept, Scored(row))
  {
    var read := Sorting.Take(Selection(table, q), CandidateLimit(q.maximum));
    var answer := Answer(table, q);
    if row.score.Some? {
      BestOfMeaning(read, q.minScore, ResultLimit(q.limit), Scored(row));
    }
    BestOfMeaning(read, q.minScore, ResultLimit(q.limit), Candidate("", 0.0));
    forall c | c in answer ensures exists r :: r in table && AskedFor(r, q) && Scored(r) == c {
      BestOfMeaning(read, q.minScore, ResultLimit(q.limit), c);
      var r :| r in read && Passes(r, q.minScore) && Scored(r) == c;
      assert r in Selection(table, q);
      assert AskedFor(r, q);
    }
    if |Selection(table, q)| <= CandidateLimit(q.maximum) && row in table && AskedFor(row, q)
       && Scored(row) !in answer {
      assert read == Selection(table, q) && row in read && Passes(row, q.minScore);
      assert Offers(read, q.minScore, Scored(row));
      FullAnswer(read, q.minScore, ResultLimit(q.limit), Scored(row));
    }
  }

  /** Something offered is missing only from a full answer. */
  lemma FullAnswer(rows: seq<Row>, minScore: Option<real>, limit: nat, c: Candidate)
    requires Offers(rows, minScore, c) && c !in BestOf(rows, minScore, limit)
    ensures |BestOf(rows, minScore, limit)| == limit
  {
    PassingMembers(rows, minScore, c);
    RankingMembers(Passing(rows, minScore), c);
    RankingGrows(Passing(rows, minScore), c);
  }
}
