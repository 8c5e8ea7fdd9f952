/** The text that is hashed into the id of a vector row: its fields joined by NUL characters. */
module RowIdentity {
  import opened Common
  import opened Generations
  import opened Timestamps

  const NUL: char := '\0'

  predicate NulFree(s: string) {
    NUL !in s
  }

  function Joined(fields: seq<string>): string
    requires fields != []
  {
    if |fields| == 1 then fields[0] else fields[0] + [NUL] + Joined(fields[1..])
  }

  function Decimal(n: nat): (s: string)
    ensures s != [] && forall c :: c in s ==> '0' <= c <= '9'
  {
    if n < 10 then [DigitChar(n)] else Decimal(n / 10) + [DigitChar(n % 10)]
  }

  lemma {:induction false} DecimalInjective(n: nat, m: nat)
    requires Decimal(n) == Decimal(m)
    ensures n == m
  {
    var s := Decimal(n);
    DecimalLength(n);
    DecimalLength(m);
    assert s[|s| - 1] == DigitChar(n % 10) == DigitChar(m % 10);
    if n >= 10 && m >= 10 {
      assert s[..|s| - 1] == Decimal(n / 10) == Decimal(m / 10);
      DecimalInjective(n / 10, m / 10);
    }
  }

  lemma DecimalLength(n: nat)
    ensures |Decimal(n)| == 1 <==> n < 10
  {}

  function Fields(id: RowId): seq<string> {
    [id.key.bucket, id.key.name, id.generation.checksum, id.generation.updatedAt, id.plugin,
     id.kind, id.model, id.modelVersion, Decimal(id.ordinal)]
  }

  function IdentityText(id: RowId): string {
    Joined(Fields(id))
  }

  // ---- what the text tells apart ---------------------------------------

  /** Up to the first NUL two texts can be read off. */
  lemma FirstFieldEqual(f: string, g: string, x: string, y: string)
    requires NulFree(f) && NulFree(g) && f + ([NUL] + x) == g + ([NUL] + y)
    ensures f == g && x == y
  {
    var s, t := f + ([NUL] + x), g + ([NUL] + y);
    assert s[|f|] == NUL && t[|g|] == NUL;
    assert forall i :: 0 <= i < |f| ==> s[i] == f[i];
    assert forall i :: 0 <= i < |g| ==> t[i] == g[i];
    assert s[..|f|] == f && t[..|g|] == g;
    assert s[|f| + 1..] == x && t[|g| + 1..] == y;
  }

  lemma {:induction false} JoinInjective(fs: seq<string>, gs: seq<string>)
    requires fs != [] && |fs| == |gs| && Joined(fs) == Joined(gs)
    requires forall i :: 0 <= i < |fs| ==> NulFree(fs[i]) && NulFree(gs[i])
    ensures fs == gs
  {
    if |fs| > 1 {
      assert Joined(fs) == fs[0] + ([NUL] + Joined(fs[1..]));
      assert Joined(gs) == gs[0] + ([NUL] + Joined(gs[1..]));
      FirstFieldEqual(fs[0], gs[0], Joined(fs[1..]), Joined(gs[1..]));
      JoinInjective(fs[1..], gs[1..]);
      assert fs == [fs[0]] + fs[1..] && gs == [gs[0]] + gs[1..];
    }
  }

  predicate AllNulFree(id: RowId) {
    && NulFree(id.key.bucket) && NulFree(id.key.name) && NulFree(id.generation.checksum)
    && NulFree(id.generation.updatedAt) && NulFree(id.plugin) && NulFree(id.kind) && NulFree(id.model)
    && NulFree(id.modelVersion)
  }

  /** Rows whose fields have no NUL have different texts: the text stands for the fields. */
  lemma IdentityInjective(a: RowId, b: RowId)
    requires AllNulFree(a) && AllNulFree(b) && IdentityText(a) == IdentityText(b)
    ensures a == b
  {
    JoinInjective(Fields(a), Fields(b));
    assert Fields(a)[8] == Decimal(a.ordinal) && Fields(b)[8] == Decimal(b.ordinal);
    DecimalInjective(a.ordinal, b.ordinal);
    assert Fields(a)[0] == a.key.bucket && Fields(a)[1] == a.key.name && Fields(a)[2] == a.generation.checksum;
    assert Fields(a)[3] == a.generation.updatedAt && Fields(a)[4] == a.plugin && Fields(a)[5] == a.kind;
    assert Fields(a)[6] == a.model && Fields(a)[7] == a.modelVersion;
  }

  // ---- within one batch ------------------------------------------------

  lemma {:induction false} JoinedEnd(fs: seq<string>, last: string) returns (start: string)
    requires fs != []
    ensures Joined(fs + [last]) == start + ([NUL] + last)
  {
    var all := fs + [last];
    if |fs| == 1 {
      assert all[1..] == [last];
      start := fs[0];
      assert Joined(all) == fs[0] + [NUL] + Joined([last]);
    } else {
      assert all[1..] == fs[1..] + [last];
      var rest := JoinedEnd(fs[1..], last);
      start := fs[0] + [NUL] + rest;
      assert Joined(all) == fs[0] + [NUL] + Joined(all[1..]);
    }
  }

  /** From the last NUL on two texts can be read off. */
  lemma LastFieldEqual(x: string, y: string, f: string, g: string)
    requires NulFree(f) && NulFree(g) && x + ([NUL] + f) == y + ([NUL] + g)
    ensures f == g
  {
    var s, t := x + ([NUL] + f), y + ([NUL] + g);
    assert s[|x|] == NUL && t[|y|] == NUL;
    assert forall i :: |x| < i < |s| ==> s[i] == f[i - |x| - 1];
    assert forall i :: |y| < i < |t| ==> t[i] == g[i - |y| - 1];
    assert s[|x| + 1..] == f && t[|y| + 1..] == g;
  }

  /** Within one batch the ordinal alone keeps the texts apart, whatever the other fields hold. */
  lemma BatchTextsApart(key: Key, g: Generation, plugin: string, batch: seq<Embedding>, i: nat, j: nat)
    requires i < |batch| && j < |batch|
    requires IdentityText(RowIdOf(key, g, plugin, batch, i)) == IdentityText(RowIdOf(key, g, plugin, batch, j))
    ensures i == j
  {
    var a, b := Fields(RowIdOf(key, g, plugin, batch, i)), Fields(RowIdOf(key, g, plugin, batch, j));
    assert a == a[..8] + [Decimal(i)] && b == b[..8] + [Decimal(j)];
    var x := JoinedEnd(a[..8], Decimal(i));
    var y := JoinedEnd(b[..8], Decimal(j));
    LastFieldEqual(x, y, Decimal(i), Decimal(j));
    DecimalInjective(i, j);
  }

  /** With a NUL inside a field two rows of different keys can share one text, and so one id. */
  lemma NulFieldsCollide(g: Generation, plugin: string, kind: string, model: string, version: string, n: nat)
    ensures var a := RowId(Key("b", "k" + [NUL] + "c"), Generation("s", g.updatedAt), plugin, kind, model, version, n);
            var b := RowId(Key("b" + [NUL] + "k", "c"), Generation("s", g.updatedAt), plugin, kind, model, version, n);
            a != b && IdentityText(a) == IdentityText(b)
  {
    var a := RowId(Key("b", "k" + [NUL] + "c"), Generation("s", g.updatedAt), plugin, kind, model, version, n);
    var b := RowId(Key("b" + [NUL] + "k", "c"), Generation("s", g.updatedAt), plugin, kind, model, version, n);
    var rest := Fields(a)[2..];
    assert rest == Fields(b)[2..];
    TwoFields(Fields(a));
    TwoFields(Fields(b));
    assert "b" + [NUL] + ("k" + [NUL] + "c") == "b" + [NUL] + "k" + [NUL] + "c";
  }

  lemma TwoFields(fields: seq<string>)
    requires |fields| > 2
    ensures Joined(fields) == fields[0] + [NUL] + fields[1] + [NUL] + Joined(fields[2..])
  {
    assert fields[1..][0] == fields[1] && fields[1..][1..] == fields[2..];
  }
}
