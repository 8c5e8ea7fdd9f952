/** Background scans: cursor loops that page through a listing while it changes under them, and
    the purge loop that keeps asking for the first due rows. */
module Scans {
  import opened Listing
  import opened Sorting
  import Text

  const PAGE := 1000

  /** `seen` is what a scan has visited up to its cursor: in order, and with every key it had to
      meet. */
  ghost predicate Scanned(seen: seq<string>, like: string -> bool, cursor: string, always: set<string>) {
    && Increasing(seen)
    && (forall k :: k in seen ==> like(k) && Text.AtMost(k, cursor))
    && (forall k :: k in always && like(k) && Text.Less("", k) && Text.AtMost(k, cursor) ==> k in seen)
  }

  /** The same at the end of the scan. */
  ghost predicate Complete(seen: seq<string>, like: string -> bool, always: set<string>) {
    && Increasing(seen)
    && (forall k :: k in seen ==> like(k))
    && (forall k :: k in always && like(k) && Text.Less("", k) ==> k in seen)
  }

  /** The keys still to be met are in the table that the next page is read from. */
  ghost predicate InReach(always: set<string>, cursor: string, table: set<string>) {
    forall k :: k in always && Text.Less(cursor, k) ==> k in table
  }

  lemma AppendIncreasing(seen: seq<string>, page: seq<string>, cursor: string)
    requires Increasing(seen) && Increasing(page)
    requires forall k :: k in seen ==> Text.AtMost(k, cursor)
    requires forall k :: k in page ==> Text.Less(cursor, k)
    ensures Increasing(seen + page)
  {
    forall i, j | 0 <= i < |seen| && 0 <= j < |page| ensures Text.Less(seen[i], page[j]) {
      assert seen[i] in seen && page[j] in page;
      Text.AtMostTransitive(seen[i], cursor, page[j]);
    }
  }

  lemma LastIsGreatest(page: seq<string>)
    requires Increasing(page) && page != []
    ensures forall k :: k in page ==> Text.AtMost(k, page[|page| - 1])
  {}

  /** A full page moves the cursor to its last key and keeps the scan complete up to there. */
  lemma FullPage(seen: seq<string>, table: set<string>, like: string -> bool, cursor: string, always: set<string>)
    requires Scanned(seen, like, cursor, always) && InReach(always, cursor, table)
    requires |Page(table, like, cursor, PAGE)| == PAGE
    ensures var page := Page(table, like, cursor, PAGE);
            Text.Less(cursor, page[PAGE - 1]) && Scanned(seen + page, like, page[PAGE - 1], always)
  {
    var page := Page(table, like, cursor, PAGE);
    var last := page[PAGE - 1];
    PageSound(table, like, cursor, PAGE);
    AppendIncreasing(seen, page, cursor);
    LastIsGreatest(page);
    assert last in Wanted(table, like, cursor);
    forall k | k in seen + page ensures like(k) && Text.AtMost(k, last) {
      if k in seen {
        Text.AtMostTransitive(k, cursor, last);
      } else {
        assert k in Wanted(table, like, cursor);
      }
    }
    forall k | k in always && like(k) && Text.Less("", k) && Text.AtMost(k, last) ensures k in seen + page {
      Text.Trichotomy(k, cursor);
      if !Text.AtMost(k, cursor) {
        PageCovers(table, like, cursor, PAGE, k);
        Text.Trichotomy(k, last);
      }
    }
  }

  /** A short page ends the scan. */
  lemma ShortPage(seen: seq<string>, table: set<string>, like: string -> bool, cursor: string, always: set<string>)
    requires Scanned(seen, like, cursor, always) && InReach(always, cursor, table)
    requires |Page(table, like, cursor, PAGE)| < PAGE
    ensures Complete(seen + Page(table, like, cursor, PAGE), like, always)
  {
    var page := Page(table, like, cursor, PAGE);
    PageSound(table, like, cursor, PAGE);
    AppendIncreasing(seen, page, cursor);
    forall k | k in page ensures like(k) {
      assert k in Wanted(table, like, cursor);
    }
    forall k | k in always && like(k) && Text.Less("", k) ensures k in seen + page {
      Text.Trichotomy(k, cursor);
      if !Text.AtMost(k, cursor) {
        PageCovers(table, like, cursor, PAGE, k);
      }
    }
  }

  /** The keys of a bounded key space that are still ahead of the cursor. */
  function Ahead(universe: set<string>, cursor: string): set<string> {
    set k | k in universe && Text.Less(cursor, k)
  }

  lemma CursorMoves(universe: set<string>, cursor: string, last: string)
    requires Text.Less(cursor, last) && last in universe
    ensures Ahead(universe, last) < Ahead(universe, cursor)
  {
    Text.Trichotomy(last, last);
    assert last in Ahead(universe, cursor) && last !in Ahead(universe, last);
    forall k | k in Ahead(universe, last) ensures k in Ahead(universe, cursor) {
      Text.Transitive(cursor, last, k);
    }
  }

  // ---- the migration scan ----------------------------------------------

  /** What the objects table holds when page `i` is read; nothing relates one page's table to the
      next but the bounded key space. */
  type Tables = nat -> map<string, string>

  /** The keys that are there whenever a page is read. */
  ghost function Always(universe: set<string>, tables: Tables, pages: nat): set<string> {
    set k | k in universe && forall i :: 0 <= i < pages ==> k in tables(i)
  }

  lemma AlwaysShrinks(universe: set<string>, tables: Tables, pages: nat)
    ensures Always(universe, tables, pages + 1) <= Always(universe, tables, pages)
    ensures Always(universe, tables, pages + 1) <= tables(pages).Keys
  {}

  lemma FewerRequired(seen: seq<string>, like: string -> bool, cursor: string, more: set<string>, fewer: set<string>)
    requires Scanned(seen, like, cursor, more) && fewer <= more
    ensures Scanned(seen, like, cursor, fewer)
  {}

  ghost predicate SeenInSomePage(seen: seq<string>, tables: Tables, pages: nat) {
    forall k :: k in seen ==> exists i :: 0 <= i < pages && k in tables(i)
  }

  lemma SeenGrows(seen: seq<string>, page: seq<string>, tables: Tables, pages: nat)
    requires SeenInSomePage(seen, tables, pages)
    requires forall k :: k in page ==> k in tables(pages)
    ensures SeenInSomePage(seen + page, tables, pages + 1)
  {
    forall k | k in seen + page ensures exists i :: 0 <= i < pages + 1 && k in tables(i) {
      if k in seen {
        var i :| 0 <= i < pages && k in tables(i);
      }
    }
  }

  /** The rows of a page that are stored at the source provider. */
  method Collect(page: seq<string>, table: map<string, string>, source: string) returns (out: seq<string>)
    requires Increasing(page) && forall k :: k in page ==> k in table
    ensures Increasing(out)
    ensures forall k :: k in out <==> k in page && table[k] == source
  {
    out := [];
    for i := 0 to |page|
      invariant Increasing(out)
      invariant forall k :: k in out <==> k in page[..i] && table[k] == source
    {
      if table[page[i]] == source {
        forall j | 0 <= j < |out| ensures Text.Less(out[j], page[i]) {
          assert out[j] in page[..i];
        }
        out := out + [page[i]];
      }
    }
    assert page[..|page|] == page;
  }

  predicate AlwaysAt(tables: Tables, pages: nat, key: string, source: string) {
    forall i :: 0 <= i < pages ==> key in tables(i) && tables(i)[key] == source
  }

  ghost predicate CollectedFrom(out: seq<string>, seen: seq<string>, tables: Tables, pages: nat, source: string) {
    && Increasing(out)
    && (forall k :: k in out ==> k in seen && exists i :: 0 <= i < pages && k in tables(i) && tables(i)[k] == source)
    && (forall k :: k in seen && AlwaysAt(tables, pages, k, source) ==> k in out)
  }

  lemma CollectedGrows(out: seq<string>, seen: seq<string>, tables: Tables, pages: nat, source: string,
                       page: seq<string>, more: seq<string>, cursor: string)
    requires CollectedFrom(out, seen, tables, pages, source)
    requires Increasing(more) && forall k :: k in more <==> (k in page && k in tables(pages)
        && tables(pages)[k] == source)
    requires forall k :: k in seen ==> Text.AtMost(k, cursor)
    requires forall k :: k in page ==> Text.Less(cursor, k)
    ensures CollectedFrom(out + more, seen + page, tables, pages + 1, source)
  {
    AppendIncreasing(out, more, cursor);
    forall k | k in out + more
      ensures k in seen + page && exists i :: 0 <= i < pages + 1 && k in tables(i) && tables(i)[k] == source
    {
      if k in out {
        var i :| 0 <= i < pages && k in tables(i) && tables(i)[k] == source;
      }
    }
    forall k | k in seen + page && AlwaysAt(tables, pages + 1, k, source) ensures k in out + more {
      assert AlwaysAt(tables, pages, k, source);
    }
  }

  /** The objects a migration will move. Whatever is inserted, deleted or moved between pages, the
      result has each key at most once, in order, from a page that had it at the source, and has
      every matching key that was at the source for all the pages. */
  method MigrationObjects(tables: Tables, universe: set<string>, like: string -> bool, source: string)
    returns (out: seq<string>, seen: seq<string>, pages: nat)
    requires forall i :: tables(i).Keys <= universe
    ensures Complete(seen, like, Always(universe, tables, pages)) && SeenInSomePage(seen, tables, pages)
    ensures CollectedFrom(out, seen, tables, pages, source)
  {
    var cursor := "";
    var more := true;
    out, seen, pages := [], [], 0;
    while more
      invariant SeenInSomePage(seen, tables, pages) && CollectedFrom(out, seen, tables, pages, source)
      invariant more ==> Scanned(seen, like, cursor, Always(universe, tables, pages))
      invariant !more ==> Complete(seen, like, Always(universe, tables, pages))
      decreases more, Ahead(universe, cursor)
    {
      var table := tables(pages).Keys;
      var catalog := new Catalog(table);
      var page := catalog.ListObjectsAfter(like, cursor, PAGE);
      PageSound(table, like, cursor, PAGE);
      SeenGrows(seen, page, tables, pages);
      var found := Collect(page, tables(pages), source);
      CollectedGrows(out, seen, tables, pages, source, page, found, cursor);
      AlwaysShrinks(universe, tables, pages);
      FewerRequired(seen, like, cursor, Always(universe, tables, pages), Always(universe, tables, pages + 1));
      if |page| < PAGE {
        ShortPage(seen, table, like, cursor, Always(universe, tables, pages + 1));
        more := false;
      } else {
        FullPage(seen, table, like, cursor, Always(universe, tables, pages + 1));
        assert page[PAGE - 1] in page;
        CursorMoves(universe, cursor, page[PAGE - 1]);
        cursor := page[PAGE - 1];
      }
      out, seen, pages := out + found, seen + page, pages + 1;
    }
  }

  // ---- the lifecycle scan ----------------------------------------------

  /** What happens at page `i`: what other requests removed and added before it, the keys that are
      old enough, and the keys whose deletion fails. */
  datatype Round = Round(expired: set<string>, failing: set<string>, gone: set<string>, born: set<string>)

  type Rounds = nat -> Round

  /** The keys there at the start that no other request removes. */
  ghost function Spared(start: set<string>, rounds: Rounds, pages: nat): set<string> {
    set k | k in start && forall i :: 0 <= i < pages ==> k !in rounds(i).gone
  }

  predicate Reborn(rounds: Rounds, pages: nat, key: string) {
    exists i :: 0 <= i < pages && key in rounds(i).born
  }

  predicate EverExpired(rounds: Rounds, pages: nat, key: string) {
    exists i :: 0 <= i < pages && key in rounds(i).expired
  }

  predicate EverFailing(rounds: Rounds, pages: nat, key: string) {
    exists i :: 0 <= i < pages && key in rounds(i).failing
  }

  predicate AlwaysExpired(rounds: Rounds, pages: nat, key: string) {
    forall i :: 0 <= i < pages ==> key in rounds(i).expired
  }

  /** Each key is checked against the rule's own prefix again, since the pattern may match more. */
  method ExpirePage(catalog: Catalog, page: seq<string>, prefix: string, round: Round)
    returns (deleted: set<string>, failed: set<string>)
    modifies catalog
    ensures deleted == set k | k in page && prefix <= k && k in round.expired && k !in round.failing
    ensures failed == set k | k in page && prefix <= k && k in round.expired && k in round.failing
    ensures catalog.keys == old(catalog.keys) - deleted
  {
    deleted, failed := {}, {};
    for i := 0 to |page|
      invariant deleted == set k | k in page[..i] && prefix <= k && k in round.expired && k !in round.failing
      invariant failed == set k | k in page[..i] && prefix <= k && k in round.expired && k in round.failing
      invariant catalog.keys == old(catalog.keys) - deleted
    {
      if prefix <= page[i] && page[i] in round.expired {
        if page[i] in round.failing {
          failed := failed + {page[i]};
        } else {
          catalog.keys := catalog.keys - {page[i]};
          deleted := deleted + {page[i]};
        }
      }
    }
    assert page[..|page|] == page;
  }

  /** What was done to the visited keys, and what is left in the table. */
  ghost predicate Handled(seen: seq<string>, prefix: string, deleted: set<string>, failed: set<string>, rounds: Rounds,
                          pages: nat) {
    && deleted !! failed
    && (forall k :: k in deleted + failed ==> k in seen && prefix <= k && EverExpired(rounds, pages, k))
    && (forall k :: k in failed ==> EverFailing(rounds, pages, k))
    && (forall k :: k in seen && prefix <= k && AlwaysExpired(rounds, pages, k) ==> k in deleted + failed)
  }

  ghost predicate Left(start: set<string>, keys: set<string>, deleted: set<string>, rounds: Rounds, pages: nat) {
    && (forall k :: k in deleted && !Reborn(rounds, pages, k) ==> k !in keys)
    && (forall k :: k in Spared(start, rounds, pages) && k !in deleted ==> k in keys)
  }

  lemma HandledGrows(seen: seq<string>, page: seq<string>, prefix: string, cursor: string, deleted: set<string>,
                     failed: set<string>, more: set<string>, stuck: set<string>, rounds: Rounds, pages: nat)
    requires Handled(seen, prefix, deleted, failed, rounds, pages)
    requires more == set k | k in page && prefix <= k && k in rounds(pages).expired && k !in rounds(pages).failing
    requires stuck == set k | k in page && prefix <= k && k in rounds(pages).expired && k in rounds(pages).failing
    requires forall k :: k in seen ==> Text.AtMost(k, cursor)
    requires forall k :: k in page ==> Text.Less(cursor, k)
    ensures Handled(seen + page, prefix, deleted + more, failed + stuck, rounds, pages + 1)
    ensures deleted !! more && failed !! stuck
  {
    forall k | k in page ensures k !in deleted + failed {
      if k in seen {
        Text.Trichotomy(k, cursor);
        assert false;
      }
    }
    forall k | k in (deleted + more) + (failed + stuck)
      ensures k in seen + page && prefix <= k && EverExpired(rounds, pages + 1, k)
    {
      if k in deleted + failed {
        EverLater(rounds, pages, k);
      } else {
        assert 0 <= pages < pages + 1 && k in rounds(pages).expired;
      }
    }
    forall k | k in failed + stuck ensures EverFailing(rounds, pages + 1, k) {
      if k in failed {
        EverLater(rounds, pages, k);
      } else {
        assert 0 <= pages < pages + 1 && k in rounds(pages).failing;
      }
    }
    forall k | k in seen + page && prefix <= k && AlwaysExpired(rounds, pages + 1, k)
      ensures k in (deleted + more) + (failed + stuck)
    {
      assert AlwaysExpired(rounds, pages, k) && k in rounds(pages).expired;
    }
  }

  lemma EverLater(rounds: Rounds, pages: nat, key: string)
    ensures EverExpired(rounds, pages, key) ==> EverExpired(rounds, pages + 1, key)
    ensures EverFailing(rounds, pages, key) ==> EverFailing(rounds, pages + 1, key)
  {
    if i :| 0 <= i < pages && key in rounds(i).expired {
      assert 0 <= i < pages + 1;
    }
    if i :| 0 <= i < pages && key in rounds(i).failing {
      assert 0 <= i < pages + 1;
    }
  }

  lemma LeftAfter(start: set<string>, keys: set<string>, deleted: set<string>, more: set<string>, rounds: Rounds,
                  pages: nat)
    requires Left(start, keys, deleted, rounds, pages)
    ensures Left(start, keys - rounds(pages).gone + rounds(pages).born - more, deleted + more, rounds, pages + 1)
  {
    forall k | !Reborn(rounds, pages + 1, k) ensures !Reborn(rounds, pages, k) && k !in rounds(pages).born {
      if i :| 0 <= i < pages && k in rounds(i).born {
        assert Reborn(rounds, pages + 1, k);
      }
    }
  }

  lemma SparedInReach(start: set<string>, keys: set<string>, seen: seq<string>, cursor: string, deleted: set<string>,
                      rounds: Rounds, pages: nat)
    requires Left(start, keys, deleted, rounds, pages)
    requires (forall k :: k in deleted ==> k in seen) && forall k :: k in seen ==> Text.AtMost(k, cursor)
    ensures InReach(Spared(start, rounds, pages + 1), cursor, keys - rounds(pages).gone + rounds(pages).born)
    ensures Spared(start, rounds, pages + 1) <= Spared(start, rounds, pages)
  {
    forall k | k in Spared(start, rounds, pages + 1) && Text.Less(cursor, k)
      ensures k in keys && k !in rounds(pages).gone
    {
      assert k in Spared(start, rounds, pages);
      if k in deleted {
        Text.Trichotomy(k, cursor);
        assert false;
      }
    }
  }

  /** One expiry rule over a bucket that others change meanwhile, and that it deletes from itself:
      every matching key that is there from the start and spared by others is visited, exactly
      once; visited keys are tried exactly when they have expired; the counts are those of the keys
      deleted and failed; and the deleted keys are gone while all other spared keys remain. */
  method ExpireRule(catalog: Catalog, universe: set<string>, like: string -> bool, prefix: string, rounds: Rounds)
    returns (expiredObjects: nat, failures: nat, ghost seen: seq<string>, deleted: set<string>, failed: set<string>,
             pages: nat)
    requires catalog.keys <= universe && forall i :: rounds(i).born <= universe
    modifies catalog
    ensures Complete(seen, like, Spared(old(catalog.keys), rounds, pages))
    ensures Handled(seen, prefix, deleted, failed, rounds, pages)
    ensures Left(old(catalog.keys), catalog.keys, deleted, rounds, pages)
    ensures expiredObjects == |deleted| && failures == |failed|
  {
    ghost var start := catalog.keys;
    var cursor := "";
    var more := true;
    expiredObjects, failures, seen, deleted, failed, pages := 0, 0, [], {}, {}, 0;
    while more
      invariant catalog.keys <= universe
      invariant expiredObjects == |deleted| && failures == |failed|
      invariant Handled(seen, prefix, deleted, failed, rounds, pages)
          && Left(start, catalog.keys, deleted, rounds, pages)
      invariant more ==> Scanned(seen, like, cursor, Spared(start, rounds, pages))
      invariant !more ==> Complete(seen, like, Spared(start, rounds, pages))
      decreases more, Ahead(universe, cursor)
    {
      SparedInReach(start, catalog.keys, seen, cursor, deleted, rounds, pages);
      FewerRequired(seen, like, cursor, Spared(start, rounds, pages), Spared(start, rounds, pages + 1));
      ghost var before := catalog.keys;
      catalog.keys := catalog.keys - rounds(pages).gone + rounds(pages).born;
      ghost var table := catalog.keys;
      var page := catalog.ListObjectsAfter(like, cursor, PAGE);
      PageSound(table, like, cursor, PAGE);
      var nowDeleted, nowFailed := ExpirePage(catalog, page, prefix, rounds(pages));
      HandledGrows(seen, page, prefix, cursor, deleted, failed, nowDeleted, nowFailed, rounds, pages);
      LeftAfter(start, before, deleted, nowDeleted, rounds, pages);
      if |page| < PAGE {
        ShortPage(seen, table, like, cursor, Spared(start, rounds, pages + 1));
        more := false;
      } else {
        FullPage(seen, table, like, cursor, Spared(start, rounds, pages + 1));
        assert page[PAGE - 1] in page;
        CursorMoves(universe, cursor, page[PAGE - 1]);
        cursor := page[PAGE - 1];
      }
      expiredObjects, failures := expiredObjects + |nowDeleted|, failures + |nowFailed|;
      deleted, failed := deleted + nowDeleted, failed + nowFailed;
      seen, pages := seen + page, pages + 1;
    }
  }

  /** What a rule is for: a key that was there, spared, expired throughout and never failing is
      deleted and gone. */
  lemma ExpiredKeysGo(start: set<string>, keys: set<string>, like: string -> bool, prefix: string, seen: seq<string>,
                      deleted: set<string>, failed: set<string>, rounds: Rounds, pages: nat, k: string)
    requires Complete(seen, like, Spared(start, rounds, pages))
    requires Handled(seen, prefix, deleted, failed, rounds, pages) && Left(start, keys, deleted, rounds, pages)
    requires k in Spared(start, rounds, pages) && like(k) && prefix <= k && Text.Less("", k)
    ensures AlwaysExpired(rounds, pages, k) && !EverFailing(rounds, pages, k) ==> k in deleted
    ensures (AlwaysExpired(rounds, pages, k) && !EverFailing(rounds, pages, k)
        && !Reborn(rounds, pages, k)) ==> k !in keys
    ensures !EverExpired(rounds, pages, k) ==> k in keys
  {}

  // ---- the purge loop --------------------------------------------------

  const PURGE_PAGE := 100

  /** Each round lists the first due rows by date, up to a page, and purges those that can be. */
  predicate FirstRows(page: set<string>, due: set<string>, limit: nat) {
    page <= due && |page| == if |due| < limit then |due| else limit
  }

  function DueAfter(due: set<string>, stuck: set<string>, pages: nat -> set<string>, n: nat): set<string> {
    if n == 0 then due else DueAfter(due, stuck, pages, n - 1) - (pages(n - 1) - stuck)
  }

  lemma Smaller(a: set<string>, b: set<string>)
    requires a <= b
    ensures |a| <= |b|
    ensures |a| == |b| ==> a == b
  {
    assert b == a + (b - a);
  }

  lemma {:induction false} StuckStays(due: set<string>, stuck: set<string>, pages: nat -> set<string>, n: nat)
    ensures due * stuck == DueAfter(due, stuck, pages, n) * stuck
  {
    if n > 0 {
      StuckStays(due, stuck, pages, n - 1);
    }
  }

  /** A full page holds a row that can be purged. */
  lemma RoundShrinks(due: set<string>, stuck: set<string>, page: set<string>)
    requires |due * stuck| < PURGE_PAGE && page <= due && |page| == PURGE_PAGE
    ensures |due - (page - stuck)| < |due|
  {
    if page <= stuck {
      Smaller(page, due * stuck);
    }
    Smaller(due - (page - stuck), due);
  }

  predicate FullRound(due: set<string>, stuck: set<string>, pages: nat -> set<string>, i: nat) {
    FirstRows(pages(i), DueAfter(due, stuck, pages, i), PURGE_PAGE) && |pages(i)| == PURGE_PAGE
  }

  lemma {:induction false} RoundsShrink(due: set<string>, stuck: set<string>, pages: nat -> set<string>, n: nat)
    requires |due * stuck| < PURGE_PAGE
    requires forall i :: 0 <= i < n ==> FullRound(due, stuck, pages, i)
    ensures |DueAfter(due, stuck, pages, n)| + n <= |due|
  {
    if n > 0 {
      RoundsShrink(due, stuck, pages, n - 1);
      var before := DueAfter(due, stuck, pages, n - 1);
      assert FullRound(due, stuck, pages, n - 1);
      StuckStays(due, stuck, pages, n - 1);
      RoundShrinks(before, stuck, pages(n - 1));
    }
  }

  /** The purge loop ends, at the first page that is not full, exactly when fewer rows than a page
      are due and cannot be purged; otherwise it asks for the same rows for ever. */
  lemma PurgeEndsExactly(due: set<string>, stuck: set<string>, pages: nat -> set<string>)
    requires forall i: nat :: FirstRows(pages(i), DueAfter(due, stuck, pages, i), PURGE_PAGE)
    ensures (exists i: nat :: |pages(i)| < PURGE_PAGE) <==> |due * stuck| < PURGE_PAGE
  {
    if |due * stuck| >= PURGE_PAGE {
      forall i: nat ensures |pages(i)| == PURGE_PAGE {
        StuckStays(due, stuck, pages, i);
        Smaller(DueAfter(due, stuck, pages, i) * stuck, DueAfter(due, stuck, pages, i));
        assert FirstRows(pages(i), DueAfter(due, stuck, pages, i), PURGE_PAGE);
      }
    } else if forall i: nat :: |pages(i)| >= PURGE_PAGE {
      forall i: nat ensures FullRound(due, stuck, pages, i) {
        assert FirstRows(pages(i), DueAfter(due, stuck, pages, i), PURGE_PAGE);
      }
      RoundsShrink(due, stuck, pages, |due| + 1);
      assert false;
    }
  }

  class Trash {
    var due: set<string>

    constructor (due: set<string>)
      ensures this.due == due
    {
      this.due := due;
    }

    /** The order of the listing is left open: any rows may come first. */
    method ListDue(limit: nat) returns (page: set<string>)
      ensures FirstRows(page, due, limit)
    {
      page := {};
      while |page| < limit && page != due
        invariant page <= due && |page| <= limit
        decreases limit - |page|
      {
        assert due == page + (due - page);
        var row :| row in due - page;
        page := page + {row};
      }
      Smaller(page, due);
    }

    /** Up to `rounds` rounds of the loop, which ends at a page that is not full. When it ends,
        exactly what cannot be purged remains; it ends in time if less than a page of that is due,
        and never otherwise. */
    method PurgeDue(stuck: set<string>, rounds: nat) returns (ended: bool, purged: set<string>, failures: nat)
      modifies this`due
      ensures due == old(due) - purged && purged <= old(due) - stuck
      ensures ended ==> due == old(due) * stuck && failures >= |due|
      ensures |old(due) * stuck| < PURGE_PAGE && rounds > |old(due)| ==> ended
      ensures |old(due) * stuck| >= PURGE_PAGE ==> !ended
    {
      ended, purged, failures := false, {}, 0;
      var round := 0;
      while round < rounds && !ended
        invariant round <= rounds && due == old(due) - purged && purged <= old(due) - stuck
        invariant ended ==> due == old(due) * stuck && failures >= |due| && |due| < PURGE_PAGE
        invariant |old(due) * stuck| < PURGE_PAGE && !ended ==> |due| + round <= |old(due)|
      {
        var page := ListDue(PURGE_PAGE);
        assert due * stuck == old(due) * stuck;
        Smaller(page, due);
        if |due * stuck| < PURGE_PAGE && |page| == PURGE_PAGE {
          RoundShrinks(due, stuck, page);
        }
        failures := failures + |page * stuck|;
        purged := purged + (page - stuck);
        due := due - (page - stuck);
        ended := |page| < PURGE_PAGE;
        if ended {
          assert due == page * stuck;
          Smaller(page * stuck, page);
        }
        round := round + 1;
      }
    }
  }
}
