/** Key listings: one page of the ordered listing, and the gateway's walk by continuation token. */
module Listing {
  import opened Common
  import opened Sorting
  import Text

  ghost predicate Increasing(s: seq<string>) {
    forall i, j :: 0 <= i < j < |s| ==> Text.Less(s[i], s[j])
  }

  ghost predicate Lists(s: seq<string>, keys: set<string>) {
    Increasing(s) && forall k :: k in s <==> k in keys
  }

  ghost function Least(keys: set<string>): (least: string)
    requires keys != {}
    ensures least in keys && forall k :: k in keys ==> Text.AtMost(least, k)
  {
    var k :| k in keys;
    if keys == {k} then k else
      var m := Least(keys - {k});
      Text.Trichotomy(k, m);
      LeastOfTwo(keys, k, m);
      if Text.Less(k, m) then k else m
  }

  lemma LeastOfTwo(keys: set<string>, k: string, m: string)
    requires k in keys && m in keys && forall other :: other in keys - {k} ==> Text.AtMost(m, other)
    ensures Text.Less(k, m) ==> forall other :: other in keys ==> Text.AtMost(k, other)
    ensures !Text.Less(k, m) ==> forall other :: other in keys ==> Text.AtMost(m, other)
  {
    Text.Trichotomy(k, m);
    if Text.Less(k, m) {
      forall other | other in keys - {k} ensures Text.AtMost(k, other) {
        Text.AtMostTransitive(k, m, other);
      }
    }
  }

  /** The keys in ascending byte order. */
  ghost function Ascending(keys: set<string>): (s: seq<string>)
    ensures |s| == |keys|
  {
    if keys == {} then [] else [Least(keys)] + Ascending(keys - {Least(keys)})
  }

  lemma {:induction false} AscendingLists(keys: set<string>)
    ensures Lists(Ascending(keys), keys)
  {
    if keys != {} {
      var least, rest := Least(keys), Ascending(keys - {Least(keys)});
      AscendingLists(keys - {least});
      forall j | 0 <= j < |rest| ensures Text.Less(least, rest[j]) {
        assert rest[j] in keys - {least};
      }
    }
  }

  /** A set of keys has one ascending listing. */
  lemma {:induction false} ListsUnique(s: seq<string>, t: seq<string>, keys: set<string>)
    requires Lists(s, keys) && Lists(t, keys)
    ensures s == t
  {
    EmptyLists(s, keys);
    EmptyLists(t, keys);
    if s != [] {
      FirstIsLeast(s, keys);
      FirstIsLeast(t, keys);
      Text.Trichotomy(s[0], t[0]);
      ListsTail(s, keys);
      ListsTail(t, keys);
      ListsUnique(s[1..], t[1..], keys - {s[0]});
      assert s == [s[0]] + s[1..] && t == [t[0]] + t[1..];
    }
  }

  lemma EmptyLists(s: seq<string>, keys: set<string>)
    requires Lists(s, keys)
    ensures s == [] <==> keys == {}
  {
    if s != [] {
      assert s[0] in keys;
    }
  }

  lemma FirstIsLeast(s: seq<string>, keys: set<string>)
    requires Lists(s, keys) && s != []
    ensures s[0] in keys && forall k :: k in keys ==> Text.AtMost(s[0], k)
  {
    forall k | k in keys ensures Text.AtMost(s[0], k) {
      assert k in s;
    }
  }

  lemma ListsTail(s: seq<string>, keys: set<string>)
    requires Lists(s, keys) && s != []
    ensures Lists(s[1..], keys - {s[0]})
  {
    Text.Trichotomy(s[0], s[0]);
    assert s[0] !in s[1..];
    assert s == [s[0]] + s[1..];
  }

  // ---- pages -----------------------------------------------------------

  /** `like` is the database's match of a key against the prefix pattern. */
  function Wanted(table: set<string>, like: string -> bool, after: string): set<string> {
    set k | k in table && like(k) && Text.Less(after, k)
  }

  function PageLimit(limit: int): nat {
    if limit <= 0 || limit > 1001 then 1000 else limit
  }

  ghost function Page(table: set<string>, like: string -> bool, after: string, limit: int): seq<string> {
    Take(Ascending(Wanted(table, like, after)), PageLimit(limit))
  }

  /** What a page leaves out comes after everything it holds, and only a full page leaves
      anything out. */
  lemma PageCovers(table: set<string>, like: string -> bool, after: string, limit: int, k: string)
    requires k in Wanted(table, like, after)
    ensures var page := Page(table, like, after, limit);
            k in page || (|page| == PageLimit(limit) && Text.Less(page[|page| - 1], k))
  {
    var all := Ascending(Wanted(table, like, after));
    AscendingLists(Wanted(table, like, after));
    var i :| 0 <= i < |all| && all[i] == k;
    if i < PageLimit(limit) {
      assert Take(all, PageLimit(limit))[i] == k;
    }
  }

  lemma PageSound(table: set<string>, like: string -> bool, after: string, limit: int)
    ensures Increasing(Page(table, like, after, limit))
    ensures |Page(table, like, after, limit)| <= PageLimit(limit)
    ensures forall k :: k in Page(table, like, after, limit) ==> k in Wanted(table, like, after)
  {
    AscendingLists(Wanted(table, like, after));
  }

  /** Listing again after any listed key gives exactly the rest. */
  lemma CursorResumes(table: set<string>, like: string -> bool, after: string, i: nat)
    requires i < |Ascending(Wanted(table, like, after))|
    ensures var all := Ascending(Wanted(table, like, after)); Ascending(Wanted(table, like, all[i])) == all[i + 1..]
  {
    var wanted := Wanted(table, like, after);
    var all := Ascending(wanted);
    AscendingLists(wanted);
    assert all[i] in wanted;
    var rest := Wanted(table, like, all[i]);
    forall k ensures k in all[i + 1..] <==> k in rest {
      RestAfter(table, like, after, all, i, k);
    }
    AscendingLists(rest);
    ListsUnique(Ascending(rest), all[i + 1..], rest);
  }

  lemma RestAfter(table: set<string>, like: string -> bool, after: string, all: seq<string>, i: nat, k: string)
    requires Lists(all, Wanted(table, like, after)) && i < |all|
    ensures k in all[i + 1..] <==> k in Wanted(table, like, all[i])
  {
    if k in all[i + 1..] {
      var j :| i < j < |all| && all[j] == k;
      assert k in Wanted(table, like, after);
    }
    if k in Wanted(table, like, all[i]) {
      assert all[i] in Wanted(table, like, after);
      Text.Transitive(after, all[i], k);
      assert k in all;
      var j :| 0 <= j < |all| && all[j] == k;
      if j <= i {
        Text.Trichotomy(all[j], all[i]);
        assert false;
      }
      assert all[i + 1..][j - i - 1] == k;
    }
  }

  class Catalog {
    var keys: set<string>

    constructor (keys: set<string>)
      ensures this.keys == keys
    {
      this.keys := keys;
    }

    method LeastKey(candidates: set<string>) returns (least: string)
      requires candidates != {}
      ensures least == Least(candidates)
    {
      least :| least in candidates;
      var left := candidates - {least};
      while left != {}
        invariant least in candidates && left <= candidates
        invariant forall k :: k in candidates - left ==> Text.AtMost(least, k)
      {
        var next :| next in left;
        Text.Trichotomy(least, next);
        if Text.Less(next, least) {
          forall k | k in candidates - left ensures Text.AtMost(next, k) {
            Text.AtMostTransitive(next, least, k);
          }
          least := next;
        }
        left := left - {next};
      }
      assert Least(candidates) in candidates - left;
      Text.Trichotomy(least, Least(candidates));
    }

    method ListObjectsAfter(like: string -> bool, startAfter: string, limit: int) returns (page: seq<string>)
      ensures page == Page(keys, like, startAfter, limit)
    {
      var bound := limit;
      if bound <= 0 || bound > 1001 {
        bound := 1000;
      }
      page := FirstOf(Wanted(keys, like, startAfter), bound);
    }

    method FirstOf(wanted: set<string>, bound: nat) returns (page: seq<string>)
      ensures page == Take(Ascending(wanted), bound)
    {
      var left := wanted;
      page := [];
      while left != {} && |page| < bound
        invariant |page| <= bound
        invariant page + Ascending(left) == Ascending(wanted)
        decreases left
      {
        var least := LeastKey(left);
        ghost var rest := Ascending(left - {least});
        assert page + ([least] + rest) == (page + [least]) + rest;
        page := page + [least];
        left := left - {least};
      }
      assert (page + Ascending(left))[..|page|] == page;
    }
  }

  // ---- the gateway -----------------------------------------------------

  function LimitOrDefault(limit: int): nat {
    if limit <= 0 || limit > 1000 then 1000 else limit
  }

  /** A page size from 1 to 1000 is taken as asked, anything else as 1000. */
  lemma PageSizeExactly(asked: int)
    ensures LimitOrDefault(asked) == asked <==> 1 <= asked <= 1000
    ensures LimitOrDefault(asked) != asked ==> LimitOrDefault(asked) == 1000
  {}

  /** One response: at most the limit, truncated exactly when more is wanted, and then carrying
      the last returned key as the continuation token. */
  method ListObjects(catalog: Catalog, like: string -> bool, startAfter: string, maxKeys: int)
    returns (contents: seq<string>, truncated: bool, token: string)
    ensures IsResponse(catalog.keys, like, startAfter, LimitOrDefault(maxKeys), contents, truncated, token)
  {
    contents, truncated, token := ListBounded(catalog, like, startAfter, LimitOrDefault(maxKeys));
  }

  /** At most the limit, truncated exactly when more is wanted, and then with the last key as token. */
  ghost predicate IsResponse(table: set<string>, like: string -> bool, after: string, limit: nat,
                             contents: seq<string>, truncated: bool, token: string) {
    && contents == Take(Ascending(Wanted(table, like, after)), limit)
    && (truncated <==> |Wanted(table, like, after)| > limit)
    && (truncated ==> contents != [] && token == contents[|contents| - 1])
  }

  /** Asks for one key more than the limit, to know whether there are more. */
  method ListBounded(catalog: Catalog, like: string -> bool, startAfter: string, limit: nat)
    returns (contents: seq<string>, truncated: bool, token: string)
    requires 1 <= limit <= 1000
    ensures IsResponse(catalog.keys, like, startAfter, limit, contents, truncated, token)
  {
    contents := catalog.ListObjectsAfter(like, startAfter, limit + 1);
    truncated := |contents| > limit;
    token := "";
    if truncated {
      contents := contents[..limit];
      token := contents[|contents| - 1];
    }
  }

  function Flatten(pages: seq<seq<string>>): seq<string> {
    if pages == [] then [] else Flatten(pages[..|pages| - 1]) + pages[|pages| - 1]
  }

  /** What is left to list after one full page. */
  lemma NextPage(table: set<string>, like: string -> bool, after: string, limit: nat)
    requires 0 < limit < |Wanted(table, like, after)|
    ensures var all, last := Ascending(Wanted(table, like, after)), Ascending(Wanted(table, like, after))[limit - 1];
            all == Take(all, limit) + Ascending(Wanted(table, like, last)) && last == Take(all, limit)[limit - 1]
    ensures var last := Ascending(Wanted(table, like, after))[limit - 1];
            |Wanted(table, like, last)| < |Wanted(table, like, after)|
  {
    CursorResumes(table, like, after, limit - 1);
  }

  lemma AppendPage(pages: seq<seq<string>>, page: seq<string>, rest: seq<string>)
    ensures Flatten(pages + [page]) == Flatten(pages) + page
    ensures Flatten(pages) + (page + rest) == Flatten(pages + [page]) + rest
  {
    assert (pages + [page])[..|pages|] == pages;
  }

  ghost predicate Covers(pages: seq<seq<string>>, rest: set<string>, wanted: set<string>) {
    Flatten(pages) + Ascending(rest) == Ascending(wanted)
  }

  ghost predicate FullPages(pages: seq<seq<string>>, limit: nat) {
    forall i :: 0 <= i < |pages| ==> |pages[i]| == limit
  }

  /** One response of the walk: either a full page, and less to come, or the last page. */
  lemma TokenStep(table: set<string>, like: string -> bool, after: string, limit: nat, pages: seq<seq<string>>,
                  contents: seq<string>, wanted: set<string>)
    requires limit > 0 && Covers(pages, Wanted(table, like, after), wanted)
    requires contents == Take(Ascending(Wanted(table, like, after)), limit)
    ensures |Wanted(table, like, after)| <= limit ==> (Flatten(pages + [contents]) == Ascending(wanted)
        && |contents| <= limit)
    ensures |Wanted(table, like, after)| > limit ==> (|contents| == limit
        && Covers(pages + [contents], Wanted(table, like, contents[limit - 1]), wanted))
    ensures |Wanted(table, like, after)| > limit
        ==> |Wanted(table, like, contents[limit - 1])| < |Wanted(table, like, after)|
  {
    if |Wanted(table, like, after)| > limit {
      NextPage(table, like, after, limit);
      AppendPage(pages, contents, Ascending(Wanted(table, like, contents[limit - 1])));
    } else {
      AppendPage(pages, contents, []);
    }
  }

  lemma FullPageMore(pages: seq<seq<string>>, contents: seq<string>, limit: nat)
    requires FullPages(pages, limit) && |contents| == limit
    ensures FullPages(pages + [contents], limit)
  {}

  lemma LastPage(table: set<string>, like: string -> bool, after: string, limit: nat, pages: seq<seq<string>>,
                 contents: seq<string>, wanted: set<string>)
    requires limit > 0 && Covers(pages, Wanted(table, like, after), wanted) && FullPages(pages, limit)
    requires contents == Take(Ascending(Wanted(table, like, after)), limit) && |Wanted(table, like, after)| <= limit
    ensures var all := pages + [contents];
            Flatten(all) == Ascending(wanted) && |all[|all| - 1]| <= limit && FullPages(all[..|all| - 1], limit)
  {
    TokenStep(table, like, after, limit, pages, contents, wanted);
    assert (pages + [contents])[..|pages|] == pages;
  }

  /** A client that follows the tokens over a listing that does not change sees every wanted key
      once, in order, in full pages and one last page. */
  method FollowTokens(catalog: Catalog, like: string -> bool, startAfter: string, maxKeys: int)
    returns (pages: seq<seq<string>>)
    ensures Flatten(pages) == Ascending(Wanted(catalog.keys, like, startAfter))
    ensures pages != [] && |pages[|pages| - 1]| <= LimitOrDefault(maxKeys)
    ensures forall i :: 0 <= i < |pages| - 1 ==> |pages[i]| == LimitOrDefault(maxKeys)
  {
    pages := FollowBounded(catalog, like, startAfter, LimitOrDefault(maxKeys));
  }

  method FollowBounded(catalog: Catalog, like: string -> bool, startAfter: string, limit: nat)
    returns (pages: seq<seq<string>>)
    requires 1 <= limit <= 1000
    ensures Flatten(pages) == Ascending(Wanted(catalog.keys, like, startAfter))
    ensures pages != [] && |pages[|pages| - 1]| <= limit && FullPages(pages[..|pages| - 1], limit)
  {
    ghost var wanted := Wanted(catalog.keys, like, startAfter);
    var after := startAfter;
    pages := [];
    var contents, truncated, token := ListBounded(catalog, like, after, limit);
    while truncated
      invariant FullPages(pages, limit) && Covers(pages, Wanted(catalog.keys, like, after), wanted)
      invariant IsResponse(catalog.keys, like, after, limit, contents, truncated, token)
      decreases |Wanted(catalog.keys, like, after)|
    {
      TokenStep(catalog.keys, like, after, limit, pages, contents, wanted);
      FullPageMore(pages, contents, limit);
      pages, after := pages + [contents], token;
      contents, truncated, token := ListBounded(catalog, like, after, limit);
    }
    LastPage(catalog.keys, like, after, limit, pages, contents, wanted);
    pages := pages + [contents];
  }

  // ---- grouping by delimiter -------------------------------------------

  function TrimPrefix(key: string, prefix: string): string {
    if prefix <= key then key[|prefix|..] else key
  }

  predicate Occurs(s: string, delimiter: string, i: int) {
    0 <= i <= |s| && delimiter <= s[i..]
  }

  lemma OccursAtStart(s: string, delimiter: string)
    ensures Occurs(s, delimiter, 0) <==> delimiter <= s
  {
    assert s[0..] == s;
  }

  lemma OccursInTail(s: string, delimiter: string, i: int)
    requires s != [] && i >= 1
    ensures Occurs(s, delimiter, i) <==> Occurs(s[1..], delimiter, i - 1)
  {
    if i <= |s| {
      assert s[i..] == s[1..][i - 1..];
    }
  }

  /** Where the delimiter first occurs. */
  function Index(s: string, delimiter: string): Option<nat> {
    if delimiter <= s then Some(0)
    else if s == "" then None
    else
      var rest := Index(s[1..], delimiter);
      if rest.Some? then Some(rest.value + 1) else None
  }

  lemma {:induction false} IndexIsFirst(s: string, delimiter: string)
    ensures var i := Index(s, delimiter);
            if i.Some? then Occurs(s, delimiter, i.value) && forall j :: 0 <= j < i.value ==> !Occurs(s, delimiter, j)
            else forall j :: !Occurs(s, delimiter, j)
  {
    OccursAtStart(s, delimiter);
    if !(delimiter <= s) && s != "" {
      IndexIsFirst(s[1..], delimiter);
      forall j | 1 <= j ensures Occurs(s, delimiter, j) <==> Occurs(s[1..], delimiter, j - 1) {
        OccursInTail(s, delimiter, j);
      }
    }
  }

  /** The common prefix that stands for a key, if the delimiter occurs after the asked prefix. */
  function GroupOf(key: string, prefix: string, delimiter: string): Option<string> {
    var rest := TrimPrefix(key, prefix);
    IndexIsFirst(rest, delimiter);
    if delimiter == "" || Index(rest, delimiter).None? then None
    else Some(prefix + rest[..Index(rest, delimiter).value + |delimiter|])
  }

  /** A key is grouped exactly if the delimiter occurs after the asked prefix; its group is the key up to
      the end of the first occurrence. */
  lemma GroupMeans(key: string, prefix: string, delimiter: string)
    requires prefix <= key
    ensures GroupOf(key, prefix, delimiter).Some?
       <==> delimiter != "" && exists i :: Occurs(key[|prefix|..], delimiter, i)
    ensures GroupOf(key, prefix, delimiter).Some? ==>
              (var group := GroupOf(key, prefix, delimiter).value;
               var start := |group| - |delimiter|;
               && prefix <= group <= key && start >= |prefix| && group[start..] == delimiter
               && forall j :: 0 <= j < start - |prefix| ==> !Occurs(key[|prefix|..], delimiter, j))
  {
    var rest := key[|prefix|..];
    IndexIsFirst(rest, delimiter);
    assert key == prefix + rest;
    if delimiter != "" && Index(rest, delimiter).Some? {
      var i := Index(rest, delimiter).value;
      assert Occurs(rest, delimiter, i) && rest[i..][..|delimiter|] == delimiter;
      assert rest[..i + |delimiter|] == rest[..i] + delimiter;
    }
  }

  function Single(keys: seq<string>, prefix: string, delimiter: string): (r: seq<string>)
    ensures |r| <= |keys|
  {
    if keys == [] then [] else
      var last := keys[|keys| - 1];
      Single(keys[..|keys| - 1], prefix, delimiter) + if GroupOf(last, prefix, delimiter).None? then [last] else []
  }

  function Groups(keys: seq<string>, prefix: string, delimiter: string): set<string> {
    set k | k in keys && GroupOf(k, prefix, delimiter).Some? :: GroupOf(k, prefix, delimiter).value
  }

  lemma GroupStep(keys: seq<string>, key: string, prefix: string, delimiter: string)
    ensures Single(keys + [key], prefix, delimiter)
         == Single(keys, prefix, delimiter) + (if GroupOf(key, prefix, delimiter).None? then [key] else [])
    ensures Groups(keys + [key], prefix, delimiter) == Groups(keys, prefix, delimiter)
         + (if GroupOf(key, prefix, delimiter).None? then {} else {GroupOf(key, prefix, delimiter).value})
  {
    var all := keys + [key];
    assert all[..|keys|] == keys;
    assert forall k :: k in all <==> k in keys || k == key;
    forall g | g in Groups(keys, prefix, delimiter) ensures g in Groups(all, prefix, delimiter) {
      var k :| k in keys && GroupOf(k, prefix, delimiter) == Some(g);
      assert k in all;
    }
    if GroupOf(key, prefix, delimiter).Some? {
      assert key in all;
    }
  }

  method GroupKey(key: string, prefix: string, delimiter: string) returns (group: Option<string>)
    ensures group == GroupOf(key, prefix, delimiter)
  {
    if delimiter == "" {
      return None;
    }
    var rest := TrimPrefix(key, prefix);
    var index := Index(rest, delimiter);
    IndexIsFirst(rest, delimiter);
    if index.None? {
      return None;
    }
    return Some(prefix + rest[..index.value + |delimiter|]);
  }

  /** What grouping has made of the keys read so far. */
  ghost predicate Grouped(keys: seq<string>, prefix: string, delimiter: string, single: seq<string>,
                          groups: set<string>) {
    && single == Single(keys, prefix, delimiter) && groups == Groups(keys, prefix, delimiter)
    && |single| + |groups| <= |keys|
  }

  method GroupNext(ghost keys: seq<string>, key: string, prefix: string, delimiter: string, single: seq<string>,
                   groups: set<string>)
    returns (moreSingle: seq<string>, moreGroups: set<string>)
    requires Grouped(keys, prefix, delimiter, single, groups)
    ensures Grouped(keys + [key], prefix, delimiter, moreSingle, moreGroups)
  {
    GroupStep(keys, key, prefix, delimiter);
    var group := GroupKey(key, prefix, delimiter);
    moreSingle, moreGroups := single, groups;
    match group {
      case Some(g) => moreGroups := groups + {g};
      case None => moreSingle := single + [key];
    }
  }

  /** The entries and sorted common prefixes of one response: together they stand for every key of
      the page, and there are no more of them than keys. */
  method GroupPage(page: seq<string>, prefix: string, delimiter: string)
    returns (single: seq<string>, common: seq<string>)
    ensures single == Single(page, prefix, delimiter)
    ensures common == Ascending(Groups(page, prefix, delimiter))
    ensures |single| + |common| <= |page|
  {
    single := [];
    var groups: set<string> := {};
    for i := 0 to |page|
      invariant Grouped(page[..i], prefix, delimiter, single, groups)
    {
      assert page[..i + 1] == page[..i] + [page[i]];
      single, groups := GroupNext(page[..i], page[i], prefix, delimiter, single, groups);
    }
    assert page[..|page|] == page;
    var catalog := new Catalog(groups);
    common := catalog.FirstOf(groups, |groups|);
  }

  function SingleOfPages(pages: seq<seq<string>>, prefix: string, delimiter: string): seq<string> {
    if pages == [] then []
    else SingleOfPages(pages[..|pages| - 1], prefix, delimiter) + Single(pages[|pages| - 1], prefix, delimiter)
  }

  function GroupsOfPages(pages: seq<seq<string>>, prefix: string, delimiter: string): set<string> {
    if pages == [] then {}
    else GroupsOfPages(pages[..|pages| - 1], prefix, delimiter) + Groups(pages[|pages| - 1], prefix, delimiter)
  }

  lemma {:induction false} GroupAppend(keys: seq<string>, page: seq<string>, prefix: string, delimiter: string)
    ensures Single(keys + page, prefix, delimiter) == Single(keys, prefix, delimiter) + Single(page, prefix, delimiter)
    ensures Groups(keys + page, prefix, delimiter) == Groups(keys, prefix, delimiter) + Groups(page, prefix, delimiter)
  {
    if page == [] {
      assert keys + page == keys;
    } else {
      var init, last := page[..|page| - 1], page[|page| - 1];
      assert page == init + [last] && keys + page == (keys + init) + [last];
      GroupAppend(keys, init, prefix, delimiter);
      GroupStep(keys + init, last, prefix, delimiter);
      GroupStep(init, last, prefix, delimiter);
    }
  }

  /** Grouping page by page shows a client that follows the tokens the same entries, once and in
      order, and the same common prefixes as grouping the whole listing. */
  lemma {:induction false} GroupedWalk(pages: seq<seq<string>>, prefix: string, delimiter: string)
    ensures SingleOfPages(pages, prefix, delimiter) == Single(Flatten(pages), prefix, delimiter)
    ensures GroupsOfPages(pages, prefix, delimiter) == Groups(Flatten(pages), prefix, delimiter)
  {
    if pages != [] {
      GroupedWalk(pages[..|pages| - 1], prefix, delimiter);
      GroupAppend(Flatten(pages[..|pages| - 1]), pages[|pages| - 1], prefix, delimiter);
    }
  }
}
