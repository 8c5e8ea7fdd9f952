/** A stable sort by a strict weak order, standing for the library sorts the source calls. */
module Sorting {

  /** `before` is a strict order whose ties are a congruence. */
  ghost predicate WeakOrder<T(!new)>(before: (T, T) -> bool) {
    && (forall x :: !before(x, x))
    && (forall x, y :: before(x, y) ==> !before(y, x))
    && (forall x, y, z :: !before(y, x) && !before(z, y) ==> !before(z, x))
  }

  /** A weak order that tells any two different values apart. */
  ghost predicate TotalOrder<T(!new)>(before: (T, T) -> bool) {
    && WeakOrder(before)
    && forall x, y :: !before(x, y) && !before(y, x) ==> x == y
  }

  ghost predicate Sorted<T>(s: seq<T>, before: (T, T) -> bool) {
    forall i, j :: 0 <= i < j < |s| ==> !before(s[j], s[i])
  }

  function Insert<T>(x: T, s: seq<T>, before: (T, T) -> bool): (r: seq<T>)
    ensures multiset(r) == multiset(s) + multiset{x}
    ensures |r| == |s| + 1
  {
    if s == [] || !before(s[0], x) then [x] + s else
      assert s == [s[0]] + s[1..];
      [s[0]] + Insert(x, s[1..], before)
  }

  function Sort<T>(s: seq<T>, before: (T, T) -> bool): (r: seq<T>)
    ensures multiset(r) == multiset(s)
    ensures |r| == |s|
  {
    if s == [] then [] else
      assert s == [s[0]] + s[1..];
      Insert(s[0], Sort(s[1..], before), before)
  }

  lemma {:induction false} InsertSorted<T(!new)>(x: T, s: seq<T>, before: (T, T) -> bool)
    requires WeakOrder(before) && Sorted(s, before)
    ensures Sorted(Insert(x, s, before), before)
  {
    if s != [] && before(s[0], x) {
      InsertSorted(x, s[1..], before);
      var t := Insert(x, s[1..], before);
      forall j | 0 <= j < |t| ensures !before(t[j], s[0]) {
        assert t[j] in multiset(t);
        assert t[j] == x || t[j] in s[1..];
      }
    }
  }

  lemma {:induction false} SortSorted<T(!new)>(s: seq<T>, before: (T, T) -> bool)
    requires WeakOrder(before)
    ensures Sorted(Sort(s, before), before)
  {
    if s != [] {
      SortSorted(s[1..], before);
      InsertSorted(s[0], Sort(s[1..], before), before);
    }
  }

  lemma SameFirst<T(!new)>(s: seq<T>, t: seq<T>, before: (T, T) -> bool)
    requires TotalOrder(before) && Sorted(s, before) && Sorted(t, before)
    requires multiset(s) == multiset(t) && s != [] && t != []
    ensures s[0] == t[0]
  {
    assert s[0] in multiset(t) && t[0] in multiset(s);
    var i :| 0 <= i < |t| && t[i] == s[0];
    var j :| 0 <= j < |s| && s[j] == t[0];
  }

  lemma SameRest<T>(s: seq<T>, t: seq<T>)
    requires multiset(s) == multiset(t) && s != [] && t != [] && s[0] == t[0]
    ensures multiset(s[1..]) == multiset(t[1..])
  {
    assert s == [s[0]] + s[1..] && t == [t[0]] + t[1..];
    assert multiset(s[1..]) == multiset(s) - multiset{s[0]} == multiset(t[1..]);
  }

  /** Under a total order two sorted arrangements of the same values are the same. */
  lemma {:induction false} SortedUnique<T(!new)>(s: seq<T>, t: seq<T>, before: (T, T) -> bool)
    requires TotalOrder(before) && Sorted(s, before) && Sorted(t, before)
    requires multiset(s) == multiset(t)
    ensures s == t
  {
    assert |multiset(s)| == |s| && |multiset(t)| == |t|;
    if s != [] {
      SameFirst(s, t, before);
      SameRest(s, t);
      SortedUnique(s[1..], t[1..], before);
      assert s == [s[0]] + s[1..] && t == [t[0]] + t[1..];
    }
  }

  /** The first k of an insertion, when the list already holds k. */
  lemma {:induction false} InsertTake<T(!new)>(x: T, s: seq<T>, k: nat, before: (T, T) -> bool)
    requires WeakOrder(before) && Sorted(s, before)
    requires 1 <= k <= |s|
    ensures before(x, s[k - 1]) ==> Insert(x, s, before)[..k] == Insert(x, s[..k - 1], before)
    ensures before(s[k - 1], x) ==> Insert(x, s, before)[..k] == s[..k]
  {
    if before(s[0], x) {
      if k > 1 {
        InsertTake(x, s[1..], k - 1, before);
        assert s[..k - 1] == [s[0]] + s[1..][..k - 2];
        assert s[..k - 1][1..] == s[1..][..k - 2];
        assert s[..k] == [s[0]] + s[1..][..k - 1];
        assert Insert(x, s, before)[..k] == [s[0]] + Insert(x, s[1..], before)[..k - 1];
      }
    } else {
      assert Insert(x, s, before)[..k] == [x] + s[..k - 1];
    }
  }

  // ---- the first k of a sorted list, kept in a buffer in any order ------

  function Take<T>(s: seq<T>, k: nat): seq<T> {
    if |s| <= k then s else s[..k]
  }

  lemma SortAppend<T(!new)>(s: seq<T>, c: T, before: (T, T) -> bool)
    requires TotalOrder(before)
    ensures Sorted(Sort(s, before), before)
    ensures Sort(s + [c], before) == Insert(c, Sort(s, before), before)
  {
    SortSorted(s, before);
    SortSorted(s + [c], before);
    InsertSorted(c, Sort(s, before), before);
    SortedUnique(Sort(s + [c], before), Insert(c, Sort(s, before), before), before);
  }

  lemma SortArranges<T(!new)>(results: seq<T>, s: seq<T>, limit: nat, before: (T, T) -> bool)
    requires TotalOrder(before)
    requires multiset(results) == multiset(Take(Sort(s, before), limit))
    ensures Sort(results, before) == Take(Sort(s, before), limit)
  {
    SortSorted(s, before);
    SortSorted(results, before);
    SortedUnique(Sort(results, before), Take(Sort(s, before), limit), before);
  }

  /** The worst of any arrangement of a sorted list is the list's last element. */
  lemma WorstIsLast<T(!new)>(results: seq<T>, top: seq<T>, worst: nat, before: (T, T) -> bool)
    requires TotalOrder(before)
    requires Sorted(top, before) && multiset(results) == multiset(top)
    requires WorstAt(results, worst, before)
    ensures top != [] && results[worst] == top[|top| - 1]
  {
    assert results[worst] in multiset(top);
    var last := top[|top| - 1];
    assert last in multiset(results);
    var i :| 0 <= i < |results| && results[i] == last;
    var j :| 0 <= j < |top| && top[j] == results[worst];
  }

  /** Inserting into a sorted list changes its first `limit` only by pushing out the last of them. */
  lemma InsertBest<T(!new)>(c: T, sorted: seq<T>, limit: nat, before: (T, T) -> bool)
    requires TotalOrder(before)
    requires Sorted(sorted, before) && 1 <= limit <= |sorted|
    ensures before(c, sorted[limit - 1])
        ==> Insert(c, sorted, before)[..limit] == Insert(c, sorted[..limit - 1], before)
    ensures !before(c, sorted[limit - 1]) ==> Insert(c, sorted, before)[..limit] == sorted[..limit]
  {
    InsertTake(c, sorted, limit, before);
    if c == sorted[limit - 1] {
      TieKeepsTop(c, sorted, limit, before);
    }
  }

  /** A second copy of the last kept row changes nothing. */
  lemma {:induction false} TieKeepsTop<T(!new)>(c: T, s: seq<T>, limit: nat, before: (T, T) -> bool)
    requires TotalOrder(before)
    requires Sorted(s, before) && 1 <= limit <= |s| && s[limit - 1] == c
    ensures Insert(c, s, before)[..limit] == s[..limit]
  {
    if before(s[0], c) {
      TieKeepsTop(c, s[1..], limit - 1, before);
      assert s[..limit] == [s[0]] + s[1..][..limit - 1];
    } else {
      assert forall i :: 0 <= i < limit ==> s[i] == c;
    }
  }

  /** Swapping the last of a list for another value, in any arrangement of the list. */
  lemma SwapLast<T>(results: seq<T>, top: seq<T>, worst: nat, c: T, before: (T, T) -> bool)
    requires worst < |results| && top != [] && results[worst] == top[|top| - 1]
    requires multiset(results) == multiset(top)
    ensures multiset(results[worst := c]) == multiset(Insert(c, top[..|top| - 1], before))
  {
    assert top == top[..|top| - 1] + [top[|top| - 1]];
  }

  ghost predicate WorstAt<T>(results: seq<T>, worst: nat, before: (T, T) -> bool) {
    worst < |results| && forall i :: 0 <= i < |results| ==> !before(results[worst], results[i])
  }

  /** One more candidate against a full buffer: replacing the worst row keeps the best `limit`. */
  lemma ReplaceWorst<T(!new)>(results: seq<T>, sorted: seq<T>, c: T, limit: nat, worst: nat, before: (T, T) -> bool)
    requires TotalOrder(before)
    requires Sorted(sorted, before) && 1 <= limit <= |sorted|
    requires multiset(results) == multiset(sorted[..limit])
    requires WorstAt(results, worst, before)
    ensures before(c, results[worst]) ==> multiset(results[worst := c]) == multiset(Insert(c, sorted, before)[..limit])
    ensures !before(c, results[worst]) ==> multiset(results) == multiset(Insert(c, sorted, before)[..limit])
  {
    var top := sorted[..limit];
    WorstIsLast(results, top, worst, before);
    SwapLast(results, top, worst, c, before);
    assert top[..limit - 1] == sorted[..limit - 1];
    InsertBest(c, sorted, limit, before);
  }
}
