/**
 * Ordering of search results: the comparator `search` hands to the array
 * sort, the order it induces, and a sort by that comparator.
 */
module Ranking {
  import opened Types

  /** `localeCompare` on titles: negative, zero or positive as the first string sorts before, with or after the second. */
  type StringComparator = (string, string) -> int

  /**
   * What the sort needs of `localeCompare`: swapping the arguments flips the
   * sign, and "sorts no later than" is transitive.
   */
  ghost predicate IsLocaleCompare(lc: StringComparator) {
    && (forall x, y :: lc(x, y) < 0 <==> lc(y, x) > 0)
    && (forall x, y, z :: lc(x, y) <= 0 && lc(y, z) <= 0 ==> lc(x, z) <= 0)
  }

  /**
   * The raw comparison of the chosen sort key: negative when `a` goes first
   * in ascending order. The higher score goes first by relevance; the
   * earlier time goes first by creation or update time.
   */
  function RawComparison(a: SearchResult, b: SearchResult, key: SortKey, lc: StringComparator): (r: int)
    ensures key == Relevance ==> (r < 0 <==> a.score > b.score) && (r == 0 <==> a.score == b.score)
    ensures key == ByTitle ==> r == lc(a.bookmark.title, b.bookmark.title)
    ensures key == CreatedAt ==>
      (r < 0 <==> a.bookmark.createdAt < b.bookmark.createdAt) && (r == 0 <==> a.bookmark.createdAt == b.bookmark.createdAt)
    ensures key == UpdatedAt ==>
      (r < 0 <==> a.bookmark.updatedAt < b.bookmark.updatedAt) && (r == 0 <==> a.bookmark.updatedAt == b.bookmark.updatedAt)
  {
    match key
    case Relevance => b.score - a.score
    case ByTitle => lc(a.bookmark.title, b.bookmark.title)
    case CreatedAt => a.bookmark.createdAt - b.bookmark.createdAt
    case UpdatedAt => a.bookmark.updatedAt - b.bookmark.updatedAt
  }

  /**
   * The comparator `search` sorts with: the raw comparison under `asc`, its
   * negation otherwise. For a consistent `localeCompare` it is at most zero
   * exactly when the pair is in the order the key and direction name.
   */
  function Compare(a: SearchResult, b: SearchResult, key: SortKey, order: SortOrder, lc: StringComparator): (r: int)
    ensures IsLocaleCompare(lc) ==> (r <= 0 <==> InOrder(a, b, key, order, lc))
  {
    var c := RawComparison(a, b, key, lc);
    assert key == ByTitle && IsLocaleCompare(lc) ==>
      (lc(a.bookmark.title, b.bookmark.title) < 0 <==> lc(b.bookmark.title, a.bookmark.title) > 0);
    if order == Asc then c else -c
  }

  /** `a` may come before `b` in the sorted output. */
  predicate Leq(a: SearchResult, b: SearchResult, key: SortKey, order: SortOrder, lc: StringComparator) {
    Compare(a, b, key, order, lc) <= 0
  }

  /** Every earlier result may come before every later one. */
  ghost predicate Sorted(s: seq<SearchResult>, key: SortKey, order: SortOrder, lc: StringComparator) {
    forall i, j :: 0 <= i < j < |s| ==> Leq(s[i], s[j], key, order, lc)
  }

  /**
   * What each key and order mean for two results in sorted order: scores
   * non-increasing under `asc` and non-decreasing under `desc` (the raw
   * relevance comparison is already descending, so `desc` reverses it), and
   * titles and times ascending under `asc` and descending under `desc`.
   */
  ghost predicate InOrder(a: SearchResult, b: SearchResult, key: SortKey, order: SortOrder, lc: StringComparator) {
    match (key, order)
    case (Relevance, Asc) => a.score >= b.score
    case (Relevance, Desc) => a.score <= b.score
    case (ByTitle, Asc) => lc(a.bookmark.title, b.bookmark.title) <= 0
    case (ByTitle, Desc) => lc(b.bookmark.title, a.bookmark.title) <= 0
    case (CreatedAt, Asc) => a.bookmark.createdAt <= b.bookmark.createdAt
    case (CreatedAt, Desc) => a.bookmark.createdAt >= b.bookmark.createdAt
    case (UpdatedAt, Asc) => a.bookmark.updatedAt <= b.bookmark.updatedAt
    case (UpdatedAt, Desc) => a.bookmark.updatedAt >= b.bookmark.updatedAt
  }

  /** The comparator says "no later" exactly when the pair is in the order the key and direction name. */
  lemma LeqMeaning(a: SearchResult, b: SearchResult, key: SortKey, order: SortOrder, lc: StringComparator)
    requires IsLocaleCompare(lc)
    ensures Leq(a, b, key, order, lc) <==> InOrder(a, b, key, order, lc)
  {
    if key == ByTitle && order == Desc {
      var x, y := a.bookmark.title, b.bookmark.title;
      assert lc(x, y) < 0 <==> lc(y, x) > 0;
      assert lc(y, x) < 0 <==> lc(x, y) > 0;
    }
  }

  /** The comparator orders all results totally: any two are comparable and the order is transitive. */
  lemma LeqTotalPreorder(key: SortKey, order: SortOrder, lc: StringComparator)
    requires IsLocaleCompare(lc)
    ensures forall a, b :: Leq(a, b, key, order, lc) || Leq(b, a, key, order, lc)
    ensures forall a, b, c :: Leq(a, b, key, order, lc) && Leq(b, c, key, order, lc) ==> Leq(a, c, key, order, lc)
  {
    forall a, b
      ensures Leq(a, b, key, order, lc) || Leq(b, a, key, order, lc)
    {
      LeqTotal(a, b, key, order, lc);
    }
    forall a, b, c | Leq(a, b, key, order, lc) && Leq(b, c, key, order, lc)
      ensures Leq(a, c, key, order, lc)
    {
      LeqTrans(a, b, c, key, order, lc);
    }
  }

  lemma LeqTotal(a: SearchResult, b: SearchResult, key: SortKey, order: SortOrder, lc: StringComparator)
    requires IsLocaleCompare(lc)
    ensures Leq(a, b, key, order, lc) || Leq(b, a, key, order, lc)
  {
    var x, y := a.bookmark.title, b.bookmark.title;
    assert lc(x, y) < 0 <==> lc(y, x) > 0;
    assert lc(y, x) < 0 <==> lc(x, y) > 0;
  }

  lemma LeqTrans(a: SearchResult, b: SearchResult, c: SearchResult, key: SortKey, order: SortOrder, lc: StringComparator)
    requires IsLocaleCompare(lc)
    requires Leq(a, b, key, order, lc) && Leq(b, c, key, order, lc)
    ensures Leq(a, c, key, order, lc)
  {
    var x, y, z := a.bookmark.title, b.bookmark.title, c.bookmark.title;
    if key == ByTitle && order == Desc {
      assert lc(x, y) < 0 <==> lc(y, x) > 0;
      assert lc(y, z) < 0 <==> lc(z, y) > 0;
      assert lc(x, z) < 0 <==> lc(z, x) > 0;
      assert lc(z, y) <= 0 && lc(y, x) <= 0 ==> lc(z, x) <= 0;
    } else if key == ByTitle {
      assert lc(x, y) <= 0 && lc(y, z) <= 0 ==> lc(x, z) <= 0;
    }
  }

  /** A result that may come before every element of a sorted list may head it. */
  lemma ConsSorted(y: SearchResult, s: seq<SearchResult>, key: SortKey, order: SortOrder, lc: StringComparator)
    requires Sorted(s, key, order, lc)
    requires forall k :: 0 <= k < |s| ==> Leq(y, s[k], key, order, lc)
    ensures Sorted([y] + s, key, order, lc)
  {
    var r := [y] + s;
    forall i, j | 0 <= i < j < |r|
      ensures Leq(r[i], r[j], key, order, lc)
    {
      if i > 0 {
        assert r[i] == s[i - 1] && r[j] == s[j - 1];
      } else {
        assert r[j] == s[j - 1];
      }
    }
  }

  /**
   * Inserting one result into a sorted list: it goes after every result that
   * may come before it, so results that compare equal keep their order.
   */
  function Insert(s: seq<SearchResult>, x: SearchResult, key: SortKey, order: SortOrder, lc: StringComparator): (r: seq<SearchResult>)
    requires IsLocaleCompare(lc) && Sorted(s, key, order, lc)
    ensures multiset(r) == multiset(s) + multiset{x}
    ensures Sorted(r, key, order, lc)
  {
    if |s| == 0 then [x]
    else if Leq(s[0], x, key, order, lc) then
      var rest := Insert(s[1..], x, key, order, lc);
      InsertAfterHead(s, x, rest, key, order, lc);
      [s[0]] + rest
    else
      InsertAtHead(s, x, key, order, lc);
      [x] + s
  }

  lemma InsertAfterHead(s: seq<SearchResult>, x: SearchResult, rest: seq<SearchResult>, key: SortKey, order: SortOrder, lc: StringComparator)
    requires |s| > 0 && Sorted(s, key, order, lc) && Leq(s[0], x, key, order, lc)
    requires multiset(rest) == multiset(s[1..]) + multiset{x} && Sorted(rest, key, order, lc)
    ensures multiset([s[0]] + rest) == multiset(s) + multiset{x}
    ensures Sorted([s[0]] + rest, key, order, lc)
  {
    assert s == [s[0]] + s[1..];
    forall k | 0 <= k < |rest|
      ensures Leq(s[0], rest[k], key, order, lc)
    {
      assert rest[k] in multiset(rest);
      if rest[k] != x {
        assert rest[k] in multiset(s[1..]);
        var i :| 0 <= i < |s[1..]| && s[1..][i] == rest[k];
        assert s[i + 1] == rest[k];
      }
    }
    ConsSorted(s[0], rest, key, order, lc);
  }

  lemma InsertAtHead(s: seq<SearchResult>, x: SearchResult, key: SortKey, order: SortOrder, lc: StringComparator)
    requires IsLocaleCompare(lc)
    requires |s| > 0 && Sorted(s, key, order, lc) && !Leq(s[0], x, key, order, lc)
    ensures Sorted([x] + s, key, order, lc)
  {
    LeqTotal(s[0], x, key, order, lc);
    forall k | 0 <= k < |s|
      ensures Leq(x, s[k], key, order, lc)
    {
      if k > 0 {
        LeqTrans(x, s[0], s[k], key, order, lc);
      }
    }
    ConsSorted(x, s, key, order, lc);
  }

  /** `results.sort(comparator)`: a sorted permutation of the results. */
  function SortResults(rs: seq<SearchResult>, key: SortKey, order: SortOrder, lc: StringComparator): (s: seq<SearchResult>)
    requires IsLocaleCompare(lc)
    ensures multiset(s) == multiset(rs)
    ensures Sorted(s, key, order, lc)
  {
    if |rs| == 0 then []
    else
      var last := rs[|rs| - 1];
      assert rs == rs[..|rs| - 1] + [last];
      Insert(SortResults(rs[..|rs| - 1], key, order, lc), last, key, order, lc)
  }

  /** In a sorted list every pair in list order is in the order the key and direction name. */
  lemma SortedMeaning(s: seq<SearchResult>, key: SortKey, order: SortOrder, lc: StringComparator)
    requires IsLocaleCompare(lc) && Sorted(s, key, order, lc)
    ensures forall i, j :: 0 <= i < j < |s| ==> InOrder(s[i], s[j], key, order, lc)
  {
    forall i, j | 0 <= i < j < |s|
      ensures InOrder(s[i], s[j], key, order, lc)
    {
      LeqMeaning(s[i], s[j], key, order, lc);
    }
  }

  /**
   * As written, the relevance comparator is already descending and `desc`
   * negates it, so under the default order the lower score comes first.
   */
  lemma RelevanceDescPutsLowerFirst(x: SearchResult, y: SearchResult, lc: StringComparator)
    requires x.score < y.score
    ensures Leq(x, y, Relevance, Desc, lc) && !Leq(y, x, Relevance, Desc, lc)
    ensures Sorted([x, y], Relevance, Desc, lc) && !Sorted([y, x], Relevance, Desc, lc)
  {
    assert [y, x][0] == y && [y, x][1] == x;
  }
}
