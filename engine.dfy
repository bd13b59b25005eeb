/**
 * The search index object: a cache of bookmarks by id and the inverted index
 * over their terms, kept in step by the add, remove, update and rebuild
 * operations, and queried by scoring and search.
 */
module SearchEngine {
  import opened Types
  import opened Tokenizer
  import opened TermExtraction
  import opened Postings
  import opened Scoring
  import opened Filtering
  import opened Ranking

  /** The documents a cache describes: each cached id with the terms of its cached bookmark. */
  function DocsOf(cache: map<string, Bookmark>, parseUrl: UrlParser): (docs: Docs)
    ensures docs.Keys == cache.Keys
  {
    map id | id in cache :: Terms(cache[id], parseUrl)
  }

  /** Every cached bookmark is filed under its own id. */
  predicate Keyed(cache: map<string, Bookmark>) {
    forall id :: id in cache ==> cache[id].id == id
  }

  /** No two bookmarks of the list share an id. */
  predicate DistinctIds(bs: seq<Bookmark>) {
    forall i, j :: 0 <= i < j < |bs| ==> bs[i].id != bs[j].id
  }

  /** The cache `rebuildIndex` leaves: each bookmark filed under its id, a later one replacing an earlier. */
  function CacheOf(bs: seq<Bookmark>): (cache: map<string, Bookmark>)
    ensures Keyed(cache)
    ensures cache.Keys == set b | b in bs :: b.id
  {
    if |bs| == 0 then map[]
    else
      var cache0 := CacheOf(bs[..|bs| - 1]);
      assert bs == bs[..|bs| - 1] + [bs[|bs| - 1]];
      cache0[bs[|bs| - 1].id := bs[|bs| - 1]]
  }

  /** With distinct ids every bookmark of the list is in the rebuilt cache as it is. */
  lemma {:induction false} CacheOfDistinct(bs: seq<Bookmark>)
    requires DistinctIds(bs)
    ensures forall b :: b in bs ==> CacheOf(bs)[b.id] == b
  {
    if |bs| > 0 {
      var bs0 := bs[..|bs| - 1];
      assert DistinctIds(bs0);
      CacheOfDistinct(bs0);
      assert bs == bs0 + [bs[|bs| - 1]];
      forall b | b in bs0
        ensures b.id != bs[|bs| - 1].id
      {
        var i :| 0 <= i < |bs0| && bs0[i] == b;
        assert bs[i] == b;
      }
    }
  }

  /** Rebuilding from one more bookmark files it over what the shorter list gave; with distinct ids its id was not yet there. */
  lemma CacheOfStep(bs: seq<Bookmark>, k: nat)
    requires k < |bs|
    ensures CacheOf(bs[..k + 1]) == CacheOf(bs[..k])[bs[k].id := bs[k]]
    ensures DistinctIds(bs) ==> bs[k].id !in CacheOf(bs[..k])
  {
    assert bs[..k + 1][..k] == bs[..k];
    if DistinctIds(bs) {
      forall b | b in bs[..k]
        ensures b.id != bs[k].id
      {
        var i :| 0 <= i < k && bs[i] == b;
      }
    }
  }

  /** The prefix of length `k + 1` extends the prefix of length `k` by element `k`. */
  lemma PrefixStep<T>(s: seq<T>, k: nat)
    requires k < |s|
    ensures s[..k + 1] == s[..k] + [s[k]]
  {
  }

  lemma DocsOfStore(cache: map<string, Bookmark>, parseUrl: UrlParser, b: Bookmark)
    ensures DocsOf(cache[b.id := b], parseUrl) == DocsOf(cache, parseUrl)[b.id := Terms(b, parseUrl)]
  {
  }

  lemma DocsOfDelete(cache: map<string, Bookmark>, parseUrl: UrlParser, id: string)
    ensures DocsOf(cache - {id}, parseUrl) == DocsOf(cache, parseUrl) - {id}
  {
  }

  /** `{ categoryId, tags, favorite, archived }` taken from the search options. */
  function FiltersOf(options: SearchOptions): Filters {
    Filters(options.categoryId, options.tags, options.favorite, options.archived)
  }

  /** The sort key, `relevance` when the options leave it out. */
  function SortKeyOf(options: SearchOptions): SortKey {
    if options.sortBy.Some? then options.sortBy.value else Relevance
  }

  /** The sort order, `desc` when the options leave it out. */
  function SortOrderOf(options: SearchOptions): SortOrder {
    if options.sortOrder.Some? then options.sortOrder.value else Desc
  }

  /** How many results the options let through out of `n`: `limit` when it is positive and smaller. */
  function LimitedCount(options: SearchOptions, n: nat): nat {
    if options.limit.Some? && options.limit.value > 0 && options.limit.value < n then options.limit.value else n
  }

  /**
   * The ids the candidate loop of a non-empty query collects: every id in
   * the posting list of some query term.
   */
  function Candidates(index: Index, qs: seq<string>): set<string> {
    if |qs| == 0 then {}
    else
      var t := qs[|qs| - 1];
      Candidates(index, qs[..|qs| - 1]) + if t in index then index[t].bookmarks.Keys else {}
  }

  /** An id is a candidate exactly when some query term has it in its posting list. */
  lemma {:induction false} CandidatesMeaning(index: Index, qs: seq<string>)
    ensures forall id :: id in Candidates(index, qs) <==> exists t :: t in qs && Posted(index, t, id)
  {
    if |qs| > 0 {
      var qs0, last := qs[..|qs| - 1], qs[|qs| - 1];
      CandidatesMeaning(index, qs0);
      assert qs == qs0 + [last];
      forall id | exists t :: t in qs && Posted(index, t, id)
        ensures id in Candidates(index, qs)
      {
        var t :| t in qs && Posted(index, t, id);
        if t != last {
          assert t in qs0;
        }
      }
      forall id | id in Candidates(index, qs)
        ensures exists t :: t in qs && Posted(index, t, id)
      {
        if id in Candidates(index, qs0) {
          var t :| t in qs0 && Posted(index, t, id);
          assert t in qs;
        } else {
          assert Posted(index, last, id);
        }
      }
    }
  }

  /** The bookmark ids a list of results holds. */
  function IdsOf(rs: seq<SearchResult>): set<string> {
    set r | r in rs :: r.bookmark.id
  }

  /** No bookmark appears twice among the results. */
  predicate DistinctResults(rs: seq<SearchResult>) {
    forall i, j :: 0 <= i < j < |rs| ==> rs[i].bookmark.id != rs[j].bookmark.id
  }

  /** Appending a result for a new bookmark keeps the results distinct and adds its id. */
  lemma AppendResult(rs: seq<SearchResult>, r: SearchResult)
    requires DistinctResults(rs) && r.bookmark.id !in IdsOf(rs)
    ensures DistinctResults(rs + [r])
    ensures IdsOf(rs + [r]) == IdsOf(rs) + {r.bookmark.id}
  {
    var rs' := rs + [r];
    forall i, j | 0 <= i < j < |rs'|
      ensures rs'[i].bookmark.id != rs'[j].bookmark.id
    {
      if j == |rs| {
        assert rs[i] in rs;
      }
    }
    assert forall x :: x in rs' <==> x in rs || x == r;
  }

  /** Distinct results are as many as their ids. */
  lemma {:induction false} DistinctCount(rs: seq<SearchResult>)
    requires DistinctResults(rs)
    ensures |IdsOf(rs)| == |rs|
  {
    if |rs| > 0 {
      var rs0, r := rs[..|rs| - 1], rs[|rs| - 1];
      assert rs == rs0 + [r];
      assert DistinctResults(rs0);
      DistinctCount(rs0);
      assert r.bookmark.id !in IdsOf(rs0) by {
        forall x | x in rs0
          ensures x.bookmark.id != r.bookmark.id
        {
          var i :| 0 <= i < |rs0| && rs0[i] == x;
          assert rs[i] == x;
        }
      }
      AppendResult(rs0, r);
    }
  }

  /** In distinct results each result occurs once. */
  lemma {:induction false} DistinctOnce(rs: seq<SearchResult>, x: SearchResult)
    requires DistinctResults(rs)
    ensures multiset(rs)[x] <= 1
  {
    if |rs| > 0 {
      var rs0, r := rs[..|rs| - 1], rs[|rs| - 1];
      assert rs == rs0 + [r];
      assert DistinctResults(rs0);
      DistinctOnce(rs0, x);
    }
  }

  /** A result at two positions occurs at least twice. */
  lemma Twice(rs: seq<SearchResult>, i: nat, j: nat)
    requires i < j < |rs| && rs[i] == rs[j]
    ensures multiset(rs)[rs[i]] >= 2
  {
    assert rs == rs[..i] + [rs[i]] + rs[i + 1..j] + [rs[j]] + rs[j + 1..];
  }

  /**
   * A permutation of distinct results, such as their sorted order, is
   * distinct too, with the same ids, the same length and the same members.
   */
  lemma PermutedDistinct(all: seq<SearchResult>, s: seq<SearchResult>)
    requires DistinctResults(all) && multiset(s) == multiset(all)
    ensures DistinctResults(s) && IdsOf(s) == IdsOf(all) && |s| == |all|
    ensures forall x :: x in s <==> x in all
  {
    assert |s| == |multiset(s)| == |all|;
    forall x
      ensures x in s <==> x in all
    {
      assert x in s <==> x in multiset(s);
    }
    forall i, j | 0 <= i < j < |s|
      ensures s[i].bookmark.id != s[j].bookmark.id
    {
      if s[i].bookmark.id == s[j].bookmark.id {
        assert s[i] in all && s[j] in all;
        var p :| 0 <= p < |all| && all[p] == s[i];
        var q :| 0 <= q < |all| && all[q] == s[j];
        assert p == q;
        Twice(s, i, j);
        DistinctOnce(all, s[i]);
        assert false;
      }
    }
  }


  class SearchIndex {
    var index: Index
    var bookmarks: map<string, Bookmark>
    /** `new URL(...)`: the host and path of a URL, `None` where it throws. */
    const parseUrl: UrlParser

    /** The documents the cache describes. */
    function Docs(): Docs
      reads this
    {
      DocsOf(bookmarks, parseUrl)
    }

    /** The representation invariant: the cache is filed by id and the index is the one its documents give. */
    ghost predicate Valid()
      reads this
    {
      Keyed(bookmarks) && Postings.Valid(index, Docs())
    }

    /** An empty index over an empty cache. */
    constructor(parseUrl: UrlParser)
      ensures index == map[] && bookmarks == map[] && this.parseUrl == parseUrl
      ensures Valid()
    {
      index := map[];
      bookmarks := map[];
      this.parseUrl := parseUrl;
    }

    /**
     * `addBookmark`: cache the bookmark, then raise its frequency in the
     * posting list of each of its terms, once per occurrence. For an id not
     * yet cached this keeps the invariant; for a cached one the old
     * frequencies stay and the new ones are added on top of them.
     */
    method AddBookmark(b: Bookmark)
      modifies this
      ensures bookmarks == old(bookmarks)[b.id := b]
      ensures Added(old(index), index, b.id, Terms(b, parseUrl))
      ensures old(Keyed(bookmarks)) ==> Keyed(bookmarks)
      ensures old(Valid()) && b.id !in old(bookmarks) ==> Valid()
    {
      bookmarks := bookmarks[b.id := b];
      var terms := ExtractTerms(b, parseUrl);
      PostTerms(b.id, terms);
      if old(Valid()) && b.id !in old(bookmarks) {
        DocsOfStore(old(bookmarks), parseUrl, b);
        AddKeepsValid(old(index), index, old(Docs()), b.id, terms);
      }
    }

    /**
     * The loop of `addBookmark`: for each term, in order, create its entry
     * when missing and raise the frequency of `id` in it by one.
     */
    method PostTerms(id: string, terms: seq<string>)
      modifies this
      ensures bookmarks == old(bookmarks)
      ensures Added(old(index), index, id, terms)
    {
      var k := 0;
      ghost var done: seq<string> := [];
      while k < |terms|
        invariant 0 <= k <= |terms| && done == terms[..k]
        invariant bookmarks == old(bookmarks)
        invariant Added(old(index), index, id, done)
      {
        var term := terms[k];
        ghost var before := index;
        if term !in index {
          index := index[term := IndexedTerm(term, map[])];
        }
        var entry := index[term];
        var currentCount := if id in entry.bookmarks then entry.bookmarks[id] else 0;
        assert entry == if term in before then before[term] else IndexedTerm(term, map[]);
        assert currentCount == Freq(before, term, id);
        index := index[term := IndexedTerm(entry.term, entry.bookmarks[id := currentCount + 1])];
        assert index == before[term := IndexedTerm(entry.term, entry.bookmarks[id := currentCount + 1])];
        AddedStep(old(index), before, index, id, done, term);
        PrefixStep(terms, k);
        done := done + [term];
        k := k + 1;
      }
      assert terms[..k] == terms;
    }

    /**
     * `removeBookmark`: nothing happens for an id not cached; otherwise the
     * id leaves the cache and the posting list of every term of its cached
     * copy, and each list left empty is dropped.
     */
    method RemoveBookmark(id: string)
      modifies this
      ensures id !in old(bookmarks) ==> bookmarks == old(bookmarks) && index == old(index)
      ensures id in old(bookmarks) ==>
        bookmarks == old(bookmarks) - {id} &&
        Removed(old(index), index, id, Terms(old(bookmarks)[id], parseUrl))
      ensures old(Keyed(bookmarks)) ==> Keyed(bookmarks)
      ensures old(Valid()) ==> Valid() && forall t :: !Posted(index, t, id)
    {
      if id !in bookmarks {
        if old(Valid()) {
          forall t
            ensures !Posted(index, t, id)
          {
            ValidPosted(index, Docs(), t, id);
          }
        }
        return;
      }
      var b := bookmarks[id];
      bookmarks := bookmarks - {id};
      var terms := ExtractTerms(b, parseUrl);
      UnpostTerms(id, terms);
      if old(Valid()) {
        DocsOfDelete(old(bookmarks), parseUrl, id);
        RemoveKeepsValid(old(index), index, old(Docs()), id);
      }
    }

    /**
     * The loop of `removeBookmark`: for each term with an entry, drop `id`
     * from its posting list, and drop the entry when the list is left empty.
     */
    method UnpostTerms(id: string, terms: seq<string>)
      modifies this
      ensures bookmarks == old(bookmarks)
      ensures Removed(old(index), index, id, terms)
    {
      var k := 0;
      ghost var done: seq<string> := [];
      while k < |terms|
        invariant 0 <= k <= |terms| && done == terms[..k]
        invariant bookmarks == old(bookmarks)
        invariant Removed(old(index), index, id, done)
      {
        var term := terms[k];
        ghost var before := index;
        if term in index {
          var entry := index[term];
          var remaining := entry.bookmarks - {id};
          if |remaining| == 0 {
            index := index - {term};
          } else {
            index := index[term := IndexedTerm(entry.term, remaining)];
          }
        }
        RemovedStep(old(index), before, index, id, done, term);
        PrefixStep(terms, k);
        done := done + [term];
        k := k + 1;
      }
      assert terms[..k] == terms;
    }

    /**
     * `updateBookmark`: remove, then add. The index changes by the removal of
     * the cached copy's terms, if any, followed by the addition of the new
     * terms. Under the invariant the postings of the id are then those of its
     * new terms only, and every other id's postings are as they were.
     */
    method UpdateBookmark(b: Bookmark)
      modifies this
      ensures bookmarks == old(bookmarks)[b.id := b]
      ensures b.id !in old(bookmarks) ==> Added(old(index), index, b.id, Terms(b, parseUrl))
      ensures b.id in old(bookmarks) ==> exists mid ::
        Removed(old(index), mid, b.id, Terms(old(bookmarks)[b.id], parseUrl)) && Added(mid, index, b.id, Terms(b, parseUrl))
      ensures old(Keyed(bookmarks)) ==> Keyed(bookmarks)
      ensures old(Valid()) ==> Valid()
      ensures old(Valid()) ==> forall t :: Freq(index, t, b.id) == multiset(Terms(b, parseUrl))[t]
      ensures old(Valid()) ==> forall t, x :: x != b.id ==> Freq(index, t, x) == Freq(old(index), t, x)
    {
      RemoveBookmark(b.id);
      ghost var mid := index;
      AddBookmark(b);
      assert bookmarks == old(bookmarks)[b.id := b] by {
        if b.id in old(bookmarks) {
          assert bookmarks == (old(bookmarks) - {b.id})[b.id := b];
        }
      }
      if b.id in old(bookmarks) {
        assert Removed(old(index), mid, b.id, Terms(old(bookmarks)[b.id], parseUrl));
      }
      if old(Valid()) {
        forall t
          ensures Freq(index, t, b.id) == multiset(Terms(b, parseUrl))[t]
        {
          assert !Posted(mid, t, b.id);
        }
        forall t, x | x != b.id
          ensures Freq(index, t, x) == Freq(old(index), t, x)
        {
          assert Freq(index, t, x) == Freq(mid, t, x);
        }
      }
    }

    /**
     * `rebuildIndex`: clear both maps, then add each bookmark in turn. The
     * cache files each bookmark under its id, a later one replacing an
     * earlier; with distinct ids the invariant holds afterwards.
     */
    method RebuildIndex(bs: seq<Bookmark>)
      modifies this
      ensures bookmarks == CacheOf(bs)
      ensures DistinctIds(bs) ==> Valid()
    {
      index := map[];
      bookmarks := map[];
      var k := 0;
      while k < |bs|
        invariant 0 <= k <= |bs|
        invariant bookmarks == CacheOf(bs[..k])
        invariant DistinctIds(bs) ==> Valid()
      {
        CacheOfStep(bs, k);
        AddBookmark(bs[k]);
        k := k + 1;
      }
      assert bs[..k] == bs;
    }

    /**
     * `calculateScore`: 0 for an id not cached; otherwise, for each query
     * term with a posting list, the stored frequency of the id, and when the
     * term is one of the bookmark's terms, the weight of each field that
     * contains it and is not yet in `matchedFields`, which it joins.
     */
    method CalculateScore(id: string, queryTerms: seq<string>, matchedFields: seq<Field>) returns (score: int, matched: seq<Field>)
      ensures id !in bookmarks ==> score == 0 && matched == matchedFields
      ensures id in bookmarks ==>
        var b := bookmarks[id];
        Tally(score, matched) == Score(index, id, b, Terms(b, parseUrl), queryTerms, matchedFields)
    {
      if id !in bookmarks {
        return 0, matchedFields;
      }
      var b := bookmarks[id];
      score, matched := 0, matchedFields;
      var k := 0;
      while k < |queryTerms|
        invariant 0 <= k <= |queryTerms|
        invariant Tally(score, matched) == Score(index, id, b, Terms(b, parseUrl), queryTerms[..k], matchedFields)
      {
        score, matched := ScoreQueryTerm(id, b, queryTerms[k], score, matched);
        ScoreStep(index, id, b, Terms(b, parseUrl), queryTerms, k, matchedFields);
        k := k + 1;
      }
      assert queryTerms[..k] == queryTerms;
    }

    /**
     * The body of the query-term loop of `calculateScore`: a term with a
     * posting list adds the stored frequency of `id`, and when it is one of
     * the bookmark's terms, each field containing it that is not yet matched
     * adds its weight (title 10, tags 8, description 5, notes 3) and joins
     * the matched fields.
     */
    method ScoreQueryTerm(id: string, b: Bookmark, term: string, score: int, matched: seq<Field>)
      returns (score': int, matched': seq<Field>)
      ensures Tally(score', matched') == ScoreTerm(index, id, b, Terms(b, parseUrl), Tally(score, matched), term)
    {
      score', matched' := score, matched;
      if term in index {
        var entry := index[term];
        var frequency := if id in entry.bookmarks then entry.bookmarks[id] else 0;
        score' := score' + frequency;
        var bookmarkTerms := ExtractTerms(b, parseUrl);
        if term in bookmarkTerms {
          var t := Tally(score', matched');
          t := Reward(t, Title, FieldMatches(b, Title, term));
          t := Reward(t, Tags, FieldMatches(b, Tags, term));
          t := Reward(t, Description, FieldMatches(b, Description, term));
          t := Reward(t, Notes, FieldMatches(b, Notes, term));
          score', matched' := t.score, t.matched;
        }
      }
    }

    /**
     * The result `search` gives for a cached id: score 0 and no matched
     * fields for an empty query, the score computed from no matched fields
     * otherwise.
     */
    function ResultFor(id: string, qs: seq<string>): SearchResult
      reads this
      requires id in bookmarks
    {
      var b := bookmarks[id];
      if |qs| == 0 then SearchResult(b, 0, [])
      else
        var t := Score(index, id, b, Terms(b, parseUrl), qs, []);
        SearchResult(b, t.score, t.matched)
    }

    /**
     * The ids `search` reports before the limit: the cached bookmarks that
     * pass the filters, and for a non-empty query only the candidates.
     */
    function Eligible(qs: seq<string>, f: Filters): set<string>
      reads this
    {
      set id | id in bookmarks && MatchesFilters(bookmarks[id], f) && (|qs| == 0 || id in Candidates(index, qs))
    }

    /**
     * Under the invariant the result for a cached id and a non-empty query
     * depends on the bookmark alone: its matched fields are, once each, the
     * fields containing a query term that is one of its terms, and its score
     * is the number of occurrences of the query terms among its terms plus
     * the bonus of those fields.
     */
    lemma ResultMeaning(id: string, qs: seq<string>)
      requires Valid() && id in bookmarks && |qs| > 0
      ensures var b := bookmarks[id];
        var r := ResultFor(id, qs);
        var fired := ContentFired(b, Terms(b, parseUrl), qs);
        && r.bookmark == b
        && NoDup(r.matchedFields) && (forall f :: f in r.matchedFields <==> f in fired)
        && r.score == ContentScore(Terms(b, parseUrl), qs) + Bonus(fired)
    {
      var b := bookmarks[id];
      ScoreFromScratch(index, id, b, Terms(b, parseUrl), qs);
      ScoreBounds(index, id, b, Terms(b, parseUrl), qs);
      ScoreFromContent(index, Docs(), id, b, qs);
    }

    /**
     * Under the invariant the candidates of a non-empty query are read off
     * the cached bookmarks: an id is eligible exactly when its bookmark
     * passes the filters and some query term is one of its terms.
     */
    lemma EligibleFromContent(qs: seq<string>, f: Filters)
      requires Valid() && |qs| > 0
      ensures forall id :: id in Eligible(qs, f) <==>
        id in bookmarks && MatchesFilters(bookmarks[id], f) && exists t :: t in qs && t in Terms(bookmarks[id], parseUrl)
    {
      CandidatesMeaning(index, qs);
      forall id, t | id in bookmarks
        ensures Posted(index, t, id) <==> t in Terms(bookmarks[id], parseUrl)
      {
        ValidPosted(index, Docs(), t, id);
      }
    }

    /** The results collected for `qs` and filters `f`: one per eligible id, each the result for its id. */
    predicate Collected(rs: seq<SearchResult>, qs: seq<string>, f: Filters)
      reads this
    {
      && DistinctResults(rs)
      && IdsOf(rs) == Eligible(qs, f)
      && forall r :: r in rs ==> r.bookmark.id in bookmarks && r == ResultFor(r.bookmark.id, qs)
    }

    /** The empty-query branch of `search`: every cached bookmark that passes the filters, with score 0. */
    method BrowseAll(f: Filters) returns (rs: seq<SearchResult>)
      requires Keyed(bookmarks)
      ensures Collected(rs, [], f)
    {
      rs := [];
      var remaining := bookmarks.Keys;
      while remaining != {}
        invariant remaining <= bookmarks.Keys
        invariant DistinctResults(rs)
        invariant IdsOf(rs) == set id | id in bookmarks.Keys - remaining && MatchesFilters(bookmarks[id], f)
        invariant forall r :: r in rs ==> r.bookmark.id in bookmarks && r == ResultFor(r.bookmark.id, [])
        decreases remaining
      {
        var id :| id in remaining;
        var bookmark := bookmarks[id];
        if MatchesFilters(bookmark, f) {
          AppendResult(rs, SearchResult(bookmark, 0, []));
          rs := rs + [SearchResult(bookmark, 0, [])];
        }
        remaining := remaining - {id};
      }
    }

    /** The candidate loop of `search`: the ids in the posting lists of the query terms. */
    method CollectCandidates(qs: seq<string>) returns (candidates: set<string>)
      ensures candidates == Candidates(index, qs)
    {
      candidates := {};
      var k := 0;
      while k < |qs|
        invariant 0 <= k <= |qs|
        invariant candidates == Candidates(index, qs[..k])
      {
        var term := qs[k];
        if term in index {
          candidates := candidates + index[term].bookmarks.Keys;
        }
        PrefixStep(qs, k);
        assert qs[..k + 1][..k] == qs[..k];
        k := k + 1;
      }
      assert qs[..k] == qs;
    }

    /** The scoring loop of `search`: each cached candidate that passes the filters, with its score. */
    method ScoreCandidates(qs: seq<string>, candidates: set<string>, f: Filters) returns (rs: seq<SearchResult>)
      requires Keyed(bookmarks) && |qs| > 0 && candidates == Candidates(index, qs)
      ensures Collected(rs, qs, f)
    {
      rs := [];
      var remaining := candidates;
      while remaining != {}
        invariant remaining <= candidates
        invariant DistinctResults(rs)
        invariant IdsOf(rs) == set id | id in candidates - remaining && id in bookmarks && MatchesFilters(bookmarks[id], f)
        invariant forall r :: r in rs ==> r.bookmark.id in bookmarks && r == ResultFor(r.bookmark.id, qs)
        decreases remaining
      {
        var id :| id in remaining;
        if id in bookmarks && MatchesFilters(bookmarks[id], f) {
          var score, matched := CalculateScore(id, qs, []);
          AppendResult(rs, SearchResult(bookmarks[id], score, matched));
          rs := rs + [SearchResult(bookmarks[id], score, matched)];
        }
        remaining := remaining - {id};
      }
    }

    /**
     * `search`: collect the eligible results, sort them by the chosen key and
     * order, and keep the first `limit` when a positive limit is given. The
     * results are sorted, distinct, each the result for its bookmark, as many
     * as the limit allows, and every eligible result left out sorts no
     * earlier than any result kept.
     */
    method Search(options: SearchOptions, lc: StringComparator) returns (results: seq<SearchResult>)
      requires Keyed(bookmarks) && IsLocaleCompare(lc)
      ensures var qs := Tokens(options.query);
        && DistinctResults(results)
        && (forall r :: r in results ==> r.bookmark.id in Eligible(qs, FiltersOf(options)) && r == ResultFor(r.bookmark.id, qs))
        && |results| == LimitedCount(options, |Eligible(qs, FiltersOf(options))|)
      ensures Sorted(results, SortKeyOf(options), SortOrderOf(options), lc)
      ensures var qs := Tokens(options.query);
        forall id, r :: id in Eligible(qs, FiltersOf(options)) && r in results && ResultFor(id, qs) !in results ==>
          Leq(r, ResultFor(id, qs), SortKeyOf(options), SortOrderOf(options), lc)
      ensures var qs := Tokens(options.query);
        var eligible := Eligible(qs, FiltersOf(options));
        LimitedCount(options, |eligible|) == |eligible| ==> forall id :: id in eligible ==> ResultFor(id, qs) in results
    {
      var filters := FiltersOf(options);
      var sortBy := SortKeyOf(options);
      var sortOrder := SortOrderOf(options);
      var queryTerms := Tokenize(options.query);
      var all: seq<SearchResult>;
      if |queryTerms| == 0 {
        all := BrowseAll(filters);
      } else {
        var candidates := CollectCandidates(queryTerms);
        all := ScoreCandidates(queryTerms, candidates, filters);
      }
      var sorted := SortResults(all, sortBy, sortOrder, lc);
      PermutedDistinct(all, sorted);
      var m := LimitedCount(options, |sorted|);
      results := sorted[..m];
      SearchOutcome(all, sorted, m, queryTerms, filters, sortBy, sortOrder, lc);
    }

    /** What sorting and truncating the collected results gives. */
    lemma SearchOutcome(all: seq<SearchResult>, sorted: seq<SearchResult>, m: nat, qs: seq<string>, f: Filters,
                        key: SortKey, order: SortOrder, lc: StringComparator)
      requires Collected(all, qs, f) && multiset(sorted) == multiset(all) && Sorted(sorted, key, order, lc)
      requires m <= |sorted|
      ensures var results := sorted[..m];
        && DistinctResults(results)
        && (forall r :: r in results ==> r.bookmark.id in Eligible(qs, f) && r == ResultFor(r.bookmark.id, qs))
        && |sorted| == |Eligible(qs, f)|
        && Sorted(results, key, order, lc)
        && (forall id, r :: id in Eligible(qs, f) && r in results && ResultFor(id, qs) !in results ==>
              Leq(r, ResultFor(id, qs), key, order, lc))
        && (m == |sorted| ==> forall id :: id in Eligible(qs, f) ==> ResultFor(id, qs) in results)
    {
      PermutedDistinct(all, sorted);
      DistinctCount(all);
      var results := sorted[..m];
      forall id | id in Eligible(qs, f)
        ensures ResultFor(id, qs) in sorted
      {
        var r :| r in all && r.bookmark.id == id;
      }
      forall id, r | id in Eligible(qs, f) && r in results && ResultFor(id, qs) !in results
        ensures Leq(r, ResultFor(id, qs), key, order, lc)
      {
        var j :| 0 <= j < |sorted| && sorted[j] == ResultFor(id, qs);
        var i :| 0 <= i < m && results[i] == r;
      }
      assert m == |sorted| ==> results == sorted;
    }

    /**
     * `getStats`: the number of indexed terms and of cached bookmarks. Under
     * the invariant the term count is the number of distinct terms over all
     * cached bookmarks.
     */
    function GetStats(): (stats: Stats)
      reads this
      ensures Valid() ==> stats.totalTerms == |AllTerms(Docs())| && stats.totalBookmarks == |Docs()|
    {
      TermCount(index, Docs());
      Stats(|index|, |bookmarks|)
    }
  }
}
