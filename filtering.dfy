/**
 * The filter predicate of a search: category, required tags, favourite flag
 * and archived flag, each checked only when the query asks for it.
 */
module Filtering {
  import opened Types

  /** A category filter is in force only when it is present and non-empty. */
  predicate CategoryRequested(f: Filters) {
    f.categoryId.Some? && |f.categoryId.value| > 0
  }

  /** A tag filter is in force only when it is present and lists at least one tag. */
  predicate TagsRequested(f: Filters) {
    f.tags.Some? && |f.tags.value| > 0
  }

  /**
   * `matchesFilters`: the checks are made in turn and the first failing one
   * rejects; together they are the conjunction of the four requested checks.
   */
  predicate MatchesFilters(b: Bookmark, f: Filters): (r: bool)
    ensures r <==>
      && (CategoryRequested(f) ==> b.categoryId == Some(f.categoryId.value))
      && (TagsRequested(f) ==> forall tag :: tag in f.tags.value ==> tag in b.tags)
      && (f.favorite.Some? ==> b.favorite == f.favorite.value)
      && (f.archived.Some? ==> b.archived == f.archived.value)
  {
    if CategoryRequested(f) && b.categoryId != f.categoryId then false
    else if TagsRequested(f) && !(forall tag :: tag in f.tags.value ==> tag in b.tags) then false
    else if f.favorite.Some? && b.favorite != f.favorite.value then false
    else if f.archived.Some? && b.archived != f.archived.value then false
    else true
  }

  /** With nothing requested every bookmark passes, and so does an empty category or tag list. */
  lemma NoFiltersMatchAll(b: Bookmark, f: Filters)
    requires !CategoryRequested(f) && !TagsRequested(f) && f.favorite.None? && f.archived.None?
    ensures MatchesFilters(b, f)
  {
  }

  /** Asking for one more tag can only narrow the result. */
  lemma MoreTagsNarrow(b: Bookmark, f: Filters, tag: string)
    requires f.tags.Some? && MatchesFilters(b, f.(tags := Some(f.tags.value + [tag])))
    ensures MatchesFilters(b, f)
    ensures tag in b.tags
  {
    var more := f.tags.value + [tag];
    assert tag in more;
    assert forall t :: t in f.tags.value ==> t in more;
  }

  /** For example, a bookmark tagged a and b matches the tag filters [a] and [a, b], not [a, c]. */
  lemma TagFilterExample(b: Bookmark)
    requires b.tags == ["a", "b"]
    ensures MatchesFilters(b, Filters(None, Some(["a"]), None, None))
    ensures MatchesFilters(b, Filters(None, Some(["a", "b"]), None, None))
    ensures !MatchesFilters(b, Filters(None, Some(["a", "c"]), None, None))
  {
    assert "c" in ["a", "c"];
    assert "c" != "a" && "c" != "b";
  }
}
