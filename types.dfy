/**
 * The records the search index works on: bookmarks, query options,
 * search results and the per-term posting entries of the inverted index.
 */
module Types {

  datatype Option<+T> = None | Some(value: T)

  /** A saved link. Optional fields are `None` when the record leaves them out. */
  datatype Bookmark = Bookmark(
    id: string,
    title: string,
    url: string,
    description: Option<string>,
    notes: Option<string>,
    categoryId: Option<string>,
    tags: seq<string>,
    createdAt: int,
    updatedAt: int,
    favorite: bool,
    archived: bool)

  /** The fields whose containment of a query term earns a one-time bonus. */
  datatype Field = Title | Tags | Description | Notes {
    /** The bonus a field earns the first time a query term matches it. */
    function Weight(): nat {
      match this
      case Title => 10
      case Tags => 8
      case Description => 5
      case Notes => 3
    }

    /** The name recorded in a search result's matched fields. */
    function Name(): string {
      match this
      case Title => "title"
      case Tags => "tags"
      case Description => "description"
      case Notes => "notes"
    }
  }

  datatype SearchResult = SearchResult(bookmark: Bookmark, score: int, matchedFields: seq<Field>)

  datatype SortKey = Relevance | ByTitle | CreatedAt | UpdatedAt

  datatype SortOrder = Asc | Desc

  datatype SearchOptions = SearchOptions(
    query: string,
    categoryId: Option<string>,
    tags: Option<seq<string>>,
    favorite: Option<bool>,
    archived: Option<bool>,
    sortBy: Option<SortKey>,
    sortOrder: Option<SortOrder>,
    limit: Option<int>)

  /** The filter part of the options, as handed to the filter predicate. */
  datatype Filters = Filters(
    categoryId: Option<string>,
    tags: Option<seq<string>>,
    favorite: Option<bool>,
    archived: Option<bool>)

  /** One posting list of the inverted index: bookmark id to term frequency. */
  datatype IndexedTerm = IndexedTerm(term: string, bookmarks: map<string, int>)

  datatype Stats = Stats(totalTerms: nat, totalBookmarks: nat)

  /** What a successful URL parse yields: the host name and the path name. */
  datatype UrlParts = UrlParts(hostname: string, pathname: string)

  /** The URL parser the index calls: `None` where it throws. */
  type UrlParser = string -> Option<UrlParts>
}
