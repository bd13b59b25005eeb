# Bookmark search index, modelled in Dafny

This project models the in-memory full-text index of a bookmark manager
(`SearchIndex` in `src/services/searchIndex.ts`) and proves properties of it.

The index has two pieces of state:

- an inverted index from each term to its posting list (bookmark id to
  term frequency);
- a cache of the bookmarks it has indexed, keyed by id.

The modules follow the structure of the program:

- `Types`: the records of `src/types/index.ts` the index uses: `Bookmark`,
  `SearchResult`, `SearchOptions` and `IndexedTerm`. The four scored fields
  are the enumeration `Field`. Its `Weight()` is the field's bonus (title 10,
  tags 8, description 5, notes 3) and its `Name()` is the string the source
  records in `matchedFields`.
- `Tokenizer`: `tokenize`, written as the loop the source runs. The loop is
  proved equal to a reference segmentation `Segment` of the normalised text.
  `Segment` has its own lemmas: tokens are non-empty, concatenating them
  gives the text without its whitespace, and the empty cases are
  characterised.
- `TermExtraction`: `extractTerms`, which pushes the tokens of title,
  description, notes, URL (host and path) and each tag, in that order.
- `Postings`: the inverted index as a value.
  - `Valid(index, docs)` is the representation invariant. The stored postings
    are exactly the term counts of the documents, with no empty posting
    list. It holds exactly when the index equals `BuildIndex(docs)`.
  - `Added` and `Removed` describe what one `addBookmark` or
    `removeBookmark` does to the index. Lemmas show that each preserves the
    invariant and that each determines the new index completely.
- `Scoring`: `calculateScore` as a fold over the query terms (`Score`).
  Lemmas prove:
  - the score is the stored frequencies plus the bonus of the fields that
    fired;
  - each field is recorded once;
  - the bonus is at most 26;
  - under the invariant, the score depends on the bookmark's own terms only.
- `Filtering`: `matchesFilters`.
- `Ranking`: the comparator `search` sorts with. Lemmas prove that it is a
  total preorder and say what order each key and direction yields. A sort by
  it returns a sorted permutation.
- `SearchEngine`: the class `SearchIndex`, with fields `index` and
  `bookmarks`, and methods for `addBookmark`, `updateBookmark`,
  `removeBookmark`, `rebuildIndex`, `calculateScore`, `search` and
  `getStats`.
  - `Valid()` ties the index to the documents of the cache.
  - Every mutator also keeps `Keyed(bookmarks)`: each cached bookmark is
    filed under its own id. The constructor establishes it, and `Search`
    relies on it.
  - `Search` is proved to return the distinct eligible results, each with
    its true score. They are sorted, as many as the limit allows, and every
    eligible result left out sorts no earlier than the results kept.

Two things the source obtains from its environment become parameters.
`new URL(...)` is the class constant `parseUrl`: a function giving the host
and path of a URL, or `None` where the constructor throws. `localeCompare`
is the parameter `lc` of `Search`, required to be antisymmetric in sign and
transitive.

Two behaviours of the code are worth stating plainly:

- Relevance order. The raw relevance comparison (`b.score - a.score`,
  `src/services/searchIndex.ts:288`) already puts the higher score first.
  The default `desc` order then negates it (`:297`). So with the default
  options the lowest score comes first, and only `asc` puts the best match
  first. `Ranking.RelevanceDescPutsLowerFirst` states this.
- Accented letters. The tokenizer's `\w` has no `u` flag, so it matches ASCII
  word characters only. An accented letter therefore separates words like
  punctuation does: `tokenize("café!")` is `["caf"]`
  (`Tokenizer.TokensAccented`).

## Model

| member | source | states |
|---|---|---|
| Tokenizer.Tokenize | src/services/searchIndex.ts:15-59 | the tokens are the reference segmentation of the lower-cased, scrubbed and trimmed text; empty text gives none |
| Tokenizer.Scan | src/services/searchIndex.ts:28-55 | the character loop with a pending word, plus the final flush, yields exactly the reference segmentation of the normalised text |
| Tokenizer.ScanChar | src/services/searchIndex.ts:30-51 | one character step (CJK flushes the word and becomes a token, whitespace flushes, anything else extends the word) keeps emitted tokens plus the segmentation of what is pending equal to the whole segmentation |
| Tokenizer.WordLen | src/services/searchIndex.ts:30-50 | the pending word grows over a maximal run of characters that are neither CJK nor whitespace |
| Tokenizer.WordLenConcat | src/services/searchIndex.ts:30-50 | the word run of a concatenation stops inside the first part or continues into the second |
| Tokenizer.SegmentWordThenBreak | src/services/searchIndex.ts:35-46 | a word followed by a break or the end of text is emitted as one token |
| Tokenizer.SegmentCjk | src/services/searchIndex.ts:35-40 | a CJK character is a token of its own |
| Tokenizer.SegmentTrimStart | src/services/searchIndex.ts:22 | leading whitespace removed by trim changes no token |
| Tokenizer.SegmentTrimEnd | src/services/searchIndex.ts:22 | trailing whitespace removed by trim changes no token |
| Tokenizer.SegmentAppendSeparator | src/services/searchIndex.ts:41-46 | a trailing separator adds no token |
| Tokenizer.TokensOfScrub | src/services/searchIndex.ts:19-24 | trimming is invisible: the tokens are the segmentation of the scrubbed text |
| Tokenizer.ScrubIsNormal | src/services/searchIndex.ts:19-21 | after lower-casing and replacement only lower-case word characters, CJK characters and spaces remain |
| Tokenizer.SegmentConcat | src/services/searchIndex.ts:28-55 | the segments, concatenated in order, are the text without its whitespace |
| Tokenizer.SegmentEmpty | src/services/searchIndex.ts:28-55 | the segmentation is empty exactly when the text is all whitespace |
| Tokenizer.SegmentTokens | src/services/searchIndex.ts:28-58 | on normalised text every segment is a non-empty token, so the final filter drops nothing |
| Tokenizer.TokensAreTokens | src/services/searchIndex.ts:15-58 | every token is one CJK character or a non-empty run of `[a-z0-9_]` |
| Tokenizer.TokensConcat | src/services/searchIndex.ts:15-59 | the tokens, concatenated in order, are the normalised text without whitespace: nothing is lost or reordered |
| Tokenizer.TokensEmpty | src/services/searchIndex.ts:16-25 | `tokenize` returns nothing exactly when the text has no ASCII word character and no CJK character |
| Tokenizer.TokensHelloWorld | src/services/searchIndex.ts:15-59 | "Hello World" gives ["hello", "world"] |
| Tokenizer.TokensAccented | src/services/searchIndex.ts:19-21 | "café!" gives ["caf"]: an accented letter separates words |
| Tokenizer.TokensCjkThenWord | src/services/searchIndex.ts:34-55 | two CJK characters then a Latin word give three tokens: one per CJK character, then the word |
| Tokenizer.TokensMixedScripts | src/services/searchIndex.ts:34-55 | "你好world" gives ["你", "好", "world"] |
| Tokenizer.LowerWordRun | src/services/searchIndex.ts:47-50 | a run of lower-case ASCII word characters is never split |
| Tokenizer.ScrubKeeps | src/services/searchIndex.ts:19-21 | text of lower-case word and CJK characters is unchanged by normalisation |
| TermExtraction.ExtractTerms | src/services/searchIndex.ts:64-99 | the terms are the tokens of title, description, notes, URL and tags, in that order |
| TermExtraction.PushFieldTerms | src/services/searchIndex.ts:66-80 | a present field appends its tokens and an absent one appends nothing |
| TermExtraction.PushUrlTerms | src/services/searchIndex.ts:82-92 | a URL that parses appends the tokens of host and path; otherwise the tokens of the raw string |
| TermExtraction.PushTagTerms | src/services/searchIndex.ts:94-97 | the tag loop appends each tag's tokens, tag by tag |
| TermExtraction.TagTermsStep | src/services/searchIndex.ts:94-97 | one more tag appends exactly its tokens |
| TermExtraction.TagTermsAreTokens | src/services/searchIndex.ts:94-97 | every tag term is a token |
| TermExtraction.TermsAreTokens | src/services/searchIndex.ts:64-99 | every term of a bookmark is a token |
| Postings.ValidPosted | src/services/searchIndex.ts:104-120 | under the invariant an id is in a term's posting list exactly when the term is one of its bookmark's terms |
| Postings.PostedAreDocs | src/services/searchIndex.ts:9-10 | under the invariant every posted id is a cached bookmark |
| Postings.ValidTerms | src/services/searchIndex.ts:345-350 | under the invariant the indexed terms are exactly the terms of the cached bookmarks |
| Postings.TermCount | src/services/searchIndex.ts:345-350 | under the invariant the index has one entry per distinct term of the cached bookmarks |
| Postings.ValidIffBuilt | src/services/searchIndex.ts:155-159 | the invariant holds exactly when the index is the one built from the cached bookmarks |
| Postings.ValidBuilt | src/services/searchIndex.ts:155-159 | an index satisfying the invariant is the built index |
| Postings.ValidEntry | src/services/searchIndex.ts:104-120 | under the invariant each entry is the posting list computed for its term |
| Postings.BuiltValid | src/services/searchIndex.ts:155-159 | the built index satisfies the invariant |
| Postings.AddKeepsValid | src/services/searchIndex.ts:104-120 | adding a bookmark whose id is not yet cached keeps the invariant for the extended cache |
| Postings.RemoveKeepsValid | src/services/searchIndex.ts:133-150 | removing a cached bookmark keeps the invariant for the reduced cache and leaves no posting of its id |
| Postings.AddedStep | src/services/searchIndex.ts:108-119 | one step of the add loop (create the entry if absent, frequency + 1) extends the described update by one term |
| Postings.AddedPostingAt | src/services/searchIndex.ts:113-118 | the same, for one term and one id |
| Postings.RemovedStep | src/services/searchIndex.ts:141-149 | one step of the remove loop (delete the id, drop the entry when it empties) extends the described update by one term |
| Postings.RemovedKeysStep | src/services/searchIndex.ts:145-147 | after one removal step an entry survives exactly when it still has another id |
| Postings.RemovedPostingsStep | src/services/searchIndex.ts:142-144 | after one removal step the id has no posting and no frequency under any removed term, and nothing else changes |
| Postings.RemovedPostingAt | src/services/searchIndex.ts:142-147 | the same, for one term and one id |
| Postings.AddedDetermines | src/services/searchIndex.ts:104-120 | the add update determines the new index completely |
| Postings.RemovedDetermines | src/services/searchIndex.ts:133-150 | the remove update determines the new index completely |
| Postings.SameEntries | src/services/searchIndex.ts:9 | two indexes with the same terms, entry names, postings and frequencies are equal |
| Scoring.LowerCase | src/services/searchIndex.ts:187-217 | the lower-cased field has the same length and no upper-case letter left; each upper-case letter becomes the same letter in lower case, and every other character is kept |
| Scoring.LowerCaseIdempotent | src/services/searchIndex.ts:188 | lower-casing an already lower-cased field changes nothing |
| Scoring.Bonus | src/services/searchIndex.ts:187-217 | the bonus of any set of fields is at most 10 + 8 + 5 + 3 |
| Scoring.ScoreStep | src/services/searchIndex.ts:174-220 | scoring one more query term continues from the score of the shorter prefix |
| Scoring.ScoreTermShape | src/services/searchIndex.ts:174-220 | one query term adds its stored frequency, and, when it is a bookmark term, records each matching field once and adds its weight |
| Scoring.RewardFieldsShape | src/services/searchIndex.ts:187-217 | the four field checks record exactly the matching fields not yet recorded and add exactly their bonus |
| Scoring.RewardShape | src/services/searchIndex.ts:187-193 | one field check adds the weight only of a matching field not yet in `matchedFields`, and appends it |
| Scoring.FiredStep | src/services/searchIndex.ts:180-185 | the fields fired by a query grow by the matches of its last term when that term is indexed and a bookmark term |
| Scoring.ScoreFromScratch | src/services/searchIndex.ts:164-223 | from no matched fields, the matched fields are the fired fields, each once, and the score is the stored frequencies plus their bonus |
| Scoring.ScoreBounds | src/services/searchIndex.ts:164-223 | the score lies between the term-frequency part and that part plus 26 |
| Scoring.BaseScoreNonNegative | src/services/searchIndex.ts:176-179 | on a well-formed index the term-frequency part is not negative |
| Scoring.ScoreFromContent | src/services/searchIndex.ts:174-185 | under the invariant the term-frequency part and the fired fields can be read off the bookmark's own terms |
| Scoring.SingleTermScore | src/services/searchIndex.ts:174-217 | a single query term that is a bookmark term scores its frequency plus the weights of the fields containing it |
| Scoring.TitleOutscoresDescription | src/services/searchIndex.ts:187-209 | at equal frequency, a title-only match outscores a description-only match by exactly 5 |
| Filtering.MatchesFilters | src/services/searchIndex.ts:311-340 | a bookmark passes exactly when it meets each requested check: category, every requested tag, favourite, archived |
| Filtering.NoFiltersMatchAll | src/services/searchIndex.ts:311-340 | with nothing requested, or an empty category or tag list, every bookmark passes |
| Filtering.MoreTagsNarrow | src/services/searchIndex.ts:324-329 | asking for one more tag only narrows the result |
| Filtering.TagFilterExample | src/services/searchIndex.ts:324-329 | tags [a, b] pass [a] and [a, b] but not [a, c] |
| Ranking.RawComparison | src/services/searchIndex.ts:285-296 | the raw comparison of each key is negative when the first result goes first in ascending order: the higher score by relevance, the earlier time by creation or update time, `localeCompare` by title; zero exactly on equal scores or times |
| Ranking.Compare | src/services/searchIndex.ts:284-298 | the comparator is the raw comparison under `asc` and its negation otherwise; for a consistent `localeCompare` it is at most zero exactly when the pair is in the order the key and direction name |
| Ranking.LeqMeaning | src/services/searchIndex.ts:284-298 | the comparator says "no later" exactly when the pair is in the order the key and direction name |
| Ranking.LeqTotalPreorder | src/services/searchIndex.ts:284-298 | the comparator is total and transitive |
| Ranking.LeqTotal | src/services/searchIndex.ts:284-298 | any two results are comparable |
| Ranking.LeqTrans | src/services/searchIndex.ts:284-298 | the comparator is transitive |
| Ranking.ConsSorted | src/services/searchIndex.ts:284-298 | a result that may precede every element of a sorted list may head it |
| Ranking.Insert | src/services/searchIndex.ts:284-298 | inserting into a sorted list gives a sorted list with one more copy of the result |
| Ranking.InsertAfterHead | src/services/searchIndex.ts:284-298 | insertion behind a head that may precede the new result keeps the list sorted |
| Ranking.InsertAtHead | src/services/searchIndex.ts:284-298 | a new result that must precede the head may head the list |
| Ranking.SortResults | src/services/searchIndex.ts:284-298 | the sort returns a sorted permutation of the results |
| Ranking.SortedMeaning | src/services/searchIndex.ts:284-298 | in the sorted results every pair is in the order the key and direction name |
| Ranking.RelevanceDescPutsLowerFirst | src/services/searchIndex.ts:287-297 | under the default `desc` order the lower score comes first, and the other order is not sorted |
| SearchEngine.DocsOf | src/services/searchIndex.ts:9-10 | the documents are described for exactly the cached ids |
| SearchEngine.CacheOf | src/services/searchIndex.ts:155-159 | the rebuilt cache files each bookmark under its id and holds exactly the ids of the list |
| SearchEngine.CacheOfDistinct | src/services/searchIndex.ts:155-159 | with distinct ids every bookmark of the list is cached as it is |
| SearchEngine.CacheOfStep | src/services/searchIndex.ts:157-158 | one more bookmark is filed over the shorter list's cache; with distinct ids its id was not there yet |
| SearchEngine.DocsOfStore | src/services/searchIndex.ts:105 | caching a bookmark sets its document to its terms |
| SearchEngine.DocsOfDelete | src/services/searchIndex.ts:137 | deleting from the cache deletes its document |
| SearchEngine.CandidatesMeaning | src/services/searchIndex.ts:256-267 | an id is a candidate exactly when some query term has it in its posting list |
| SearchEngine.AppendResult | src/services/searchIndex.ts:270-280 | appending a result for a new bookmark keeps results distinct and adds its id |
| SearchEngine.DistinctCount | src/services/searchIndex.ts:270-280 | distinct results are as many as their ids |
| SearchEngine.DistinctOnce | src/services/searchIndex.ts:270-280 | in distinct results each result occurs once |
| SearchEngine.PermutedDistinct | src/services/searchIndex.ts:284-298 | sorting keeps the results distinct, with the same ids, length and members |
| SearchEngine.SearchIndex.constructor | src/services/searchIndex.ts:9-10 | a new index is empty and satisfies the invariant |
| SearchEngine.SearchIndex.AddBookmark | src/services/searchIndex.ts:104-120 | the bookmark is cached under its id; each term's frequency rises by its number of occurrences; for a new id the invariant is kept |
| SearchEngine.SearchIndex.PostTerms | src/services/searchIndex.ts:108-119 | the term loop of `addBookmark` performs exactly the described add update |
| SearchEngine.SearchIndex.RemoveBookmark | src/services/searchIndex.ts:133-150 | an uncached id changes nothing; otherwise the id leaves the cache and the posting lists of its cached terms, and empty lists are dropped; when the invariant held, it is kept and no posting of the id remains |
| SearchEngine.SearchIndex.UnpostTerms | src/services/searchIndex.ts:140-149 | the term loop of `removeBookmark` performs exactly the described remove update |
| SearchEngine.SearchIndex.UpdateBookmark | src/services/searchIndex.ts:125-128 | the new bookmark replaces the old; the index changes by the removal of the cached copy's terms, if any, then the addition of the new terms; under the invariant its frequencies are the counts of its new terms, other ids' frequencies are unchanged, and the invariant is kept |
| SearchEngine.SearchIndex.RebuildIndex | src/services/searchIndex.ts:155-159 | the cache is rebuilt from the list; with distinct ids the index satisfies the invariant for it |
| SearchEngine.SearchIndex.CalculateScore | src/services/searchIndex.ts:164-223 | 0 and the given fields for an uncached id; otherwise the score and matched fields of the fold over the query terms |
| SearchEngine.SearchIndex.ScoreQueryTerm | src/services/searchIndex.ts:174-220 | one query term of the loop adds what the term's score step adds |
| SearchEngine.SearchIndex.ResultMeaning | src/services/searchIndex.ts:270-280 | under the invariant a result's fields are, once each, the fields containing a query term of the bookmark, and its score is the occurrence count of the query terms plus their bonus |
| SearchEngine.SearchIndex.EligibleFromContent | src/services/searchIndex.ts:256-275 | under the invariant an id is reported for a non-empty query exactly when it is cached, passes the filters and has a query term among its terms |
| SearchEngine.SearchIndex.BrowseAll | src/services/searchIndex.ts:244-253 | an empty query lists every cached bookmark that passes the filters, once, with score 0 and no fields |
| SearchEngine.SearchIndex.CollectCandidates | src/services/searchIndex.ts:256-267 | the candidates are the union of the query terms' posting lists |
| SearchEngine.SearchIndex.ScoreCandidates | src/services/searchIndex.ts:269-280 | each cached candidate passing the filters is listed once, with its score and fields |
| SearchEngine.SearchIndex.Search | src/services/searchIndex.ts:228-306 | results are distinct, eligible, each with its true score; sorted by the chosen key and order; as many as the limit allows; every eligible result left out sorts no earlier than one kept; all of them when nothing is cut |
| SearchEngine.SearchIndex.SearchOutcome | src/services/searchIndex.ts:283-306 | sorting and cutting the collected results gives those properties |
| SearchEngine.SearchIndex.GetStats | src/services/searchIndex.ts:345-350 | `getStats` reports the term and bookmark counts; under the invariant the term count is the number of distinct terms over all cached bookmarks and the bookmark count is the cache size |

## Left out

- Lower-casing covers the ASCII letters only. The few non-ASCII letters whose JavaScript `toLowerCase` is an ASCII letter (U+0130, U+212A) are not modelled.
- Text is a sequence of Unicode characters, not of UTF-16 code units. A character outside the Basic Multilingual Plane becomes one space instead of two, which changes no token.
- `new URL(...)` is not part of this model: it is the parameter `parseUrl`.
- `localeCompare` is not part of this model: it is the parameter `lc`, required to be a consistent comparator.
- The module-level singleton (`src/services/searchIndex.ts:354`) is not modelled: it only constructs one instance.
- Map iteration order is not modelled. The loops over the cache and over the candidates take the remaining ids in an unspecified order, so the order of results that compare equal is not fixed.
- SearchEngine.SearchIndex.Search: sort stability is not stated. The model's insertion sort is stable, but the contract claims only a sorted permutation.
- The limit is an integer in the model. A fractional `limit` (which `slice` truncates) and a `sortBy` or `sortOrder` outside the listed values are not modelled.
- `matchedFields` holds `Field` values instead of field-name strings. `Field.Name()` gives the string the source records.
- Scores and times are unbounded integers. JavaScript numbers are doubles, and differences beyond 2^53 lose precision there.
- The score map built during `search` is a set of candidate ids in the model. Each of its values starts as a fresh `{ score: 0, matchedFields: [] }` and only serves as scratch space while that id is scored, so the model keeps the ids and passes `[]` to `CalculateScore`.
- SearchEngine.SearchIndex.AddBookmark: keeps the invariant only for an id not yet cached. For a cached id the model states the doubled frequencies, as the source produces them.
- SearchEngine.SearchIndex.RebuildIndex: with duplicate ids in the list, only the cache is stated. The index then double-counts the repeated id, as `addBookmark` does.
- Bookmarks are values. The source caches the caller's object by reference, so later mutation by the caller is not modelled.
