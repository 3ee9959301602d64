# IndexerDbAdapter, modelled in Dafny

`IndexerDbAdapter` is the storage and retrieval layer of a small web search
engine. It keeps three MySQL tables. `tb1_urls` holds the crawled documents:
url, nullable plain-text content and page rank. `tb2_words` holds the
postings: word, url and score. `tb3_links` holds the directed link graph.
The adapter upserts documents and postings, inserts links, and deletes with
cascade. It answers two queries: keyword search over the postings, and phrase
search with `LIKE` over the content. Both queries return one page of
`{url, content}` records.

This project models that core:

- `wrappers.dfy`: `Option` and `Result`.
- `strings.dfy`: character counts and substring containment.
- `pagination.dfy`: Java `int` wrap-around, the offset `(page - 1) * limit`,
  the `LIMIT offset, count` window, and the disjointness of pages.
- `placeholders.dfy`: `makePlaceholders` as a method with its loop.
- `like.dfy`: the SQL `LIKE` predicate as a recursive function. `%` matches
  any sequence, `_` matches one character, and there is an optional escape
  character (ISO/IEC 9075, section 8.5).
- `phrase.dfy`: the phrase rewrite exactly as the code chains it, what its
  pattern matches, and a corrected rewrite (see Findings).
- `indexer_db.dfy`: the class `IndexerDbAdapter`. Its fields are the three
  tables: `docs: map<Url, Doc>`, `postings: map<(Word, Url), real>` and
  `links: set<(Url, Url)>`. `Valid()` states the foreign keys of the DDL.
  The map and set keys give the three unique indexes. Each DML method
  preserves `Valid()` and states its whole new state. The two queries select
  a set of documents and page through an unspecified order of it.
- `scenarios.dfy`: client methods that replay end-to-end uses from the
  contracts alone: shared words, the 0.6 score boundary, link
  insert/repeat/cascade, upsert and rank reset, and the wildcard leak.

A page rank is only ever written as `1.0/(N+1)` or `1.0/N`. The model keeps
it exactly, as the integer denominator `N+1` or `N`.

Where the code and the intended design differ, the model follows the code:

- The phrase rewrite does not make `%` and `_` literal (see Findings).
  `QueryPhrase` keeps the code's behaviour. `QueryPhraseLiteral` shows the
  corrected one.
- A posting for a url that is not a document fails on the foreign key, and
  the error is swallowed. `AddWord` then changes nothing and reports nothing.
- `resetPagesRank` on an empty store has no guard. It formats `1.0/0` as
  `Infinity` into the UPDATE, which MySQL rejects, and the error is
  swallowed. The table is empty anyway, so nothing changes.
- An empty word list makes `makePlaceholders` throw a `RuntimeException`.
  Nothing catches it, so it leaves `queryWords` before any statement runs.
  The model returns `Failure(PlaceholderError("No placeholders"))`. More
  than 2^30 words make the capacity `len * 2 - 1` of its `StringBuilder`
  wrap negative in `int` arithmetic, so the constructor throws
  `NegativeArraySizeException`, which escapes in the same way. The model
  returns `Failure(PlaceholderError("NegativeArraySizeException"))`. An
  `SQLException`, for example a negative LIMIT argument, makes the adapter
  return `null`. The model returns `Failure(StatementFailed)`.

## Model

| member | source | states |
|---|---|---|
| Placeholders.MakePlaceholders | search/src/main/java/IndexerDbAdapter.java:212-224 | fails iff the length is below 1 ("No placeholders") or above 2^30 (the buffer capacity `len * 2 - 1` wraps negative); otherwise returns `?` and `,` alternating, starting and ending with `?`, of length 2n-1 |
| Placeholders.PlaceholderCount | search/src/main/java/IndexerDbAdapter.java:212-224 | such a list holds exactly n `?` |
| Pagination.Wrap32 | search/src/main/java/IndexerDbAdapter.java:242 | Java `int` arithmetic: the result is congruent to the exact value mod 2^32, lies in the `int` range, and equals the exact value when that value fits |
| Pagination.Offset | search/src/main/java/IndexerDbAdapter.java:242 | the offset computed in `int` arithmetic is congruent to the exact (page-1)*limit modulo 2^32 |
| Pagination.OffsetExact | search/src/main/java/IndexerDbAdapter.java:242 | the bound offset is exactly (page-1)*limit whenever the product fits in an `int` |
| Pagination.OffsetWrapsNegative | search/src/main/java/IndexerDbAdapter.java:242 | page 2^30+1 with limit 2 wraps the offset to -2^31, so that page is never reached |
| Pagination.WindowSize | search/src/main/java/IndexerDbAdapter.java:242-243 | a LIMIT window keeps at most `count` rows, and none beyond the end |
| Pagination.Window | search/src/main/java/IndexerDbAdapter.java:242-243 | `LIMIT offset, count` keeps `WindowSize` rows, the i-th being row offset+i of the ordering |
| Pagination.PagesDisjoint | search/src/main/java/IndexerDbAdapter.java:242-243 | for limit >= 1 and no overflow, two different pages of one duplicate-free ordering share no row |
| LikeMatch.PercentSkips | search/src/main/java/IndexerDbAdapter.java:265 | a leading `%` lets the rest of the pattern match after any prefix of the content |
| LikeMatch.PercentSplits | search/src/main/java/IndexerDbAdapter.java:265 | a match of a leading `%` always skips some prefix, then matches the rest |
| LikeMatch.MatchesAnything | search/src/main/java/IndexerDbAdapter.java:265 | `%` matches every content |
| Phrase.ReplaceAll | search/src/main/java/IndexerDbAdapter.java:270 | `String.replace` with a one-character target adds len(t)-1 characters per occurrence |
| Phrase.Escape | search/src/main/java/IndexerDbAdapter.java:270 | the chained replacements lengthen the phrase by one character per `%` and two per `_` |
| Phrase.EscapeChar | search/src/main/java/IndexerDbAdapter.java:270 | one character's rewrite ends with that character, and only `%` and `_` gain a prefix |
| Phrase.EscapeEach | search/src/main/java/IndexerDbAdapter.java:270 | the per-character rewrite has length len(p) + count('%') + 2·count('_') |
| Phrase.EscapeIsPerChar | search/src/main/java/IndexerDbAdapter.java:270 | the two chained replacements map `_` to `%%_` and `%` to `%%`, and keep every other character in order |
| Phrase.PhrasePattern | search/src/main/java/IndexerDbAdapter.java:270-271 | the bound pattern is `%%` + per-character rewrite + `%%`, of length len(p) + count('%') + 2·count('_') + 4 |
| Phrase.EscapedPrefixMatches | search/src/main/java/IndexerDbAdapter.java:270-271 | a content that starts with the phrase, and whose rest matches q, matches the rewritten phrase followed by q |
| Phrase.ContainsMatches | search/src/main/java/IndexerDbAdapter.java:265-271 | every content that contains the phrase matches the phrase pattern |
| Phrase.WildcardLeak | search/src/main/java/IndexerDbAdapter.java:269-271 | "axyb" matches the pattern for "a_b" but does not contain "a_b": the converse fails |
| Phrase.LiteralPrefix | search/src/main/java/IndexerDbAdapter.java:269-271 | corrected rewrite: the escaped phrase followed by q matches exactly the contents that start with the phrase and whose rest matches q |
| Phrase.LiteralPattern | search/src/main/java/IndexerDbAdapter.java:269-271 | corrected rewrite: the pattern starts and ends with `%` and is at least two characters longer than the phrase |
| Phrase.LiteralPatternExact | search/src/main/java/IndexerDbAdapter.java:269-271 | corrected rewrite: a content matches `%` + escaped phrase + `%`, with the escape character `\` (`ESCAPE '\\'`), iff it contains the phrase |
| IndexerDb.WordMatches | search/src/main/java/IndexerDbAdapter.java:229-233 | the keyword query selects only documents |
| IndexerDb.PhraseMatches | search/src/main/java/IndexerDbAdapter.java:265-271 | selects only documents with non-null content that is LIKE the pattern, and includes every document whose content contains the phrase |
| IndexerDb.LiteralPhraseMatches | search/src/main/java/IndexerDbAdapter.java:265-271 | with the corrected pattern, selects exactly the documents whose non-null content contains the phrase |
| IndexerDb.YieldOrder | search/src/main/java/IndexerDbAdapter.java:245-253 | the store returns the selected documents in some order, each exactly once |
| IndexerDb.IndexerDbAdapter.constructor | search/src/main/java/IndexerDbAdapter.java:56-77 | a freshly provisioned store has three empty tables, and the foreign keys hold |
| IndexerDb.IndexerDbAdapter.GetDocumentsNum | search/src/main/java/IndexerDbAdapter.java:133-143 | returns the number of document rows |
| IndexerDb.IndexerDbAdapter.AddURL | search/src/main/java/IndexerDbAdapter.java:146-159 | leaves exactly one row for the url, with the given content and rank 1/(N+1) for the count N read before; the count rises by 1 iff the url was new; postings and links are unchanged; the foreign keys hold |
| IndexerDb.IndexerDbAdapter.GetUnindexedURL | search/src/main/java/IndexerDbAdapter.java:161-171 | returns some document with null content, or None iff every document has content |
| IndexerDb.IndexerDbAdapter.ResetPagesRank | search/src/main/java/IndexerDbAdapter.java:173-180 | every document keeps its content and gets rank 1/N; with no documents nothing changes |
| IndexerDb.IndexerDbAdapter.AddWord | search/src/main/java/IndexerDbAdapter.java:184-196 | for a url that is a document, sets the one posting for (word, url) to the score, so a repeat overwrites it; otherwise the foreign key rejects the insert and nothing changes |
| IndexerDb.IndexerDbAdapter.AddLink | search/src/main/java/IndexerDbAdapter.java:199-209 | returns true and adds the edge iff both endpoints are documents and the edge is new; otherwise returns false and the links are unchanged, so an exact repeat returns false |
| IndexerDb.IndexerDbAdapter.DeleteURL | search/src/main/java/IndexerDbAdapter.java:294-303 | removes the document, every posting for it and every link from or to it, and nothing else; the foreign keys hold |
| IndexerDb.IndexerDbAdapter.DeleteAllURLS | search/src/main/java/IndexerDbAdapter.java:305-316 | leaves all three tables empty |
| IndexerDb.IndexerDbAdapter.Page | search/src/main/java/IndexerDbAdapter.java:242-253 | fails iff the offset or the limit is negative; otherwise returns a page of the selected documents, each at most once, with its content, and as many rows as the window keeps |
| IndexerDb.IndexerDbAdapter.QueryWords | search/src/main/java/IndexerDbAdapter.java:228-262 | fails before any query with "No placeholders" iff the word list is empty, and with `NegativeArraySizeException` iff it has more than 2^30 words; otherwise fails, with a statement failure, iff the LIMIT arguments are negative, and else returns at most `limit` rows, each url once, each with a posting scored strictly below 0.6 for some query word, as a page of all such documents |
| IndexerDb.IndexerDbAdapter.QueryPhrase | search/src/main/java/IndexerDbAdapter.java:264-292 | fails, with a statement failure, iff the LIMIT arguments are negative; else returns a page of documents whose non-null content matches the rewritten pattern; on a first page large enough, every document containing the phrase is in it |
| IndexerDb.IndexerDbAdapter.QueryPhraseLiteral | search/src/main/java/IndexerDbAdapter.java:264-292 | fails, with a statement failure, iff the LIMIT arguments are negative; with the corrected pattern, returns only documents that contain the phrase; on a first page large enough, it returns all of them |

## Left out

- Connection lifecycle and provisioning are I/O against MySQL: `open`,
  `close`, `createTables`, the driver load and `CREATE DATABASE` (lines
  81-131). The constructor stands for a freshly provisioned empty store.
- The IDF sub-select, `log(N/df)`, and `ORDER BY SUM(score*idf) DESC` are
  floating-point logarithms. The join with the sub-select removes no row,
  because every word with a posting has an IDF row.
- QueryWords: the contract does not state that rows are ordered by
  descending TF-IDF. `YieldOrder` stands for the store's order, and any
  duplicate-free order is allowed. The same goes for ties.
- PagesDisjoint: holds for one fixed ordering. Two separate calls see the
  same ordering only if the store breaks ties the same way both times, and
  the source does not guarantee that.
- Page ranks and scores are doubles in the source. A rank is the integer
  denominator N of `1/N`. A score is an abstract `real`, used only in the
  `< 0.6` comparison.
- MySQL behaviour the source cannot show is left out:
  - case-insensitive collation in the unique indexes, `IN` and `LIKE`;
  - backslash as the default `LIKE` escape character;
  - VARCHAR(256) truncation or rejection, which depends on the server's SQL
    mode.
- `NULL` urls, a `null` phrase and `null` words are not modelled. A url,
  word or phrase is always a string. A document's content may be null.
- Driver failures are not modelled: a lost connection, the 0 that
  `getDocumentsNum` returns on error, the `null` that `getUnindexedURL`
  returns on error, and a partial `deleteAllURLS` batch. Exception printing
  is left out too.
- The unused column-index constants (lines 30-42) are not modelled.
- Concurrent writers are not modelled. The adapter is used serially over one
  connection.
- LIKE: SQL-92 rejects a pattern that ends with a lone escape character. The
  model takes such a character literally. The corrected pattern never ends
  that way.

## Findings

| source | as written | input that shows it | evidently intended | confidence | as-written member | corrected member |
|---|---|---|---|---|---|---|
| search/src/main/java/IndexerDbAdapter.java:269-271 | `replace("_", "%_").replace("%", "%%")` turns `_` into `%%_` and `%` into `%%`, and both stay wildcards, so the comment's "escape wildcard characters" does not happen | phrase "a_b" gives the pattern "%%a%%_b%%", which the content "axyb" matches | `%` and `_` in the phrase match only themselves, by escaping with `\` and binding with `LIKE ? ESCAPE '\\'` | not executed | Phrase.WildcardLeak | Phrase.LiteralPatternExact |
