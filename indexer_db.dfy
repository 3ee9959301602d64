/** The adapter's three tables held in memory: documents keyed by url,
    postings keyed by (word, url), and the link set, with the foreign keys
    and unique indexes of the declared schema, the DML that the adapter's
    methods issue, and the membership and paging of its two queries. */
module IndexerDb {
  import opened Wrappers
  import opened Strings
  import opened LikeMatch
  import opened Phrase
  import opened Pagination
  import opened Placeholders

  type Url = string
  type Word = string

  /** A positive rank denominator: a page rank is always written as 1/N. */
  type Pos = n: int | 1 <= n witness 1

  /** A row of the documents table. Its page rank is 1 / rankDenominator;
      a null content is a discovered page that is not fetched yet. */
  datatype Doc = Doc(content: Option<string>, rankDenominator: Pos)

  /** One result record: the url and content columns of a returned row. */
  datatype Row = Row(url: Url, content: Option<string>)

  /** How a query ends without rows: the placeholder builder throws, or the
      statement fails and the adapter returns null. */
  datatype QueryError = PlaceholderError(message: string) | StatementFailed

  /** Postings with a score at or above this are filtered out of keyword search. */
  const ScoreThreshold: real := 0.6

  function Urls(rows: seq<Row>): (us: seq<Url>)
    ensures |us| == |rows| && forall i | 0 <= i < |rows| :: us[i] == rows[i].url
  {
    if rows == [] then [] else [rows[0].url] + Urls(rows[1..])
  }

  /** Documents the keyword query groups: those with a posting for one of
      the query words whose score is below the threshold. */
  function WordMatches(docs: map<Url, Doc>, postings: map<(Word, Url), real>, words: seq<Word>): (r: set<Url>)
    ensures r <= docs.Keys
  {
    set u | u in docs && exists w | w in words :: (w, u) in postings && postings[(w, u)] < ScoreThreshold
  }

  /** Documents the phrase query selects: a non-null content that is LIKE
      the rewritten phrase (no escape character). */
  function PhraseMatches(docs: map<Url, Doc>, phrase: string): (r: set<Url>)
    ensures forall u | u in r :: u in docs && docs[u].content.Some?
                                 && Like(docs[u].content.value, PhrasePattern(phrase), None)
    ensures forall u | u in docs && docs[u].content.Some? && Contains(docs[u].content.value, phrase) :: u in r
  {
    ContainingDocsMatch(docs, phrase);
    set u | u in docs && docs[u].content.Some? && Like(docs[u].content.value, PhrasePattern(phrase), None)
  }

  lemma ContainingDocsMatch(docs: map<Url, Doc>, phrase: string)
    ensures forall u | u in docs && docs[u].content.Some? && Contains(docs[u].content.value, phrase)
              :: Like(docs[u].content.value, PhrasePattern(phrase), None)
  {
    forall u | u in docs && docs[u].content.Some? && Contains(docs[u].content.value, phrase)
      ensures Like(docs[u].content.value, PhrasePattern(phrase), None)
    {
      ContainsMatches(docs[u].content.value, phrase);
    }
  }

  /** Documents the corrected phrase query selects: exactly those whose
      content contains the phrase. */
  function LiteralPhraseMatches(docs: map<Url, Doc>, phrase: string): (r: set<Url>)
    ensures forall u :: u in r <==> u in docs && docs[u].content.Some? && Contains(docs[u].content.value, phrase)
  {
    LiteralDocsMatch(docs, phrase);
    set u | u in docs && docs[u].content.Some? && Like(docs[u].content.value, LiteralPattern(phrase), Some(EscapeCharacter))
  }

  lemma LiteralDocsMatch(docs: map<Url, Doc>, phrase: string)
    ensures forall u | u in docs && docs[u].content.Some? ::
              Like(docs[u].content.value, LiteralPattern(phrase), Some(EscapeCharacter))
              <==> Contains(docs[u].content.value, phrase)
  {
    forall u | u in docs && docs[u].content.Some?
      ensures Like(docs[u].content.value, LiteralPattern(phrase), Some(EscapeCharacter))
              <==> Contains(docs[u].content.value, phrase)
    {
      LiteralPatternExact(docs[u].content.value, phrase);
    }
  }

  /** The order in which the store hands back the selected rows. The ranking
      behind it is not modelled, so any duplicate-free enumeration may come out. */
  method YieldOrder<T(==)>(s: set<T>) returns (xs: seq<T>)
    ensures Distinct(xs) && |xs| == |s|
    ensures forall x :: x in xs <==> x in s
  {
    xs := [];
    var rest := s;
    while rest != {}
      invariant rest <= s
      invariant forall x :: x in xs <==> x in s && x !in rest
      invariant Distinct(xs)
      invariant |xs| + |rest| == |s|
      decreases |rest|
    {
      var x :| x in rest;
      xs := xs + [x];
      rest := rest - {x};
    }
  }

  class IndexerDbAdapter {
    var docs: map<Url, Doc>
    var postings: map<(Word, Url), real>
    var links: set<(Url, Url)>

    /** The foreign keys: every posting url and every link endpoint is a
        document. Uniqueness of url, (word, url) and (src, dst) is given by
        the map and set keys. */
    ghost predicate Valid()
      reads this
    {
      && (forall k | k in postings :: k.1 in docs)
      && (forall l | l in links :: l.0 in docs && l.1 in docs)
    }

    /** `rows` is a page of the selected documents `matches`: each document at
        most once, with its content, as many rows as the LIMIT window keeps. */
    ghost predicate IsResultPage(rows: seq<Row>, matches: set<Url>, offset: int, limit: int)
      reads this
    {
      && 0 <= offset && 0 <= limit
      && |rows| == WindowSize(|matches|, offset, limit)
      && Distinct(Urls(rows))
      && forall i | 0 <= i < |rows| ::
           rows[i].url in matches && rows[i].url in docs && rows[i].content == docs[rows[i].url].content
    }

    /** A freshly provisioned, empty store. */
    constructor ()
      ensures Valid()
      ensures docs == map[] && postings == map[] && links == {}
    {
      docs, postings, links := map[], map[], {};
    }

    /** `SELECT COUNT(*)` over the documents. */
    method GetDocumentsNum() returns (n: nat)
      ensures n == |docs|
    {
      n := |docs|;
    }

    /** Upsert on the unique url index: the row for `url` gets `content` and
        rank 1/(N+1), N being the count read before the insert. */
    method AddURL(url: Url, content: Option<string>)
      requires Valid()
      modifies this
      ensures Valid()
      ensures docs == old(docs)[url := Doc(content, |old(docs)| + 1)]
      ensures |docs| == |old(docs)| + (if url in old(docs) then 0 else 1)
      ensures postings == old(postings) && links == old(links)
    {
      var n := GetDocumentsNum();
      docs := docs[url := Doc(content, n + 1)];
      if url in old(docs) {
        assert docs.Keys == old(docs).Keys;
      } else {
        assert docs.Keys == old(docs).Keys + {url};
      }
    }

    /** Some document whose content is null, or None when every document has
        content. Which one is returned is not specified. */
    method GetUnindexedURL() returns (r: Option<Url>)
      ensures r.Some? ==> r.value in docs && docs[r.value].content == None
      ensures r.None? <==> forall u | u in docs :: docs[u].content.Some?
    {
      if u :| u in docs && docs[u].content == None {
        r := Some(u);
      } else {
        r := None;
      }
    }

    /** Every rank becomes 1/N. With no documents the statement carries
        `1.0 / 0`, is rejected, and nothing changes. */
    method ResetPagesRank()
      requires Valid()
      modifies this
      ensures Valid()
      ensures docs.Keys == old(docs).Keys
      ensures forall u | u in docs :: docs[u] == Doc(old(docs)[u].content, |docs|)
      ensures postings == old(postings) && links == old(links)
    {
      var n := GetDocumentsNum();
      if n == 0 {
        return;
      }
      docs := map u | u in docs :: Doc(docs[u].content, n);
      assert docs.Keys == old(docs).Keys;
    }

    /** Upsert on the unique (word, url) index; the foreign key rejects a
        url that is not a document, and the error is swallowed. */
    method AddWord(word: Word, url: Url, score: real)
      requires Valid()
      modifies this
      ensures Valid()
      ensures postings == if url in old(docs) then old(postings)[(word, url) := score] else old(postings)
      ensures docs == old(docs) && links == old(links)
    {
      if url in docs {
        postings := postings[(word, url) := score];
      }
    }

    /** Plain insert: true iff both endpoints are documents and the edge is
        new; a unique or foreign-key violation gives false and no change. */
    method AddLink(src: Url, dst: Url) returns (ok: bool)
      requires Valid()
      modifies this
      ensures Valid()
      ensures ok <==> src in old(docs) && dst in old(docs) && (src, dst) !in old(links)
      ensures links == if ok then old(links) + {(src, dst)} else old(links)
      ensures docs == old(docs) && postings == old(postings)
    {
      ok := src in docs && dst in docs && (src, dst) !in links;
      if ok {
        links := links + {(src, dst)};
      }
    }

    /** Deletes the document; ON DELETE CASCADE removes its postings and
        every link from or to it. */
    method DeleteURL(url: Url)
      requires Valid()
      modifies this
      ensures Valid()
      ensures docs == old(docs) - {url}
      ensures postings == map k | k in old(postings) && k.1 != url :: old(postings)[k]
      ensures links == set l | l in old(links) && l.0 != url && l.1 != url
    {
      docs := docs - {url};
      postings := map k | k in postings && k.1 != url :: postings[k];
      links := set l | l in links && l.0 != url && l.1 != url;
    }

    /** Deletes all postings, then all documents; the links go by cascade. */
    method DeleteAllURLS()
      requires Valid()
      modifies this
      ensures Valid()
      ensures docs == map[] && postings == map[] && links == {}
    {
      postings := map[];
      docs := map[];
      links := {};
    }

    /** The `LIMIT offset, limit` window over the selected rows, read into a
        list. A negative offset or limit fails the statement. */
    method Page(matches: set<Url>, limit: Int32, page: Int32) returns (r: Result<seq<Row>, QueryError>)
      requires matches <= docs.Keys
      ensures r.Failure? <==> Offset(page, limit) < 0 || limit < 0
      ensures r.Failure? ==> r.error == StatementFailed
      ensures r.Success? ==> IsResultPage(r.value, matches, Offset(page, limit), limit)
    {
      var offset := Offset(page, limit);
      if offset < 0 || limit < 0 {
        return Failure(StatementFailed);
      }
      var ranked := YieldOrder(matches);
      var window := Window(ranked, offset, limit);
      var rows: seq<Row> := [];
      for i := 0 to |window|
        invariant |rows| == i
        invariant forall j | 0 <= j < i :: rows[j] == Row(window[j], docs[window[j]].content)
      {
        rows := rows + [Row(window[i], docs[window[i]].content)];
      }
      assert Urls(rows) == window;
      return Success(rows);
    }

    /** Keyword search: the placeholder list for the words (which throws when
        there are none, or so many that its buffer capacity wraps), then a page of the documents with a posting below
        the score threshold for some query word, each document once. */
    method QueryWords(words: seq<Word>, limit: Int32, page: Int32) returns (r: Result<seq<Row>, QueryError>)
      requires Valid()
      requires |words| < TwoTo31
      ensures words == [] <==> r == Failure(PlaceholderError("No placeholders"))
      ensures |words| > MaxPlaceholders <==> r == Failure(PlaceholderError("NegativeArraySizeException"))
      ensures 1 <= |words| <= MaxPlaceholders ==> (r.Failure? <==> Offset(page, limit) < 0 || limit < 0)
      ensures 1 <= |words| <= MaxPlaceholders && r.Failure? ==> r.error == StatementFailed
      ensures r.Success? ==> IsResultPage(r.value, WordMatches(docs, postings, words), Offset(page, limit), limit)
      ensures r.Success? ==> |r.value| <= limit
      ensures r.Success? ==> forall i | 0 <= i < |r.value| ::
                exists w | w in words :: (w, r.value[i].url) in postings && postings[(w, r.value[i].url)] < ScoreThreshold
    {
      var placeholders := MakePlaceholders(|words|);
      if placeholders.Failure? {
        return Failure(PlaceholderError(placeholders.error));
      }
      r := Page(WordMatches(docs, postings, words), limit, page);
    }

    /** Phrase search as the adapter does it: a page of the documents whose
        content is LIKE the rewritten phrase. Every document containing the
        phrase is among them; a null content never is. */
    method QueryPhrase(phrase: string, limit: Int32, page: Int32) returns (r: Result<seq<Row>, QueryError>)
      requires Valid()
      ensures r.Failure? <==> Offset(page, limit) < 0 || limit < 0
      ensures r.Failure? ==> r.error == StatementFailed
      ensures r.Success? ==> IsResultPage(r.value, PhraseMatches(docs, phrase), Offset(page, limit), limit)
      ensures r.Success? ==> forall i | 0 <= i < |r.value| ::
                r.value[i].content.Some? && Like(r.value[i].content.value, PhrasePattern(phrase), None)
      ensures r.Success? && Offset(page, limit) == 0 && |PhraseMatches(docs, phrase)| <= limit ==>
                forall u | u in docs && docs[u].content.Some? && Contains(docs[u].content.value, phrase) :: u in Urls(r.value)
    {
      var matches := PhraseMatches(docs, phrase);
      r := Page(matches, limit, page);
      if r.Success? && Offset(page, limit) == 0 && |matches| <= limit {
        CoversAll(Urls(r.value), matches);
      }
    }

    /** Phrase search with the corrected pattern: a page of exactly the
        documents whose content contains the phrase. */
    method QueryPhraseLiteral(phrase: string, limit: Int32, page: Int32) returns (r: Result<seq<Row>, QueryError>)
      requires Valid()
      ensures r.Failure? <==> Offset(page, limit) < 0 || limit < 0
      ensures r.Failure? ==> r.error == StatementFailed
      ensures r.Success? ==> IsResultPage(r.value, LiteralPhraseMatches(docs, phrase), Offset(page, limit), limit)
      ensures r.Success? ==> forall i | 0 <= i < |r.value| ::
                r.value[i].content.Some? && Contains(r.value[i].content.value, phrase)
      ensures r.Success? && Offset(page, limit) == 0 && |LiteralPhraseMatches(docs, phrase)| <= limit ==>
                forall u | u in docs && docs[u].content.Some? && Contains(docs[u].content.value, phrase) :: u in Urls(r.value)
    {
      var matches := LiteralPhraseMatches(docs, phrase);
      r := Page(matches, limit, page);
      if r.Success? && Offset(page, limit) == 0 && |matches| <= limit {
        CoversAll(Urls(r.value), matches);
      }
    }
  }
}
