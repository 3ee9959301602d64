/** End-to-end uses of the adapter model, checked from the contracts alone. */
module Scenarios {
  import opened Wrappers
  import opened Strings
  import opened Pagination
  import opened Phrase
  import opened IndexerDb

  /** Two documents sharing a word below the threshold both come back. */
  method SharedWordScenario()
  {
    var db := new IndexerDbAdapter();
    db.AddURL("http://a", Some("alpha beta"));
    db.AddURL("http://b", Some("beta gamma"));
    db.AddWord("beta", "http://a", 0.3);
    db.AddWord("beta", "http://b", 0.4);
    var r := db.QueryWords(["beta"], 10, 1);
    assert Offset(1, 10) == 0;
    var matches := WordMatches(db.docs, db.postings, ["beta"]);
    assert "beta" in ["beta"];
    assert matches == {"http://a", "http://b"};
    assert r.Success?;
    CoversAll(Urls(r.value), matches);
    assert "http://a" in Urls(r.value) && "http://b" in Urls(r.value);
  }

  /** A score of 0.6 or more filters the posting out; 0.59 stays. */
  method ThresholdScenario()
  {
    var db := new IndexerDbAdapter();
    db.AddURL("http://a", Some("w v"));
    db.AddWord("w", "http://a", 0.7);
    db.AddWord("x", "http://a", 0.6);
    db.AddWord("v", "http://a", 0.59);
    assert Offset(1, 10) == 0;
    var high := db.QueryWords(["w", "x"], 10, 1);
    assert WordMatches(db.docs, db.postings, ["w", "x"]) == {};
    assert high == Success([]);
    var low := db.QueryWords(["v"], 10, 1);
    assert "v" in ["v"];
    assert WordMatches(db.docs, db.postings, ["v"]) == {"http://a"};
    assert low.Success? && |low.value| == 1 && low.value[0].url == "http://a";
  }

  /** No words throws before any statement; one word with a negative limit
      fails the statement instead. */
  method EmptyWordsScenario()
  {
    var db := new IndexerDbAdapter();
    var none := db.QueryWords([], 10, 1);
    assert none == Failure(PlaceholderError("No placeholders"));
    var negative := db.QueryWords(["w"], -1, 1);
    assert negative == Failure(StatementFailed);
  }

  /** A link goes in once, a repeat is refused, and deleting an endpoint removes it. */
  method LinkScenario()
  {
    var db := new IndexerDbAdapter();
    db.AddURL("http://a", Some("alpha beta"));
    db.AddURL("http://b", None);
    var first := db.AddLink("http://a", "http://b");
    assert first;
    var again := db.AddLink("http://a", "http://b");
    assert !again;
    var dangling := db.AddLink("http://a", "http://c");
    assert !dangling;
    db.DeleteURL("http://a");
    assert db.links == {};
  }

  /** The phrase "a_b" finds "axyb" through the adapter's pattern, and
      nothing through the corrected one. */
  method WildcardScenario()
  {
    var db := new IndexerDbAdapter();
    db.AddURL("http://y", Some("axyb"));
    assert Offset(1, 10) == 0;
    WildcardLeak();
    var leaked := db.QueryPhrase("a_b", 10, 1);
    assert PhraseMatches(db.docs, "a_b") == {"http://y"};
    assert leaked.Success? && |leaked.value| == 1 && leaked.value[0].url == "http://y";
    var exact := db.QueryPhraseLiteral("a_b", 10, 1);
    assert LiteralPhraseMatches(db.docs, "a_b") == {};
    assert exact == Success([]);
  }

  /** A phrase with `%` and `_` still finds the page that contains it. */
  method LiteralWildcardsScenario()
  {
    var db := new IndexerDbAdapter();
    db.AddURL("http://x", Some("5%_x"));
    assert Offset(1, 10) == 0;
    var r := db.QueryPhrase("5%_x", 10, 1);
    assert OccursAt("5%_x", "5%_x", 0);
    SubsetCard(PhraseMatches(db.docs, "5%_x"), db.docs.Keys);
    assert "http://x" in Urls(r.value);
  }

  /** Re-adding a url keeps one row with the new content and reseeds its
      rank from the current count; resetting gives every rank 1/N. */
  method DocumentScenario()
  {
    var db := new IndexerDbAdapter();
    db.AddURL("http://a", None);
    assert db.docs["http://a"].rankDenominator == 1;
    var pending := db.GetUnindexedURL();
    assert pending == Some("http://a");
    db.AddURL("http://b", Some("beta"));
    assert db.docs["http://b"].rankDenominator == 2;
    db.AddURL("http://a", Some("alpha"));
    var n := db.GetDocumentsNum();
    assert n == 2;
    assert db.docs["http://a"] == Doc(Some("alpha"), 3);
    pending := db.GetUnindexedURL();
    assert pending == None;
    db.ResetPagesRank();
    assert db.docs["http://a"].rankDenominator == 2 && db.docs["http://b"].rankDenominator == 2;
    db.DeleteAllURLS();
    n := db.GetDocumentsNum();
    assert n == 0;
  }
}
