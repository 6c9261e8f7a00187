/** Scoring and ranking in the Rust search program (search.rs,
    `compute_bm25` and `search_documents`). The BM25 arithmetic is kept
    abstract: `weight(idf, tf, dl)` stands for one query token's
    contribution given its idf value, its count in the document and the
    document's length (the corpus average and the constants k1 and b are
    fixed for a corpus, so they are part of `weight`). */
module Bm25Search {
  import opened Text
  import opened Sequences
  import opened Tokens
  import opened RecordFile
  import opened TermStats
  import opened Ranking

  /** The score of a document, given by its tokens and length, for the
      query tokens: the sum over the query tokens that have an idf value of
      their weight. */
  function Bm25(query: seq<string>, doc: seq<string>, dl: nat, idf: map<string, real>,
                weight: (real, nat, nat) -> real): real
  {
    if query == [] then 0.0
    else
      var t := query[|query| - 1];
      Bm25(query[..|query| - 1], doc, dl, idf, weight)
        + (if t in idf then weight(idf[t], multiset(doc)[t], dl) else 0.0)
  }

  /** The query tokens that have an idf value, in order. */
  function Known(query: seq<string>, idf: map<string, real>): seq<string> {
    if query == [] then []
    else
      var t := query[|query| - 1];
      Known(query[..|query| - 1], idf) + (if t in idf then [t] else [])
  }

  /** The score of a query is the sum of the scores of its parts. */
  lemma {:induction false} Bm25Additive(q1: seq<string>, q2: seq<string>, doc: seq<string>, dl: nat,
                                        idf: map<string, real>, weight: (real, nat, nat) -> real)
    ensures Bm25(q1 + q2, doc, dl, idf, weight) == Bm25(q1, doc, dl, idf, weight) + Bm25(q2, doc, dl, idf, weight)
  {
    if q2 == [] {
      assert q1 + q2 == q1;
    } else {
      var n := |q2|;
      Bm25Additive(q1, q2[..n - 1], doc, dl, idf, weight);
      assert (q1 + q2)[..|q1 + q2| - 1] == q1 + q2[..n - 1];
    }
  }

  /** A document that holds none of the query tokens scores 0, given that
      a token that does not occur weighs nothing (in search.rs:109 the term
      is `idf * (0 * (K1 + 1)) / (0 + k)` with `k` positive). */
  lemma {:induction false} Bm25NoOverlap(query: seq<string>, doc: seq<string>, dl: nat,
                                         idf: map<string, real>, weight: (real, nat, nat) -> real)
    requires forall x, d :: weight(x, 0, d) == 0.0
    requires forall i :: 0 <= i < |query| ==> query[i] !in doc
    ensures Bm25(query, doc, dl, idf, weight) == 0.0
  {
    if query != [] {
      var t := query[|query| - 1];
      Bm25NoOverlap(query[..|query| - 1], doc, dl, idf, weight);
      assert multiset(doc)[t] == 0;
    }
  }

  /** Query tokens without an idf value contribute nothing. */
  lemma {:induction false} Bm25IgnoresUnknownTokens(query: seq<string>, doc: seq<string>, dl: nat,
                                                    idf: map<string, real>, weight: (real, nat, nat) -> real)
    ensures Bm25(query, doc, dl, idf, weight) == Bm25(Known(query, idf), doc, dl, idf, weight)
  {
    if query != [] {
      var init, t := query[..|query| - 1], query[|query| - 1];
      Bm25IgnoresUnknownTokens(init, doc, dl, idf, weight);
      Bm25Additive(Known(init, idf), if t in idf then [t] else [], doc, dl, idf, weight);
      assert [t][..0] == [];
    }
  }

  /** A query none of whose tokens has an idf value scores zero. */
  lemma {:induction false} Bm25UnknownQuery(query: seq<string>, doc: seq<string>, dl: nat,
                                            idf: map<string, real>, weight: (real, nat, nat) -> real)
    requires forall i :: 0 <= i < |query| ==> query[i] !in idf
    ensures Bm25(query, doc, dl, idf, weight) == 0.0
  {
    if query != [] {
      Bm25UnknownQuery(query[..|query| - 1], doc, dl, idf, weight);
    }
  }

  /** A query text without letters or digits has no tokens and scores zero. */
  lemma Bm25EmptyQuery(query: string, doc: seq<string>, dl: nat,
                       idf: map<string, real>, weight: (real, nat, nat) -> real)
    requires Splitting.NoWordChar(query, IsAlnum)
    ensures Bm25(Tokenize(query), doc, dl, idf, weight) == 0.0
  {
    TokenizeEmptyIff(query);
  }

  /** `term_frequencies.iter().find(|tf| tf.token == token)`, then its count
      or 0 when there is none. */
  method FindCount(tfs: seq<TermFrequency>, token: string) returns (count: nat)
    ensures (exists i :: 0 <= i < |tfs| && tfs[i].token == token && count == tfs[i].count
               && forall k :: 0 <= k < i ==> tfs[k].token != token)
         || (count == 0 && forall i :: 0 <= i < |tfs| ==> tfs[i].token != token)
  {
    var i := 0;
    while i < |tfs|
      invariant i <= |tfs|
      invariant forall k :: 0 <= k < i ==> tfs[k].token != token
    {
      if tfs[i].token == token {
        return tfs[i].count;
      }
      i := i + 1;
    }
    return 0;
  }

  /** Looking a token up in a frequency table gives its number of
      occurrences, 0 for a token that does not occur. */
  lemma LookupInTable(tfs: seq<TermFrequency>, tokens: seq<string>, token: string, count: nat)
    requires IsFrequencyTable(tfs, tokens)
    requires (exists i :: 0 <= i < |tfs| && tfs[i].token == token && count == tfs[i].count)
          || (count == 0 && forall i :: 0 <= i < |tfs| ==> tfs[i].token != token)
    ensures count == multiset(tokens)[token]
  {
    if forall i :: 0 <= i < |tfs| ==> tfs[i].token != token {
      assert token !in Keys(tfs);
      assert token !in Elements(tokens);
    }
  }

  /** search.rs `compute_bm25`: for each query token that has an idf value,
      its count in the document's frequency table and its weight. */
  method ComputeBm25(query: string, document: Document, documentLength: nat, idf: map<string, real>,
                     weight: (real, nat, nat) -> real) returns (score: real)
    ensures score == Bm25(Tokenize(query), Tokenize(document.content), documentLength, idf, weight)
  {
    var tokens := Tokenize(query);
    score := 0.0;
    for i := 0 to |tokens|
      invariant score == Bm25(tokens[..i], Tokenize(document.content), documentLength, idf, weight)
    {
      var token := tokens[i];
      assert tokens[..i + 1][..i] == tokens[..i];
      if token in idf {
        var tfs := ComputeTermFrequencies(document);
        var tf := FindCount(tfs, token);
        LookupInTable(tfs, Tokenize(document.content), token, tf);
        score := score + weight(idf[token], tf, documentLength);
      }
    }
    assert tokens[..|tokens|] == tokens;
  }

  /** The unsorted results: document `i`'s url with its score, the score
      computed with document `i`'s own length. */
  function Hits(docs: seq<Document>, query: string, idfOf: (nat, nat) -> real,
                weight: (real, nat, nat) -> real): (r: seq<Hit>)
    ensures |r| == |docs|
    ensures forall i :: 0 <= i < |docs| ==> r[i].url == docs[i].url
  {
    var corpus := CorpusTokens(docs);
    var idf := IdfTable(corpus, idfOf);
    seq(|docs|, i requires 0 <= i < |docs| => Hit(docs[i].url, Bm25(Tokenize(query), corpus[i], |corpus[i]|, idf, weight)))
  }

  /** search.rs `search_documents`: scores every document, sorts the
      results by descending score (stably) and keeps the first `limit`. */
  method SearchDocuments(docs: seq<Document>, query: string, limit: nat, idfOf: (nat, nat) -> real,
                         weight: (real, nat, nat) -> real) returns (results: seq<Hit>)
    ensures results == Take(SortByScoreDesc(Hits(docs, query, idfOf, weight)), limit)
  {
    var documentLengths := ComputeDocumentLengths(docs);
    var idf := ComputeInverseDocumentFrequencies(docs, idfOf);
    ghost var hits := Hits(docs, query, idfOf, weight);
    var searchResults: seq<Hit> := [];
    for i := 0 to |docs|
      invariant searchResults == hits[..i]
    {
      var score := ComputeBm25(query, docs[i], documentLengths[i], idf, weight);
      searchResults := searchResults + [Hit(docs[i].url, score)];
      assert hits[..i + 1] == hits[..i] + [hits[i]];
    }
    assert hits[..|docs|] == hits;
    searchResults := SortByScoreDesc(searchResults);
    results := Take(searchResults, limit);
  }

  /** The results: `min(limit, N)` of them, scores never increasing, each
      one a scored document of the input, none twice, and no left-out
      document scoring above one that is kept. */
  lemma SearchResultsRanked(docs: seq<Document>, query: string, limit: nat, idfOf: (nat, nat) -> real,
                            weight: (real, nat, nat) -> real)
    ensures var hits := Hits(docs, query, idfOf, weight);
      var sorted := SortByScoreDesc(hits);
      var r := Take(sorted, limit);
      && |r| == (if limit < |docs| then limit else |docs|)
      && SortedDesc(r)
      && multiset(r) <= multiset(hits)
      && (forall i :: 0 <= i < |r| ==> exists j :: 0 <= j < |docs| && r[i] == hits[j] && r[i].url == docs[j].url)
      && (forall i, j :: 0 <= i < |r| <= j < |sorted| ==> r[i].score >= sorted[j].score)
  {
    RankedDocuments(Hits(docs, query, idfOf, weight), docs, limit);
  }

  lemma RankedDocuments(hits: seq<Hit>, docs: seq<Document>, limit: nat)
    requires |hits| == |docs| && forall i :: 0 <= i < |docs| ==> hits[i].url == docs[i].url
    ensures var sorted := SortByScoreDesc(hits);
      var r := Take(sorted, limit);
      && |r| == (if limit < |docs| then limit else |docs|)
      && SortedDesc(r)
      && multiset(r) <= multiset(hits)
      && (forall i :: 0 <= i < |r| ==> exists j :: 0 <= j < |docs| && r[i] == hits[j] && r[i].url == docs[j].url)
      && (forall i, j :: 0 <= i < |r| <= j < |sorted| ==> r[i].score >= sorted[j].score)
  {
    var r := Take(SortByScoreDesc(hits), limit);
    TakeIsTopScores(hits, limit);
    forall i | 0 <= i < |r| ensures exists j :: 0 <= j < |docs| && r[i] == hits[j] && r[i].url == docs[j].url {
      var j :| 0 <= j < |hits| && r[i] == hits[j];
      assert hits[j].url == docs[j].url;
    }
  }

  /** The sort is stable: among the kept results, those with one score come
      in document order, and they are the first documents with that
      score. */
  lemma SearchTiesInDocumentOrder(docs: seq<Document>, query: string, limit: nat, idfOf: (nat, nat) -> real,
                                  weight: (real, nat, nat) -> real, v: real)
    ensures var hits := Hits(docs, query, idfOf, weight);
      var r := Take(SortByScoreDesc(hits), limit);
      |WithScore(r, v)| <= |WithScore(hits, v)| && WithScore(r, v) == WithScore(hits, v)[..|WithScore(r, v)|]
  {
    TakeKeepsTieOrder(Hits(docs, query, idfOf, weight), limit, v);
  }

  lemma TakeKeepsTieOrder(hits: seq<Hit>, limit: nat, v: real)
    ensures var r := Take(SortByScoreDesc(hits), limit);
      |WithScore(r, v)| <= |WithScore(hits, v)| && WithScore(r, v) == WithScore(hits, v)[..|WithScore(r, v)|]
  {
    var sorted := SortByScoreDesc(hits);
    var r := Take(sorted, limit);
    assert sorted == r + sorted[|r|..];
    WithScoreConcat(r, sorted[|r|..], v);
  }

  /** When no query token occurs in any document, every score is zero and
      the results are the first `limit` documents in input order. */
  lemma UnknownQueryKeepsDocumentOrder(docs: seq<Document>, query: string, limit: nat,
                                       idfOf: (nat, nat) -> real, weight: (real, nat, nat) -> real)
    requires forall i :: 0 <= i < |Tokenize(query)| ==> Tokenize(query)[i] !in Vocabulary(CorpusTokens(docs))
    ensures Take(SortByScoreDesc(Hits(docs, query, idfOf, weight)), limit)
         == Take(Hits(docs, query, idfOf, weight), limit)
    ensures forall i :: 0 <= i < |docs| ==> Hits(docs, query, idfOf, weight)[i].score == 0.0
  {
    var corpus := CorpusTokens(docs);
    var idf := IdfTable(corpus, idfOf);
    var hits := Hits(docs, query, idfOf, weight);
    forall i | 0 <= i < |docs| ensures hits[i].score == 0.0 {
      Bm25UnknownQuery(Tokenize(query), corpus[i], |corpus[i]|, idf, weight);
    }
    TiedHitsKeepInputOrder(hits, 0.0);
  }

  /** A query without letters or digits is not an error: every document is
      returned (up to `limit`), in input order, with score zero. */
  lemma EmptyQueryKeepsAllDocuments(docs: seq<Document>, query: string, limit: nat,
                                    idfOf: (nat, nat) -> real, weight: (real, nat, nat) -> real)
    requires Splitting.NoWordChar(query, IsAlnum)
    ensures var r := Take(SortByScoreDesc(Hits(docs, query, idfOf, weight)), limit);
      && |r| == (if limit < |docs| then limit else |docs|)
      && forall i :: 0 <= i < |r| ==> r[i].url == docs[i].url && r[i].score == 0.0
  {
    TokenizeEmptyIff(query);
    UnknownQueryKeepsDocumentOrder(docs, query, limit, idfOf, weight);
  }
}
