/** Term statistics of the Rust search program (search.rs): the term
    frequency table of one document, the token count of every document and
    the number of documents each token occurs in. */
module TermStats {
  import opened Text
  import opened Sequences
  import opened Tokens
  import opened RecordFile

  /** search.rs `TermFrequency`: a token and how often it occurs. */
  datatype TermFrequency = TermFrequency(token: string, count: nat)

  /** Tokens strictly increase from one entry to the next (so no token is
      listed twice). */
  predicate StrictlyAscending(tfs: seq<TermFrequency>) {
    forall i, j :: 0 <= i < j < |tfs| ==> Less(tfs[i].token, tfs[j].token)
  }

  /** The tokens listed in a table. */
  function Keys(tfs: seq<TermFrequency>): set<string> {
    set i | 0 <= i < |tfs| :: tfs[i].token
  }

  /** What `compute_term_frequencies` promises about its result for the
      tokens of a document: one entry per distinct token, sorted by token,
      each with the number of times that token occurs. */
  predicate IsFrequencyTable(tfs: seq<TermFrequency>, tokens: seq<string>) {
    StrictlyAscending(tfs)
      && Keys(tfs) == Elements(tokens)
      && forall i :: 0 <= i < |tfs| ==> tfs[i].count == multiset(tokens)[tfs[i].token]
  }

  function SumCounts(tfs: seq<TermFrequency>): nat {
    if tfs == [] then 0 else SumCounts(tfs[..|tfs| - 1]) + tfs[|tfs| - 1].count
  }

  // ---------------------------------------------------------------------
  // Sorting the entries by token

  /** Puts `x` before the first entry whose token is greater than its own. */
  function InsertByToken(s: seq<TermFrequency>, x: TermFrequency): seq<TermFrequency> {
    if s == [] then [x]
    else if Less(x.token, s[0].token) then [x] + s
    else [s[0]] + InsertByToken(s[1..], x)
  }

  lemma {:induction false} InsertByTokenElements(s: seq<TermFrequency>, x: TermFrequency)
    ensures forall y :: y in InsertByToken(s, x) <==> y in s || y == x
    ensures Keys(InsertByToken(s, x)) == Keys(s) + {x.token}
  {
    var r := InsertByToken(s, x);
    if s != [] && !Less(x.token, s[0].token) {
      InsertByTokenElements(s[1..], x);
      assert s == [s[0]] + s[1..];
    }
    forall t | t in Keys(r) ensures t in Keys(s) + {x.token} {
      var i :| 0 <= i < |r| && r[i].token == t;
      assert r[i] in r;
    }
    forall t | t in Keys(s) + {x.token} ensures t in Keys(r) {
      var y := if t == x.token then x else var i :| 0 <= i < |s| && s[i].token == t; s[i];
      assert y in r;
    }
  }

  lemma {:induction false} InsertByTokenSorted(s: seq<TermFrequency>, x: TermFrequency)
    requires StrictlyAscending(s) && x.token !in Keys(s)
    ensures StrictlyAscending(InsertByToken(s, x))
  {
    if s == [] {
    } else if Less(x.token, s[0].token) {
      forall j | 0 < j < |s| ensures Less(x.token, s[j].token) {
        LessTransitive(x.token, s[0].token, s[j].token);
      }
    } else {
      assert s[0].token in Keys(s);
      LessTotal(x.token, s[0].token);
      assert Keys(s[1..]) <= Keys(s) by {
        forall t | t in Keys(s[1..]) ensures t in Keys(s) {
          var i :| 0 <= i < |s[1..]| && s[1..][i].token == t;
          assert s[i + 1].token == t;
        }
      }
      InsertByTokenSorted(s[1..], x);
      InsertByTokenElements(s[1..], x);
      var rest := InsertByToken(s[1..], x);
      forall k | 0 <= k < |rest| ensures Less(s[0].token, rest[k].token) {
        assert rest[k] in rest;
        if rest[k] != x {
          var j :| 0 <= j < |s[1..]| && s[1..][j] == rest[k];
          assert s[j + 1] == rest[k];
        }
      }
    }
  }

  // ---------------------------------------------------------------------
  // compute_term_frequencies

  /** The token counts of a token list, as the program's map holds them
      after the counting loop. */
  function Counts(tokens: seq<string>): map<string, nat> {
    if tokens == [] then map[]
    else
      var c, t := Counts(tokens[..|tokens| - 1]), tokens[|tokens| - 1];
      c[t := (if t in c then c[t] else 0) + 1]
  }

  /** The counts map has the distinct tokens as keys, each with its number
      of occurrences. */
  lemma {:induction false} CountsSpec(tokens: seq<string>)
    ensures Counts(tokens).Keys == Elements(tokens)
    ensures forall t :: t in Counts(tokens) ==> Counts(tokens)[t] == multiset(tokens)[t]
  {
    if tokens != [] {
      var n := |tokens|;
      CountsSpec(tokens[..n - 1]);
      assert tokens == tokens[..n - 1] + [tokens[n - 1]];
    }
  }

  /** search.rs `compute_term_frequencies`: counts every token of the
      document in a map, then lists the map's entries sorted by token. */
  method ComputeTermFrequencies(d: Document) returns (tfs: seq<TermFrequency>)
    ensures IsFrequencyTable(tfs, Tokenize(d.content))
  {
    var tokens := Tokenize(d.content);
    var counts: map<string, nat> := map[];
    for i := 0 to |tokens|
      invariant counts == Counts(tokens[..i])
    {
      var t := tokens[i];
      assert tokens[..i + 1][..i] == tokens[..i];
      counts := counts[t := (if t in counts then counts[t] else 0) + 1];
    }
    assert tokens[..|tokens|] == tokens;
    tfs := SortEntries(counts);
    CountsSpec(tokens);
    forall i | 0 <= i < |tfs| ensures tfs[i].count == multiset(tokens)[tfs[i].token] {
      assert tfs[i] in tfs;
    }
  }

  /** The map's entries, which come out in no particular order, each put in
      its place by token (`sort_by_key` on distinct tokens). */
  method SortEntries(counts: map<string, nat>) returns (tfs: seq<TermFrequency>)
    ensures StrictlyAscending(tfs) && Keys(tfs) == counts.Keys
    ensures forall y :: y in tfs ==> y.token in counts && y.count == counts[y.token]
  {
    tfs := [];
    var rest := counts.Keys;
    while rest != {}
      invariant rest <= counts.Keys
      invariant Keys(tfs) == counts.Keys - rest
      invariant StrictlyAscending(tfs)
      invariant forall y :: y in tfs ==> y.token in counts && y.count == counts[y.token]
      decreases |rest|
    {
      var t :| t in rest;
      var x := TermFrequency(t, counts[t]);
      InsertByTokenSorted(tfs, x);
      InsertByTokenElements(tfs, x);
      tfs := InsertByToken(tfs, x);
      rest := rest - {t};
    }
  }

  // ---------------------------------------------------------------------
  // Properties of a frequency table

  /** The tokens other than `t`, in order. */
  function Without(tokens: seq<string>, t: string): seq<string> {
    if tokens == [] then []
    else Without(tokens[..|tokens| - 1], t) + (if tokens[|tokens| - 1] == t then [] else [tokens[|tokens| - 1]])
  }

  lemma {:induction false} WithoutCounts(tokens: seq<string>, t: string)
    ensures multiset(Without(tokens, t)) == multiset(tokens)[t := 0]
    ensures |tokens| == |Without(tokens, t)| + multiset(tokens)[t]
  {
    if tokens != [] {
      var n := |tokens|;
      var init, last := tokens[..n - 1], tokens[n - 1];
      WithoutCounts(init, t);
      LastSplit(tokens);
      assert multiset(tokens) == multiset(init) + multiset{last};
      assert multiset(Without(tokens, t)) == multiset(Without(init, t)) + if last == t then multiset{} else multiset{last};
    }
  }

  /** Every count of a frequency table is at least one. */
  lemma TableCountsPositive(tfs: seq<TermFrequency>, tokens: seq<string>)
    requires IsFrequencyTable(tfs, tokens)
    ensures forall i :: 0 <= i < |tfs| ==> tfs[i].count >= 1
  {
    forall i | 0 <= i < |tfs| ensures tfs[i].count >= 1 {
      assert tfs[i].token in Keys(tfs);
      assert tfs[i].token in multiset(tokens);
    }
  }

  /** The counts of a frequency table add up to the number of tokens. */
  lemma {:induction false} TableSumIsTokenCount(tfs: seq<TermFrequency>, tokens: seq<string>)
    requires IsFrequencyTable(tfs, tokens)
    ensures SumCounts(tfs) == |tokens|
  {
    assert tokens != [] ==> tokens[0] in Elements(tokens);
    if tfs != [] {
      var n := |tfs|;
      TableWithoutLast(tfs, tokens);
      TableSumIsTokenCount(tfs[..n - 1], Without(tokens, tfs[n - 1].token));
    }
  }

  /** Dropping the last entry of a table leaves the table of the other
      tokens. */
  lemma TableWithoutLast(tfs: seq<TermFrequency>, tokens: seq<string>)
    requires IsFrequencyTable(tfs, tokens) && tfs != []
    ensures IsFrequencyTable(tfs[..|tfs| - 1], Without(tokens, tfs[|tfs| - 1].token))
    ensures |tokens| == |Without(tokens, tfs[|tfs| - 1].token)| + tfs[|tfs| - 1].count
  {
    var n := |tfs|;
    var init, last := tfs[..n - 1], tfs[n - 1];
    var rest := Without(tokens, last.token);
    WithoutCounts(tokens, last.token);
    KeysWithoutLast(tfs);
    assert last.token in Keys(tfs);
    assert Elements(rest) == Elements(tokens) - {last.token} by {
      forall t ensures t in Elements(rest) <==> t in multiset(rest) {}
      forall t ensures t in Elements(tokens) <==> t in multiset(tokens) {}
    }
    forall i | 0 <= i < n - 1 ensures init[i].count == multiset(rest)[init[i].token] {
      assert init[i].token in Keys(init);
      assert init[i] == tfs[i];
    }
  }

  lemma KeysWithoutLast(tfs: seq<TermFrequency>)
    requires StrictlyAscending(tfs) && tfs != []
    ensures StrictlyAscending(tfs[..|tfs| - 1])
    ensures Keys(tfs[..|tfs| - 1]) == Keys(tfs) - {tfs[|tfs| - 1].token}
  {
    var n := |tfs|;
    var last := tfs[n - 1].token;
    LessIrreflexive(last);
    forall t | t in Keys(tfs) - {last} ensures t in Keys(tfs[..n - 1]) {
      var i :| 0 <= i < n && tfs[i].token == t;
      assert tfs[..n - 1][i] == tfs[i];
    }
    forall t | t in Keys(tfs[..n - 1]) ensures t in Keys(tfs) - {last} {
      var i :| 0 <= i < n - 1 && tfs[..n - 1][i].token == t;
      assert tfs[i].token == t;
    }
  }

  // ---------------------------------------------------------------------
  // compute_document_lengths

  /** search.rs `compute_document_lengths`: for each document, in order,
      the sum of the counts of its term frequency table. */
  method ComputeDocumentLengths(docs: seq<Document>) returns (lengths: seq<nat>)
    ensures |lengths| == |docs|
    ensures forall i :: 0 <= i < |docs| ==> lengths[i] == |Tokenize(docs[i].content)|
  {
    lengths := [];
    for i := 0 to |docs|
      invariant |lengths| == i
      invariant forall k :: 0 <= k < i ==> lengths[k] == |Tokenize(docs[k].content)|
    {
      var tfs := ComputeTermFrequencies(docs[i]);
      var documentLength := 0;
      for j := 0 to |tfs|
        invariant documentLength == SumCounts(tfs[..j])
      {
        assert tfs[..j + 1][..j] == tfs[..j];
        documentLength := documentLength + tfs[j].count;
      }
      assert tfs[..|tfs|] == tfs;
      TableSumIsTokenCount(tfs, Tokenize(docs[i].content));
      lengths := lengths + [documentLength];
    }
  }

  // ---------------------------------------------------------------------
  // compute_inverse_document_frequencies

  /** The tokens of every document, in order. */
  function CorpusTokens(docs: seq<Document>): (corpus: seq<seq<string>>)
    ensures |corpus| == |docs|
    ensures forall i :: 0 <= i < |docs| ==> corpus[i] == Tokenize(docs[i].content)
  {
    seq(|docs|, i requires 0 <= i < |docs| => Tokenize(docs[i].content))
  }

  /** The number of documents (given by their tokens) that contain `t`. */
  function DocFreq(corpus: seq<seq<string>>, t: string): nat {
    if corpus == [] then 0
    else DocFreq(corpus[..|corpus| - 1], t) + (if t in corpus[|corpus| - 1] then 1 else 0)
  }

  /** The tokens that occur in some document. */
  function Vocabulary(corpus: seq<seq<string>>): set<string> {
    if corpus == [] then {}
    else Vocabulary(corpus[..|corpus| - 1]) + Elements(corpus[|corpus| - 1])
  }

  /** The idf table: one entry per token of the corpus, computed from the
      corpus size and the token's document frequency by `idfOf` (the
      logarithm of their ratio in the program, kept abstract here). */
  function IdfTable(corpus: seq<seq<string>>, idfOf: (nat, nat) -> real): map<string, real> {
    map t | t in Vocabulary(corpus) :: idfOf(|corpus|, DocFreq(corpus, t))
  }

  /** A token is in the vocabulary exactly when some document contains it. */
  lemma {:induction false} VocabularyIff(corpus: seq<seq<string>>, t: string)
    ensures t in Vocabulary(corpus) <==> exists i :: 0 <= i < |corpus| && t in corpus[i]
  {
    if corpus != [] {
      var n := |corpus|;
      var init := corpus[..n - 1];
      VocabularyIff(init, t);
      if t in Vocabulary(init) {
        var i :| 0 <= i < n - 1 && t in init[i];
        assert corpus[i] == init[i];
      }
      if exists i :: 0 <= i < n && t in corpus[i] {
        var i :| 0 <= i < n && t in corpus[i];
        if i < n - 1 {
          assert init[i] == corpus[i];
        }
      }
    }
  }

  /** The document frequency is the number of documents containing the
      token: at most the corpus size, and at least one exactly for the
      tokens of the vocabulary. */
  lemma {:induction false} DocFreqBounds(corpus: seq<seq<string>>, t: string)
    ensures DocFreq(corpus, t) <= |corpus|
    ensures 1 <= DocFreq(corpus, t) <==> t in Vocabulary(corpus)
  {
    if corpus != [] {
      DocFreqBounds(corpus[..|corpus| - 1], t);
    }
  }

  /** The document frequency counts the indices of the documents that
      contain `t`. */
  lemma {:induction false} DocFreqIsCount(corpus: seq<seq<string>>, t: string)
    ensures DocFreq(corpus, t) == |set i | 0 <= i < |corpus| && t in corpus[i]|
  {
    if corpus != [] {
      var n := |corpus|;
      var init := corpus[..n - 1];
      DocFreqIsCount(init, t);
      var p := i => 0 <= i < n && t in corpus[i];
      IndicesStep(n, p);
      assert (set i | 0 <= i < n && p(i)) == set i | 0 <= i < |corpus| && t in corpus[i];
      assert (set i | 0 <= i < n - 1 && p(i)) == set i | 0 <= i < |init| && t in init[i];
    }
  }

  /** The counting loops of search.rs `compute_inverse_document_frequencies`:
      for every document, one more for each token of its frequency table. */
  method CountDocumentFrequencies(docs: seq<Document>) returns (df: map<string, nat>)
    ensures df.Keys == Vocabulary(CorpusTokens(docs))
    ensures forall t :: t in df ==> df[t] == DocFreq(CorpusTokens(docs), t)
  {
    ghost var corpus := CorpusTokens(docs);
    df := map[];
    for i := 0 to |docs|
      invariant df.Keys == Vocabulary(corpus[..i])
      invariant forall t :: t in df ==> df[t] == DocFreq(corpus[..i], t)
    {
      var tfs := ComputeTermFrequencies(docs[i]);
      ghost var before := df;
      for j := 0 to |tfs|
        invariant df.Keys == before.Keys + Keys(tfs[..j])
        invariant forall t :: t in df ==> df[t] == (if t in before then before[t] else 0) + (if t in Keys(tfs[..j]) then 1 else 0)
      {
        var t := tfs[j].token;
        KeysOfPrefix(tfs, j);
        df := df[t := (if t in df then df[t] else 0) + 1];
      }
      assert tfs[..|tfs|] == tfs;
      CountedDocument(corpus, i, before, df, Keys(tfs));
    }
    assert corpus[..|docs|] == corpus;
  }

  /** search.rs `compute_inverse_document_frequencies`: the document
      frequencies, each then replaced by its idf value. */
  method ComputeInverseDocumentFrequencies(docs: seq<Document>, idfOf: (nat, nat) -> real)
    returns (idf: map<string, real>)
    ensures idf == IdfTable(CorpusTokens(docs), idfOf)
  {
    var df := CountDocumentFrequencies(docs);
    idf := IdfOfCounts(df, |docs|, idfOf);
    IdfFromCounts(df, CorpusTokens(docs), idfOf);
  }

  /** The loop over `values_mut`: each count replaced by its idf value. */
  method IdfOfCounts(df: map<string, nat>, n: nat, idfOf: (nat, nat) -> real) returns (idf: map<string, real>)
    ensures idf == map t | t in df.Keys :: idfOf(n, df[t])
  {
    idf := map[];
    var rest := df.Keys;
    while rest != {}
      invariant rest <= df.Keys
      invariant idf.Keys == df.Keys - rest
      invariant forall t :: t in idf ==> idf[t] == idfOf(n, df[t])
      decreases |rest|
    {
      var t :| t in rest;
      idf := idf[t := idfOf(n, df[t])];
      rest := rest - {t};
    }
  }

  /** Replacing each exact document frequency by its idf value gives the
      idf table. */
  lemma IdfFromCounts(df: map<string, nat>, corpus: seq<seq<string>>, idfOf: (nat, nat) -> real)
    requires df.Keys == Vocabulary(corpus)
    requires forall t :: t in df ==> df[t] == DocFreq(corpus, t)
    ensures (map t | t in df.Keys :: idfOf(|corpus|, df[t])) == IdfTable(corpus, idfOf)
  {
  }

  /** Adding one to the count of each distinct token of document `i`
      extends the document frequencies from the first `i` documents to the
      first `i + 1`. */
  lemma CountedDocument(corpus: seq<seq<string>>, i: nat, before: map<string, nat>, after: map<string, nat>,
                        tokens: set<string>)
    requires i < |corpus| && tokens == Elements(corpus[i])
    requires before.Keys == Vocabulary(corpus[..i])
    requires forall t :: t in before ==> before[t] == DocFreq(corpus[..i], t)
    requires after.Keys == before.Keys + tokens
    requires forall t :: t in after ==> after[t] == (if t in before then before[t] else 0) + (if t in tokens then 1 else 0)
    ensures after.Keys == Vocabulary(corpus[..i + 1])
    ensures forall t :: t in after ==> after[t] == DocFreq(corpus[..i + 1], t)
  {
    var next := corpus[..i + 1];
    assert next[..i] == corpus[..i] && next[i] == corpus[i];
    forall t | t in after ensures after[t] == DocFreq(next, t) {
      if t !in before {
        DocFreqBounds(corpus[..i], t);
      }
    }
  }

  /** In a strictly ascending table, entry `j` adds a token not seen
      before it. */
  lemma KeysOfPrefix(tfs: seq<TermFrequency>, j: nat)
    requires StrictlyAscending(tfs) && j < |tfs|
    ensures tfs[j].token !in Keys(tfs[..j])
    ensures Keys(tfs[..j + 1]) == Keys(tfs[..j]) + {tfs[j].token}
  {
    var t := tfs[j].token;
    LessIrreflexive(t);
    assert tfs[..j + 1] == tfs[..j] + [tfs[j]];
  }
}
