/** The integer and string parts of the C search program (search.c): the
    document-length loop that splits each content buffer in place, the
    substring-based document frequency of `idf`, the comparator
    `compare_scores`, and the result array of `search_documents` sorted by
    `qsort`. The floating-point BM25 arithmetic is not modelled: the score
    of each document is a parameter. */
module CSearch {
  import opened Text
  import opened Sequences
  import opened Splitting
  import opened CStrings
  import opened Ranking
  import TermStats

  /** A document: its url and its content buffer, which `strtok`
      overwrites. */
  datatype Document = Document(url: string, content: array<char>)

  /** The content buffers of the documents. */
  function Contents(documents: seq<Document>): set<array<char>> {
    set i | 0 <= i < |documents| :: documents[i].content
  }

  /** Each document has its own buffer, holding a C string (the documents
      are the elements of one C array, read with `fgets`). */
  predicate Buffers(documents: seq<Document>)
    reads Contents(documents)
  {
    && (forall i, j :: 0 <= i < j < |documents| ==> documents[i].content != documents[j].content)
    && (forall i :: 0 <= i < |documents| ==> HasNul(documents[i].content[..]))
  }

  // ---------------------------------------------------------------------
  // Document lengths

  /** The length loop of `search_documents`: each document's token count,
      with each buffer left as `strtok` leaves it. */
  method CountDocumentLengths(documents: seq<Document>) returns (lengths: seq<nat>)
    requires Buffers(documents)
    modifies Contents(documents)
    ensures |lengths| == |documents|
    ensures forall i :: 0 <= i < |documents| ==>
      && lengths[i] == |SpaceTokens(CStr(old(documents[i].content[..])))|
      && documents[i].content[..] == Clobbered(old(documents[i].content[..]))
  {
    lengths := [];
    for i := 0 to |documents|
      invariant |lengths| == i
      invariant forall k :: 0 <= k < i ==>
        && lengths[k] == |SpaceTokens(CStr(old(documents[k].content[..])))|
        && documents[k].content[..] == Clobbered(old(documents[k].content[..]))
      invariant forall k :: i <= k < |documents| ==> documents[k].content[..] == old(documents[k].content[..])
    {
      var documentLength := CountTokens(documents[i].content);
      lengths := lengths + [documentLength];
    }
  }

  /** Counting the tokens of a buffer again after the length loop finds at
      most one: this is what the length loop inside `bm25` sees when
      `search_documents` calls it. */
  lemma RecountFindsAtMostOne(s: seq<char>)
    requires HasNul(s)
    ensures |SpaceTokens(CStr(Clobbered(s)))| == if SpaceTokens(CStr(s)) == [] then 0 else 1
  {
    ClobberedLeavesOneToken(s);
  }

  /** And the second count leaves the buffer as the first one did. */
  lemma ClobberedIdempotent(s: seq<char>)
    requires HasNul(s)
    ensures Clobbered(Clobbered(s)) == Clobbered(s)
  {
    var r := Clobbered(s);
    var c := CStr(s);
    var e := TokenEnd(c);
    ClobberedKeepsFirstToken(s);
    TokenEndFacts(c);
    forall k | 0 <= k < |r| ensures !EndsToken(r, k) {
      if 0 < k < Strlen(r) && r[k] == ' ' {
        assert k < e;
        assert r[k] == s[k] && s[k] == c[k];
        assert r[k - 1] == s[k - 1] && s[k - 1] == c[k - 1];
      }
    }
  }

  // ---------------------------------------------------------------------
  // Document frequency by substring

  /** The number of texts in which `token` occurs as a substring. */
  function SubstringDocFreq(texts: seq<string>, token: string): (r: nat)
    ensures r <= |texts|
  {
    if texts == [] then 0
    else SubstringDocFreq(texts[..|texts| - 1], token) + (if Contains(texts[|texts| - 1], token) then 1 else 0)
  }

  /** The C strings held by the documents' buffers. */
  function Texts(documents: seq<Document>): (r: seq<string>)
    reads Contents(documents)
    ensures |r| == |documents|
    ensures forall i :: 0 <= i < |documents| ==> r[i] == CStr(documents[i].content[..])
  {
    if documents == [] then []
    else Texts(documents[..|documents| - 1]) + [CStr(documents[|documents| - 1].content[..])]
  }

  /** The `doc_freq` loop of `idf`: the documents whose content contains the
      token, by `strstr`. */
  method DocumentFrequency(documents: seq<Document>, token: string) returns (docFreq: nat)
    ensures docFreq == SubstringDocFreq(Texts(documents), token)
  {
    ghost var texts := Texts(documents);
    docFreq := 0;
    for i := 0 to |documents|
      invariant docFreq == SubstringDocFreq(texts[..i], token)
    {
      assert texts[..i + 1][..i] == texts[..i];
      if Contains(CStr(documents[i].content[..]), token) {
        docFreq := docFreq + 1;
      }
    }
    assert texts[..|documents|] == texts;
  }

  /** The substring document frequency counts the texts containing the
      token. */
  lemma {:induction false} SubstringDocFreqIsCount(texts: seq<string>, token: string)
    ensures SubstringDocFreq(texts, token) == |set i | 0 <= i < |texts| && Contains(texts[i], token)|
  {
    if texts != [] {
      var n := |texts|;
      var init := texts[..n - 1];
      SubstringDocFreqIsCount(init, token);
      var p := i => 0 <= i < n && Contains(texts[i], token);
      IndicesStep(n, p);
      assert (set i | 0 <= i < n && p(i)) == set i | 0 <= i < |texts| && Contains(texts[i], token);
      assert (set i | 0 <= i < n - 1 && p(i)) == set i | 0 <= i < |init| && Contains(init[i], token);
    }
  }

  /** The texts as `strtok(.., " ")` splits them. */
  function SpaceCorpus(texts: seq<string>): (r: seq<seq<string>>)
    ensures |r| == |texts|
    ensures forall i :: 0 <= i < |texts| ==> r[i] == SpaceTokens(texts[i])
  {
    seq(|texts|, i requires 0 <= i < |texts| => SpaceTokens(texts[i]))
  }

  /** A token of a text is a substring of it. */
  lemma TokenIsSubstring(text: string, token: string)
    requires token in SpaceTokens(text)
    ensures Contains(text, token)
  {
    var i :| 0 <= i < |SpaceTokens(text)| && SpaceTokens(text)[i] == token;
    RunsAreSlices(text, NotSpace, i);
  }

  /** Every document that has the token as a whole word is counted, so the
      substring count is at least the whole-word count. */
  lemma {:induction false} SubstringCountsWholeWords(texts: seq<string>, token: string)
    ensures TermStats.DocFreq(SpaceCorpus(texts), token) <= SubstringDocFreq(texts, token)
  {
    if texts != [] {
      var n := |texts|;
      var init := texts[..n - 1];
      SubstringCountsWholeWords(init, token);
      assert SpaceCorpus(texts)[..n - 1] == SpaceCorpus(init);
      if token in SpaceTokens(texts[n - 1]) {
        TokenIsSubstring(texts[n - 1], token);
      }
    }
  }

  /** The substring count may exceed it: "cat" is counted in a document
      that holds only "concatenate". */
  lemma SubstringOvercounts()
    ensures SubstringDocFreq(["concatenate"], "cat") == 1
    ensures TermStats.DocFreq(SpaceCorpus(["concatenate"]), "cat") == 0
  {
    assert OccursAt("concatenate", "cat", 3);
    assert IsWord("concatenate", NotSpace);
    RunsOfWord("concatenate", NotSpace);
    assert SpaceCorpus(["concatenate"]) == [["concatenate"]];
    assert ["concatenate"][..0] == [];
  }

  // ---------------------------------------------------------------------
  // compare_scores and qsort

  /** `compare_scores`: 1 when `a` scores lower than `b`, -1 when higher,
      0 on a tie, so that `qsort` puts higher scores first. */
  function CompareScores(a: Hit, b: Hit): (r: int)
    ensures -1 <= r <= 1
    ensures r < 0 <==> a.score > b.score
    ensures r > 0 <==> a.score < b.score
  {
    if a.score < b.score then 1
    else if a.score > b.score then -1
    else 0
  }

  /** `compare_scores` is a consistent comparison function, as `qsort`
      requires (section 7.22.5 of ISO C): antisymmetric and transitive. */
  lemma CompareScoresIsConsistent(a: Hit, b: Hit, c: Hit)
    ensures CompareScores(a, b) == -CompareScores(b, a)
    ensures CompareScores(a, b) <= 0 && CompareScores(b, c) <= 0 ==> CompareScores(a, c) <= 0
    ensures CompareScores(a, b) < 0 && CompareScores(b, c) < 0 ==> CompareScores(a, c) < 0
    ensures CompareScores(a, b) == 0 <==> a.score == b.score
  {
  }

  /** What `qsort` promises: no element compares greater than one after
      it. */
  predicate OrderedBy(s: seq<Hit>) {
    forall i, j :: 0 <= i < j < |s| ==> CompareScores(s[i], s[j]) <= 0
  }

  /** Ordered by `compare_scores` means scores never increase. */
  lemma OrderedByIffSortedDesc(s: seq<Hit>)
    ensures OrderedBy(s) <==> SortedDesc(s)
  {
    if OrderedBy(s) {
      forall i, j | 0 <= i < j < |s| ensures s[i].score >= s[j].score {
        assert CompareScores(s[i], s[j]) <= 0;
      }
    }
  }

  /** `qsort(.., compare_scores)`: rearranges the array so that scores never
      increase. Which order tied results end in is not specified; the
      body is one admissible implementation. */
  method Qsort(a: array<Hit>)
    modifies a
    ensures OrderedBy(a[..])
    ensures multiset(a[..]) == multiset(old(a[..]))
  {
    var sorted := SortByScoreDesc(a[..]);
    assert |sorted| == |multiset(sorted)| == a.Length;
    OrderedByIffSortedDesc(sorted);
    forall i | 0 <= i < a.Length {
      a[i] := sorted[i];
    }
    assert a[..] == sorted;
  }

  /** `qsort` is not stable: for two tied results both orders meet its
      contract. */
  lemma QsortTieOrderUnspecified()
    ensures var a, b := Hit("a", 1.0), Hit("b", 1.0);
      && OrderedBy([a, b]) && OrderedBy([b, a])
      && multiset([b, a]) == multiset([a, b])
      && [a, b] != [b, a]
  {
    var a, b := Hit("a", 1.0), Hit("b", 1.0);
    assert [a, b][0] != [b, a][0];
  }

  // ---------------------------------------------------------------------
  // search_documents

  /** The result array before sorting: document `i`'s url with its
      score. */
  function Unsorted(documents: seq<Document>, scores: seq<real>): (r: seq<Hit>)
    requires |scores| == |documents|
    ensures |r| == |documents|
    ensures forall i :: 0 <= i < |documents| ==> r[i].url == documents[i].url && r[i].score == scores[i]
  {
    seq(|documents|, i requires 0 <= i < |documents| => Hit(documents[i].url, scores[i]))
  }

  /** search.c `search_documents`: the length loop over every document,
      then one result per document, sorted by `qsort`. `scores[i]` stands
      for what `bm25` returns for document `i`; `limit` is not used, so the
      array always holds every document. */
  method SearchDocuments(documents: seq<Document>, limit: int, scores: seq<real>) returns (results: array<Hit>)
    requires Buffers(documents) && |scores| == |documents|
    modifies Contents(documents)
    ensures fresh(results) && results.Length == |documents|
    ensures OrderedBy(results[..])
    ensures multiset(results[..]) == multiset(Unsorted(documents, scores))
    ensures forall i :: 0 <= i < |documents| ==> documents[i].content[..] == Clobbered(old(documents[i].content[..]))
  {
    var documentLengths := CountDocumentLengths(documents);
    results := new Hit[|documents|](_ => Hit([], 0.0));
    for i := 0 to |documents|
      invariant forall k :: 0 <= k < i ==> results[k] == Hit(documents[k].url, scores[k])
      modifies results
    {
      results[i] := Hit(documents[i].url, scores[i]);
    }
    assert results[..] == Unsorted(documents, scores);
    Qsort(results);
  }

  /** Every result is a document's url with that document's score, and
      every document has exactly one result. */
  lemma ResultsAreTheDocuments(documents: seq<Document>, scores: seq<real>, results: seq<Hit>)
    requires |scores| == |documents|
    requires multiset(results) == multiset(Unsorted(documents, scores))
    ensures |results| == |documents|
    ensures forall i :: 0 <= i < |results| ==>
      exists j :: 0 <= j < |documents| && results[i] == Hit(documents[j].url, scores[j])
  {
    var u := Unsorted(documents, scores);
    assert |results| == |multiset(results)| == |u|;
    forall i | 0 <= i < |results|
      ensures exists j :: 0 <= j < |documents| && results[i] == Hit(documents[j].url, scores[j])
    {
      assert results[i] in multiset(u);
      var j :| 0 <= j < |u| && u[j] == results[i];
      assert results[i] == Hit(documents[j].url, scores[j]);
    }
  }
}
