# A verified model of the search programs of a small web indexer

The repository holds a crawler that writes pages into Elasticsearch, a few maintenance scripts, and two stand-alone BM25 search programs:

- `search.rs` reads a record file of `#url` / `#content` lines, tokenizes it, and computes term frequencies, document lengths and document frequencies. It then scores every document against a query with Okapi BM25 and returns the best `limit` results.
- `search.c` is a C version of the same idea. It splits text with `strtok(.., " ")`, counts document frequency with `strstr` and sorts with `qsort`.

This project models three parts in Dafny and proves what each promises:

1. the search pipeline of `search.rs`;
2. the integer and string parts of `search.c`;
3. the duplicate-removal scan of `index_dedup.py`.

Files and modules:

| file | module | models |
|---|---|---|
| `sequences.dfy` | `Sequences` | the set of a sequence's elements (a document's vocabulary, the distinct ids of a scan), counting indices, and concatenation identities |
| `text.dfy` | `Text` | characters treated as ASCII, `trim`, `starts_with`, `strstr` as `Contains`, and the order of Rust strings |
| `splitting.dfy` | `Splitting` | maximal runs of "word" characters. Shared by the Rust tokenizer (alphanumerics) and by `strtok` (everything except the space) |
| `record_file.dfy` | `RecordFile` | `read_documents`, as a loop over the file's lines |
| `tokens.dfy` | `Tokens` | `tokenize` |
| `term_stats.dfy` | `TermStats` | `compute_term_frequencies`, `compute_document_lengths` and the counting loop of `compute_inverse_document_frequencies` |
| `ranking.dfy` | `Ranking` | results as (url, score) pairs, the stable descending sort (`sort_by`) and `truncate` |
| `bm25_search.dfy` | `Bm25Search` | `compute_bm25` and `search_documents` |
| `c_strings.dfy` | `CStrings` | NUL-terminated buffers, `strtok` with its saved pointer made explicit, and the token-counting loop that overwrites the buffer |
| `c_search.dfy` | `CSearch` | the length loop of `search_documents`, the `doc_freq` loop of `idf`, `compare_scores`, `qsort` and the result array |
| `index_dedup.dfy` | `IndexDedup` | the seen-set scan. Each `es.delete` becomes an append to a log of deleted ids |

How scores are modelled:

- Scores are kept abstract as `real` values.
- `idfOf(N, df)` stands for the idf formula.
- `weight(idf, tf, dl)` stands for one query token's BM25 term. The average length and the constants `k1` and `b` are fixed for a corpus, so they are folded into `weight`.
- In the C model each document's score is a parameter, because the C `bm25` cannot be specified (see below).
- Every ordering, truncation and tie property is proved for all possible scores.

Behaviour of the two programs that the model makes explicit:

- `search.rs` cuts the text at every non-alphanumeric character, not only at whitespace, and lower-cases the pieces.
- `search.c` cuts at the space character only, so a trailing line feed stays inside the last token (`CStrings.NewlineStaysInToken`).
- `search.c` counts a document towards a term's document frequency when the term occurs in it as a substring, which can overcount (`CSearch.SubstringOvercounts`).
- `search.rs` sorts with the stable `sort_by`. `qsort` in `search.c` is not stable, so the order of tied documents is unspecified (`CSearch.QsortTieOrderUnspecified`).
- In `search.rs`, `limit` is a `usize`, and a `limit` of 0 makes `truncate(0)` return nothing. `search.c` never reads `limit` and always returns every document.
- For a query with no tokens, `search.rs` returns every document (up to `limit`) with score 0, in input order (`Bm25Search.EmptyQueryKeepsAllDocuments`).

search.rs:121 does not compile. The closure inside the `let` that binds `document_length` names `document_length` itself. It was evidently meant to pair document `i` with `document_lengths[i]`, and that is what `Bm25Search.Hits` and `Bm25Search.SearchDocuments` do. No member models the line as written, because no meaning can be given to it.

Two more consequences of `strtok` follow from the model:

- After the length loop of search.c `search_documents`, each content buffer reads, as a C string, only up to the end of its first token.
- So the length loop inside `bm25`, which runs later on the same buffers, counts at most one token (`CSearch.RecountFindsAtMostOne`).

## Model

| member | source | states |
|---|---|---|
| RecordFile.Step | search.rs:28-38 | one line of the record file: a `#url`/`#content` line sets its field to the trimmed rest; a blank line emits a complete pending record; the line panics exactly when it is a bare `#url` or `#content` tag |
| RecordFile.TagFacts | search.rs:28-31 | a line starting with `#url` is shorter than 5 characters only if it is exactly `#url` (same for `#content` and 9); a `#content` line is never taken for a `#url` line |
| RecordFile.ReadDocuments | search.rs:20-44 | the imperative reader over the lines returns exactly `Records(lines)`: the emitted documents, or the index of the line whose slice is out of range |
| RecordFile.ScanPanicsAtFirstBareTag | search.rs:28-31 | from any line on, the reader panics at line `p` if and only if `p` is the first bare tag from there |
| RecordFile.RecordsFailIff | search.rs:28-31 | `read_documents` fails if and only if some line is a bare tag, and it fails at the first one |
| RecordFile.ScanSound | search.rs:26-39 | while reading, every pending field and every emitted document comes from a `#url` or `#content` line of the input |
| RecordFile.StepSound | search.rs:28-38 | one line preserves that invariant |
| RecordFile.RecordsAreComplete | search.rs:32-42 | every document returned has a non-empty url and content, each the trimmed rest of some `#url` / `#content` line |
| RecordFile.RecordsOfRender | search.rs:20-44 | writing documents (trimmed, non-empty fields) as records separated by blank lines and reading them back gives the same documents in the same order, the last one flushed at end of input |
| RecordFile.BlankLineKeepsPartialRecord | search.rs:32-37 | a blank line while only the url is set does not end the record; the content that follows completes it |
| RecordFile.BlankLineKeepsPendingFields | search.rs:32-37 | for any reader state, a blank line (empty or whitespace only) that finds the record incomplete changes nothing and emits nothing |
| RecordFile.LaterUrlOverwrites | search.rs:28-29 | a second `#url` line replaces the pending url |
| Text.TrimSpec | search.rs:29 | `trim` returns a substring of its input, at most as long, that neither starts nor ends with whitespace, and is empty exactly when the input is all whitespace |
| Text.TrimStartSpec | search.rs:29 | `trim_start` drops exactly the leading whitespace |
| Text.TrimEndSpec | search.rs:29 | `trim_end` drops exactly the trailing whitespace |
| Text.TrimOfTrimmed | search.rs:31 | a string without surrounding whitespace is left as it is by `trim` |
| Text.Lower | search.rs:49 | lower-casing maps alphanumerics to lower-case alphanumerics, leaves lower-case ones unchanged and keeps non-alphanumerics non-alphanumeric |
| Text.LessIrreflexive | search.rs:63 | the string order used by `sort_by_key` is irreflexive |
| Text.LessTransitive | search.rs:63 | and transitive |
| Text.LessTotal | search.rs:63 | and total on distinct strings |
| Splitting.RunLengthSpec | search.rs:47-48 | the run at the start of a string is the longest prefix of word characters |
| Splitting.RunLengthExact | search.rs:47-48 | a prefix of word characters followed by a delimiter or the end is exactly the run |
| Splitting.RunsAreWords | search.rs:47-48 | every piece the split-and-filter yields is non-empty and made of word characters |
| Splitting.RunsEmptyIff | search.rs:47-48 | there are no pieces exactly when the text has no word character |
| Splitting.RunsConcat | search.rs:47-48 | pieces of two texts that meet at a delimiter are the pieces of each, in order |
| Splitting.RunsOfJoin | search.rs:47-48 | words joined by a delimiter split back into the same words |
| Splitting.RunsAreSlices | search.rs:47-48 | every piece is a substring of the text |
| Tokens.Tokenize | search.rs:46-51 | never more tokens than characters of the text; its other properties are the lemmas below |
| Tokens.TokenizeYieldsTokens | search.rs:46-51 | every token is a non-empty run of lower-case letters and digits |
| Tokens.TokenizeEmptyIff | search.rs:46-51 | `tokenize` returns no tokens exactly when the text has no alphanumeric character |
| Tokens.TokenizeConcat | search.rs:46-51 | tokens come out in text order: two texts joined by a non-alphanumeric give the tokens of the first, then of the second |
| Tokens.TokenizeOfJoin | search.rs:46-51 | tokens written out with spaces tokenize back to themselves |
| Tokens.TokenizeIdempotent | search.rs:46-51 | tokenizing is idempotent |
| Tokens.TokenIsLoweredPiece | search.rs:46-51 | every token is the lower-cased form of a substring of the text |
| TermStats.CountsSpec | search.rs:55-58 | after the counting loop the map's keys are the distinct tokens, each with its number of occurrences |
| TermStats.ComputeTermFrequencies | search.rs:53-65 | the table has one entry per distinct token, strictly ascending by token, each with that token's number of occurrences |
| TermStats.SortEntries | search.rs:59-63 | the map's entries, in whatever order they come, end up strictly ascending by token with their counts |
| TermStats.InsertByTokenSorted | search.rs:63 | inserting an entry with a new token into an ascending table keeps it ascending |
| TermStats.InsertByTokenElements | search.rs:63 | insertion adds exactly that entry |
| TermStats.TableCountsPositive | search.rs:53-65 | every count in a term-frequency table is at least one |
| TermStats.TableSumIsTokenCount | search.rs:53-65 | the counts of a term-frequency table add up to the number of tokens |
| TermStats.ComputeDocumentLengths | search.rs:67-79 | one length per document, in order, equal to the document's number of tokens (the sum of its table's counts) |
| TermStats.VocabularyIff | search.rs:89-93 | a token gets an entry exactly when some document contains it |
| TermStats.DocFreqBounds | search.rs:89-93 | a token's document frequency is at most the number of documents, and at least one exactly when it occurs somewhere |
| TermStats.DocFreqIsCount | search.rs:89-93 | the document frequency is the number of documents whose tokens contain the token |
| TermStats.CountDocumentFrequencies | search.rs:86-94 | the counting loop ends with one entry per token of the corpus, holding its document frequency |
| TermStats.ComputeInverseDocumentFrequencies | search.rs:86-98 | each entry is then replaced by the idf of the corpus size and its document frequency |
| TermStats.IdfOfCounts | search.rs:95-97 | the `values_mut` loop replaces every count by the idf of the corpus size and that count, keeping the keys |
| Bm25Search.FindCount | search.rs:108 | `find` returns the count of the first entry with the token, or 0 when no entry has it |
| Bm25Search.LookupInTable | search.rs:107-108 | looking a token up in the document's table gives its number of occurrences in the document |
| Bm25Search.ComputeBm25 | search.rs:101-113 | the score is the sum, over the query tokens that have an idf value, of the weight of that idf, the token's count in the document and the document length |
| Bm25Search.Bm25Additive | search.rs:104-111 | the score of a concatenated query is the sum of the scores of its parts |
| Bm25Search.Bm25NoOverlap | search.rs:105-111 | a document holding none of the query tokens scores 0, given that a token occurring 0 times weighs 0 |
| Bm25Search.Bm25IgnoresUnknownTokens | search.rs:106 | query tokens without an idf value contribute nothing |
| Bm25Search.Bm25UnknownQuery | search.rs:105-112 | a query none of whose tokens has an idf value scores 0 |
| Bm25Search.Bm25EmptyQuery | search.rs:103-112 | a query with no tokens scores 0 |
| Bm25Search.Hits | search.rs:119-124 | one result per document, in document order, with that document's url |
| Bm25Search.SearchDocuments | search.rs:115-131 | the results are the scored documents, stably sorted by descending score, truncated to `limit` |
| Bm25Search.RankedDocuments | search.rs:125-126 | for any scored list with one hit per document, sorting and truncating gives `min(limit, N)` hits, scores non-increasing, each some document's url with its hit, drawn from the hits without repetition; no left-out hit outscores a kept one |
| Bm25Search.SearchResultsRanked | search.rs:125-126 | `min(limit, N)` results, scores non-increasing, each a scored input document, none twice; no left-out document outscores a kept one |
| Bm25Search.SearchTiesInDocumentOrder | search.rs:125 | results with equal score are in input order and are the first documents with that score |
| Bm25Search.UnknownQueryKeepsDocumentOrder | search.rs:125-126 | when no query token occurs in any document every score is 0 and the results are the first `limit` documents in input order |
| Bm25Search.EmptyQueryKeepsAllDocuments | search.rs:115-127 | a query without tokens returns `min(limit, N)` documents in input order, each with score 0 |
| Ranking.SortByScoreDesc | search.rs:125 | the sort yields non-increasing scores, a permutation of its input, and for every score the same hits in the same relative order (stability) |
| Ranking.InsertDescPermutes | search.rs:125 | inserting a hit adds exactly that hit |
| Ranking.InsertDescSorted | search.rs:125 | inserting a hit keeps scores non-increasing |
| Ranking.InsertDescStable | search.rs:125 | an inserted hit goes after the hits with its score |
| Ranking.Take | search.rs:126 | `truncate` keeps the first `min(limit, len)` elements |
| Ranking.TakeIsTopScores | search.rs:125-126 | the truncated ranking has `min(limit, len)` hits, non-increasing, drawn from the input without repetition, and no dropped hit outscores a kept one |
| Ranking.PrefixDrawsFrom | search.rs:125-126 | any prefix of a permutation is drawn from the input without repetition |
| Ranking.TiedHitsKeepInputOrder | search.rs:125 | hits that all have the same score stay in input order |
| CStrings.Strtok | search.c:151-154 | one `strtok(.., " ")` from the saved position: skips the spaces, returns no token at the end of the string, otherwise the token's start, overwrites the space that ends it with NUL and moves the saved position past it |
| CStrings.Strspn | search.c:151 | the token starts past the leading spaces of the C string at the saved position, and there is none when only spaces are left |
| CStrings.Strpbrk | search.c:151 | the token ends at the next space or at the NUL |
| CStrings.StrlenSpec | search.c:151 | the C string of a buffer ends at its first NUL |
| CStrings.CountTokens | search.c:150-155 | the counting loop counts the maximal runs of non-space characters of the C string and leaves the buffer with every space that directly follows a token overwritten by NUL |
| CStrings.NextToken | search.c:154 | each call in the loop consumes exactly one token, or finds none left, and writes one more NUL |
| CStrings.StrtokStep | search.c:151-154 | from a boundary `strtok` moves to the next boundary, passing exactly one token |
| CStrings.StrtokTokens | search.c:151-154 | leading spaces make no token and exactly one token is consumed when one is left |
| CStrings.ClobberedKeepsFirstToken | search.c:150-155 | after the loop the buffer reads, as a C string, only up to the end of its first token |
| CStrings.ClobberedLeavesOneToken | search.c:150-155 | so at most the first token is left in it |
| CStrings.NewlineStaysInToken | search.c:151 | only the space delimits: `"a b\n"` has the tokens `"a"` and `"b\n"` |
| CSearch.CountDocumentLengths | search.c:149-157 | the length loop gives each document's number of space-delimited tokens and leaves each buffer overwritten as `strtok` leaves it, no other buffer touched |
| CSearch.RecountFindsAtMostOne | search.c:108-113 | counting the tokens of a buffer again after that finds at most one token |
| CSearch.ClobberedIdempotent | search.c:108-113 | and leaves the buffer unchanged |
| CSearch.SubstringDocFreq | search.c:76-81 | the substring document frequency is at most the number of documents |
| CSearch.DocumentFrequency | search.c:75-81 | the loop counts the documents whose C string contains the token as a substring |
| CSearch.SubstringDocFreqIsCount | search.c:76-81 | that count is the number of documents containing the token |
| CSearch.TokenIsSubstring | search.c:78 | a whole-word token of a text is a substring of it |
| CSearch.SubstringCountsWholeWords | search.c:76-81 | the substring count is at least the number of documents having the token as a whole word |
| CSearch.SubstringOvercounts | search.c:78 | and can be larger: "cat" is counted in a document holding only "concatenate" |
| CSearch.CompareScores | search.c:134-144 | `compare_scores` returns -1, 0 or 1: negative exactly when `a` scores higher, positive exactly when lower |
| CSearch.CompareScoresIsConsistent | search.c:134-144 | `compare_scores` is antisymmetric and transitive, and returns 0 exactly on equal scores |
| CSearch.OrderedByIffSortedDesc | search.c:134-144 | an array is in order under `compare_scores` exactly when its scores never increase |
| CSearch.Qsort | search.c:168 | after `qsort` the array is in order under `compare_scores` and a permutation of what it held |
| CSearch.QsortTieOrderUnspecified | search.c:168 | for two tied results both orders meet `qsort`'s contract |
| CSearch.SearchDocuments | search.c:146-171 | the result array has exactly one entry per document whatever `limit` is, is in order under `compare_scores`, is a permutation of the unsorted results, and every content buffer is left overwritten by the length loop |
| CSearch.ResultsAreTheDocuments | search.c:160-168 | every result is some document's url with that document's score |
| IndexDedup.RemoveDuplicates | index_dedup.py:21-36 | after the scan the seen ids are exactly the distinct ids, all mapped to true, the deletes are the repeats in scan order, and the duplicate count is the number of deletes |
| IndexDedup.DistinctStep | index_dedup.py:29-36 | one more id joins the seen ids, and it is deleted exactly when it was seen before |
| IndexDedup.RepeatsPerId | index_dedup.py:25-36 | each id is deleted once for each occurrence after its first; a first occurrence is never deleted |
| IndexDedup.RepeatsCount | index_dedup.py:24-33 | the number of deletes is the number of ids scanned minus the number of distinct ids |
| IndexDedup.DeletedIdsOccurredEarlier | index_dedup.py:29-33 | every delete is for an id that occurred earlier in the scan |
| IndexDedup.ScanPrefixGrows | index_dedup.py:24-36 | as the scan goes on, deletes already issued stay, so the duplicate count never decreases, and the seen ids only grow |

## Left out

- The BM25 and idf arithmetic (`ln`, divisions, `f64` sums, the average document length, `k1` and `b`) is left out: it is floating-point numerics. Scores are abstract reals, with `idfOf` and `weight` as parameters. This also leaves out division by zero (an empty corpus in search.rs, `doc_freq == 0` in search.c) and the panic of `partial_cmp(..).unwrap()` on NaN at search.rs:125.
- Bm25Search.SearchDocuments: document lengths and counts are `nat`, not `f64` and `i32`, so the model has no rounding and no overflow.
- Unicode is left out. Characters are treated as ASCII: `is_alphanumeric`, `to_lowercase` and `trim` are their ASCII versions, so lower-casing never changes a length. A slice at a byte offset inside a multi-byte character is not modelled either.
- File and console I/O and both `main` functions are left out. The record file is the sequence of its lines, and `reader.lines().unwrap()` cannot fail. `main` in search.c also reads the results after freeing them.
- TermStats.SortEntries: the iteration order of `HashMap::into_iter` is unspecified. The model picks entries in an arbitrary order and proves the result for every order.
- The body of search.c `bm25` beyond its token counting is left out. It dereferences the NULL `query_tf` passed by `search_documents`, its nested `strtok` calls clobber each other's saved pointer, and it reads `token` after the loop has set it to NULL. This is undefined behaviour. CSearch.SearchDocuments takes each document's score as a parameter. The query buffer, which `bm25` also overwrites, is not modelled.
- CSearch.Qsort: how `qsort` sorts is not modelled. Its contract is the one from section 7.22.5.2 of ISO C (in order under the comparator, a permutation), and its body is one admissible sort.
- CStrings.Strtok: the saved pointer, hidden in the C library, is an explicit position. The model follows section 7.24.5.8 of ISO C with `" "` as the only delimiter.
- The url buffers and `strcpy` into the fixed-size result fields are left out. Urls are values, and `MAX_URL_LENGTH` and the other buffer bounds are not modelled.
- main.py, search.py, index_checker.py, index_size.py and index_add_language.py are left out. They are network I/O and calls into Elasticsearch and other libraries.
- The Elasticsearch scan and `es.delete` in index_dedup.py are left out. The scan is the input sequence of ids, each delete is an entry in the returned log, and the final `print` is not modelled.
