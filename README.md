# Boolean retrieval over an inverted index — a Dafny model

This project models the core of a small information-retrieval system for a
TREC-style news collection. It has three parts:

- **Index builder** (`Indexing`, on top of `Text`). Each collection file is cut
  into document segments at `<DOC>`. A segment is kept when it is not blank and
  has a `<DOCNO>…</DOCNO>` field. A kept document gets the next dense internal
  id, and its stripped DOCNO becomes its external id. Its `<TEXT>` bodies are
  joined with spaces and split on whitespace. The id is appended once to the
  posting list of every distinct token, and that token's document frequency
  goes up by one. `InvertedIndex` is a class with the source's four fields
  (`index`, `docidMap`, `docFreq`, `docCount`). Beside them it keeps a ghost
  sequence `Docs` of accepted documents in id order. `Valid()` (the predicate
  `Consistent`) says what the four fields are in terms of `Docs`.
- **Postings algebra** (`Postings`). Intersection, union and "and not" of
  posting lists are the two-pointer merge loops (`Intersect`, `Union`,
  `AndNot`). Each is proved equal to a recursive reference definition
  (`IntersectOf`, `UnionOf`, `AndNotOf`). On strictly ascending inputs these
  are proved to be the set operations, producing strictly ascending lists.
- **Query evaluator** (`Retrieval`). Queries are in Reverse Polish Notation.
  `BooleanRetriever.Retrieve` runs the token loop. It is proved equal to the
  stack machine `Run` followed by the id translation `Externals`. `RunMeaning`
  and `QueryMeaning` prove that, over a consistent index, this computes the
  set-level meaning `Denote` as an ascending list. Stack underflow (Python's
  `IndexError`) and an unknown internal id (`KeyError`) are `Err` results.
- **Co-occurrence heuristic** (`Analyzer`). `FindCooccurringPair` groups the
  terms whose frequency is in range. It visits the frequencies in ascending
  order and, within a group, every pair `i < j`. It returns the first pair
  whose posting lists share more than half of the frequency. Its contract says
  the result is `None` exactly when no in-range pair qualifies, and otherwise
  it is the first qualifying pair in search order.

A query that leaves more than one list on the stack is not rejected: the code
answers with the top list (booleanRetrieval.py:69). The model follows the code
(`Evaluate`, and `LeftoverOperandsIgnored` for `a b`).

Files: `option.dfy` (Option), `postings.dfy`, `text.dfy` (Python's `split()`,
`strip()`, `split(sep)`, `' '.join` and the two non-greedy tag patterns),
`index.dfy`, `retrieval.dfy`, `analyzer.dfy`.

## Model

| member | source | states |
|---|---|---|
| Postings.IntersectOf | HW1/wet_part/booleanRetrieval.py:10-21 | every emitted id is in both lists, and the result is no longer than either list |
| Postings.UnionOf | HW1/wet_part/booleanRetrieval.py:23-33 | an id is emitted iff it is in either list; the length is between the longer input and the sum of both |
| Postings.AndNotOf | HW1/wet_part/booleanRetrieval.py:35-47 | every emitted id comes from `p1`, and the result is no longer than `p1` |
| Postings.Intersect | HW1/wet_part/booleanRetrieval.py:10-21 | the merge loop computes `IntersectOf`; on ascending inputs the result is ascending and holds exactly the common ids |
| Postings.Union | HW1/wet_part/booleanRetrieval.py:23-33 | the merge loop computes `UnionOf`; it holds exactly the ids of either list, ascending when both inputs are |
| Postings.AndNot | HW1/wet_part/booleanRetrieval.py:35-47 | the merge loop and its tail loop compute `AndNotOf`; on ascending inputs the result is ascending and holds exactly the ids of `p1` absent from `p2` |
| Postings.IntersectOfIsCommon | HW1/wet_part/booleanRetrieval.py:10-21 | on ascending inputs the intersection is `p1` filtered to the ids in `p2`, in `p1`'s order |
| Postings.AndNotOfIsDifference | HW1/wet_part/booleanRetrieval.py:35-47 | on ascending inputs the difference is `p1` filtered to the ids not in `p2`, in `p1`'s order |
| Postings.IntersectOfAscending | HW1/wet_part/booleanRetrieval.py:10-21 | ascending inputs give an ascending result; an id is in it iff it is in both lists |
| Postings.UnionOfAscending | HW1/wet_part/booleanRetrieval.py:23-33 | ascending inputs give an ascending result, so the equal-heads branch emits each shared id once |
| Postings.AndNotOfAscending | HW1/wet_part/booleanRetrieval.py:35-47 | ascending inputs give an ascending result; an id is in it iff it is in `p1` and not in `p2` |
| Postings.IntersectCommutes | HW1/wet_part/booleanRetrieval.py:58-60 | on ascending lists the argument order of the intersection does not matter |
| Postings.UnionCommutes | HW1/wet_part/booleanRetrieval.py:23-33 | on ascending lists the union is symmetric |
| Postings.IntersectSelf | HW1/wet_part/booleanRetrieval.py:10-21 | a list intersected with itself is itself |
| Postings.UnionSelf | HW1/wet_part/booleanRetrieval.py:23-33 | a list unioned with itself is itself |
| Postings.AndNotSelf | HW1/wet_part/booleanRetrieval.py:35-47 | a list minus itself is empty |
| Text.Words | HW1/wet_part/invertedIndex.py:47 | `str.split()`: every piece is non-empty and contains no whitespace |
| Text.OneWord | HW1/wet_part/invertedIndex.py:47 | a non-empty string without whitespace splits into exactly itself |
| Text.WordsAroundSpace | HW1/wet_part/invertedIndex.py:47 | any whitespace character separates: the words of `a + [c] + b` are the words of `a` followed by those of `b` |
| Text.BlankHasNoWords | HW1/wet_part/invertedIndex.py:47 | a string of whitespace only has no words; with `OneWord` and `WordsAroundSpace` this fixes the split of every string |
| Text.JoinWith | HW1/wet_part/invertedIndex.py:47 | `' '.join`; its contract is given by `JoinWithEnds`, `WordsOfJoin` (what the split of the joined bodies is) and `SplitOn` (joining the pieces gives back the input) |
| Text.JoinWithEnds | HW1/wet_part/invertedIndex.py:47 | `' '.join`: the joined string starts with the first part and ends with the last |
| Text.WordsOfJoin | HW1/wet_part/invertedIndex.py:47 | splitting the space-joined `<TEXT>` bodies gives the words of each body in turn, so nothing is glued across two bodies |
| Text.Strip | HW1/wet_part/invertedIndex.py:44 | `str.strip()`: the result is a slice surrounded only by whitespace, with no whitespace at either end; it is empty iff the input is all whitespace |
| Text.Find | HW1/wet_part/invertedIndex.py:39 | the first occurrence of a pattern at or after a position, or None when there is none |
| Text.SplitOn | HW1/wet_part/invertedIndex.py:33 | `str.split(sep)`: at least one piece; joining the pieces with `sep` gives back the input; no piece contains `sep` |
| Text.Between | HW1/wet_part/invertedIndex.py:39 | `re.search` with a non-greedy tag pattern: the match starts at the first `open`, `open + v + close` occurs there and `v` holds no `close` (so `close` is the first one after that `open`); None iff no `close` follows any `open` |
| Text.AllBetween | HW1/wet_part/invertedIndex.py:46 | `re.findall` with a non-greedy tag pattern; its contract is given by `AllBetweenOfMatch` (leftmost-match decomposition), `AllBetweenStartsWithBetween` and `AllBetweenBodiesLackClose` below |
| Text.AllBetweenStartsWithBetween | HW1/wet_part/invertedIndex.py:46 | `re.findall` is non-empty iff `re.search` matches, and its first element is that match |
| Text.AllBetweenBodiesLackClose | HW1/wet_part/invertedIndex.py:46 | no body `re.findall` returns contains the closing tag |
| Text.AllBetweenOfMatch | HW1/wet_part/invertedIndex.py:46 | when `a` holds no `open` and `x` no `close`, the bodies of `a + open + x + close + b` are `x` followed by the bodies of `b`: scanning resumes right after the match |
| Indexing.Segments | HW1/wet_part/invertedIndex.py:33 | `content.split('<DOC>')[1:]`: no segment holds the marker, and some marker-free head followed by the segments, joined with the marker, gives back the content |
| Indexing.ParseSegment | HW1/wet_part/invertedIndex.py:35-47 | a segment is skipped iff it is all whitespace or has no DOCNO field; otherwise its external id is `Strip` of the first DOCNO body and its tokens are the words of its `<TEXT>` bodies |
| Indexing.Accepted | HW1/wet_part/invertedIndex.py:35-41 | at most one document per segment, and each accepted document is the one parsed from some segment |
| Indexing.AcceptedInFiles | HW1/wet_part/invertedIndex.py:24-41 | the documents accepted from each file in turn; its contract is given by `AcceptedInFilesStep` (one more file appends that file's accepted documents) and `AcceptedFromSomeFile` |
| Indexing.AcceptedInFilesStep | HW1/wet_part/invertedIndex.py:24-41 | taking one more file appends exactly the documents accepted from that file's segments |
| Indexing.AcceptedFromSomeFile | HW1/wet_part/invertedIndex.py:24-41 | every document accepted from a run of files was accepted from the segments of one of them |
| Indexing.TextBeforeFirstMarkerIgnored | HW1/wet_part/invertedIndex.py:33 | the `[1:]` slice drops what precedes the first `<DOC>`: files that agree from their first marker on yield the same segments |
| Indexing.NoMarkerNoDocuments | HW1/wet_part/invertedIndex.py:33 | a file without `<DOC>` contributes no document |
| Indexing.ConsistentAfterDocument | HW1/wet_part/invertedIndex.py:43-53 | recording one document keeps the four tables consistent: dense ids, each id posted under exactly the tokens of its document, ascending lists, frequency equal to list length |
| Indexing.StateDeterminedByDocuments | HW1/wet_part/invertedIndex.py:35-53 | the four tables are a function of the accepted documents, so a skipped segment changes nothing |
| Indexing.DocFreqCountsDocuments | HW1/wet_part/invertedIndex.py:49-51 | a term's document frequency is the number of accepted documents containing it |
| Indexing.InvertedIndex.constructor | HW1/wet_part/invertedIndex.py:10-15 | an empty, consistent index with no documents |
| Indexing.InvertedIndex.IndexDocument | HW1/wet_part/invertedIndex.py:43-53 | keeps `Valid()`; records the DOCNO under the next id, appends that id to every distinct token's list, bumps those frequencies, and increments the count |
| Indexing.InvertedIndex.PostTerms | HW1/wet_part/invertedIndex.py:49-51 | the loop over `set(tokens)` appends the id once to each term's list and adds one to each term's frequency, leaving everything else as it was |
| Indexing.InvertedIndex.IndexFile | HW1/wet_part/invertedIndex.py:33-53 | keeps `Valid()`; the documents added are exactly those accepted from the file's segments, in order |
| Indexing.InvertedIndex.CreateIndex | HW1/wet_part/invertedIndex.py:24-53 | keeps `Valid()`; the documents added are those accepted from each file in turn |
| Retrieval.Upper | HW1/wet_part/booleanRetrieval.py:54 | `token.upper()` on ASCII: same length, each lower-case letter becomes its upper-case letter (code point minus 32), no lower-case letter is left, every other character unchanged |
| Retrieval.Classify | HW1/wet_part/booleanRetrieval.py:54-64 | a token is an operator iff its upper-case form is AND, OR or NOT, and then it is that operator; any other token is a term, kept as written |
| Retrieval.ClassifyIgnoresCase | HW1/wet_part/booleanRetrieval.py:54 | two tokens with the same upper-case form classify alike |
| Retrieval.ClassifyMatchesCaseVariants | HW1/wet_part/booleanRetrieval.py:54-64 | a token is the operator `o` iff it spells `o`'s keyword with each letter in upper or lower case, stated without `Upper` |
| Retrieval.OperatorSpellings | HW1/wet_part/booleanRetrieval.py:54 | `and`, `And`, `or` and `nOt` are operators; `ANDROID` is a term |
| Postings.Lookup | HW1/wet_part/booleanRetrieval.py:67 | `self.index.get(token, [])`: the term's list when it is indexed, otherwise the empty list |
| Retrieval.Combine | HW1/wet_part/booleanRetrieval.py:58-64 | AND keeps only ids of both operands, OR holds exactly the ids of either, NOT keeps only ids of the deeper operand |
| Retrieval.Top | HW1/wet_part/booleanRetrieval.py:69 | `stack.pop() if stack else []`: empty for an empty stack, otherwise one of the stacked lists |
| Retrieval.Run | HW1/wet_part/booleanRetrieval.py:51-67 | the only way the token loop fails is an operator with fewer than two operands |
| Retrieval.Externals | HW1/wet_part/booleanRetrieval.py:70 | success iff every id is known, mapping ids position by position; otherwise the error names the first unknown id |
| Retrieval.CombineMeaning | HW1/wet_part/booleanRetrieval.py:58-65 | on ascending lists, AND, OR and NOT push an ascending list whose ids are the intersection, union and difference of the operands' |
| Retrieval.AndSwapHarmless | HW1/wet_part/booleanRetrieval.py:58-60 | passing the shorter list first gives the same result as the plain intersection, whichever operand is shorter |
| Retrieval.NotSubtractsTop | HW1/wet_part/booleanRetrieval.py:55-64 | `p1 p2 NOT` keeps the ids of the deeper operand that are absent from the top one |
| Retrieval.RunMeaning | HW1/wet_part/booleanRetrieval.py:53-67 | over an index of ascending lists, the list machine fails iff the set machine does, and otherwise holds each set as an ascending list |
| Retrieval.RunStaysWithin | HW1/wet_part/booleanRetrieval.py:53-67 | every id on the stack comes from some posting list of the index |
| Retrieval.NoUnknownDocIds | HW1/wet_part/booleanRetrieval.py:69-70 | over a consistent index, translation never fails: a query fails iff the stack machine does, and then only for a missing operand |
| Retrieval.QueryMeaning | HW1/wet_part/booleanRetrieval.py:49-70 | over a consistent index, a query succeeds iff its set meaning does; the answer is the external ids of that set, in ascending internal-id order |
| Retrieval.UnknownTermPushesEmpty | HW1/wet_part/booleanRetrieval.py:67 | a term missing from the index pushes the empty list and is not an error |
| Retrieval.EmptyQuery | HW1/wet_part/booleanRetrieval.py:51-69 | a blank query returns no documents |
| Retrieval.BinaryQuery | HW1/wet_part/booleanRetrieval.py:55-65 | in `a b OP` the later term is the right operand |
| Retrieval.LeftoverOperandsIgnored | HW1/wet_part/booleanRetrieval.py:69 | `a b` with no operator is not an error: both lists stay on the stack and the answer is `b`'s |
| Retrieval.Evaluate | HW1/wet_part/booleanRetrieval.py:49-70 | a query fails with a missing operand iff the stack machine underflows; every returned name is a value of the id table |
| Retrieval.BooleanRetriever.constructor | HW1/wet_part/booleanRetrieval.py:5-8 | the retriever reads the indexer's postings and id table |
| Retrieval.BooleanRetriever.Apply | HW1/wet_part/booleanRetrieval.py:58-65 | the merge method an operator calls, with the AND swap, yields `Combine` |
| Retrieval.BooleanRetriever.Retrieve | HW1/wet_part/booleanRetrieval.py:49-70 | the token loop returns exactly `Evaluate`, so `QueryMeaning` and `NoUnknownDocIds` apply to it |
| Analyzer.Bucket | HW1/wet_part/collectionAnalyzer.py:70-73 | every term in a frequency bucket has that frequency in the table, and the bucket is no longer than the table |
| Analyzer.BucketComplete | HW1/wet_part/collectionAnalyzer.py:70-73 | every table entry of frequency `f` puts its term in bucket `f` |
| Analyzer.BucketCount | HW1/wet_part/collectionAnalyzer.py:70-73 | bucket `f` has exactly as many terms as the table has entries of frequency `f` |
| Analyzer.BucketPrefix | HW1/wet_part/collectionAnalyzer.py:70-73 | the bucket of a prefix of the table is a prefix of the bucket, so terms keep table order |
| Analyzer.GroupByFrequency | HW1/wet_part/collectionAnalyzer.py:70-73 | each in-range frequency maps to its terms in table order; out-of-range frequencies have no bucket; no bucket is empty |
| Analyzer.SearchGroup | HW1/wet_part/collectionAnalyzer.py:78-88 | None iff no pair of the group shares more than half of the frequency; otherwise the first such pair in `(i, j)` order, with its overlap |
| Analyzer.AnswerOfLeastGroup | HW1/wet_part/collectionAnalyzer.py:77 | the first pair found in the least unsearched frequency is the first qualifying pair overall |
| Analyzer.FindCooccurringPair | HW1/wet_part/collectionAnalyzer.py:65-89 | None iff no in-range pair of equal-frequency terms qualifies; otherwise the first one in ascending frequency, then `(i, j)` order |
| Analyzer.ReportedTermsShareFrequency | HW1/wet_part/collectionAnalyzer.py:87-88 | both reported terms have the reported, in-range frequency, and the overlap exceeds half of it |
| Analyzer.OverlapAtMostFrequency | HW1/wet_part/collectionAnalyzer.py:84-88 | when frequencies are list lengths, the reported overlap is above half the frequency and at most the frequency |

## Left out

- Directory walking, file reading with lossy UTF-8 decoding, timing and progress messages (invertedIndex.py:21-29, 55-59): `CreateIndex` takes the decoded file contents, in the order `os.walk` and `sorted(files)` produce them.
- The regular-expression engine: only the two non-greedy `<TAG>(.*?)</TAG>` patterns used with `re.DOTALL` are modelled, as first-occurrence substring search.
- Text.IsSpace: covers the characters Python's `str.isspace` accepts, not Unicode data beyond that list.
- Retrieval.Classify: upper-cases ASCII letters only. Python's full Unicode `upper()` (including multi-character mappings) is not modelled.
- Analyzer.FindCooccurringPair: fixes `overlap_thresh` at its default 0.5, written as the exact integer test `2 * overlap > freq`. Other floating-point thresholds are not modelled. `freq_min` and `freq_max` are plain parameters; their defaults 50 and 100 are not modelled.
- Analyzer.FindCooccurringPair: the frequency table's iteration order is its `items` argument; dictionary insertion order is not derived from the index build.
- Analyzer.FindCooccurringPair: reads posting lists with a missing term giving `[]`. `self.index[t1]` on the defaultdict would also insert an empty entry, and that side effect is not modelled; in a consistent index every term of the frequency table is present.
- `generate_report`, `CollectionAnalyzer.__init__` and `main.py` are not part of this model: they are file output, heap selection of the top and bottom ten, and driver code.
- Retrieval.BooleanRetriever.constructor: copies the indexer's tables as values instead of sharing them by reference. The index is not changed after construction, so the behaviour is the same.
- Integers are unbounded, as in Python; no widths apply.
