# SearchServer in Dafny

A model of the in-memory search engine `SearchServer` and of its small
`Paginator`. The engine keeps four pieces of state:

- the stop words;
- the ids of the added documents, in insertion order;
- each document's average rating and status;
- an inverted index from each word to the documents holding it, with the
  word's term frequency in each.

Callers add documents and then query them. A query is a space-separated
list of plus-words and `-`-prefixed minus-words. A document matches if it
holds a plus-word and no minus-word. Matches are ranked by TF-IDF relevance,
then by rating, and capped at five.

The model is one `SearchServer` class (module `Server`). It follows both
copies of the engine: the self-contained `search-server/main.cpp` and the
split `search-server/search_server.cpp`. The class has the source's four
fields, plus a ghost map from each document to its indexed words that ties
the index to the documents. Every `throw` of the source becomes an `Err` of
one `SearchError` variant, raised in the source's check order, and a failed
call changes no state.

The modules are:

- `Documents`: the records and enums of `document.h`, the error variants and `Result`.
- `StringProcessing`: `SplitIntoWords` (a loop proved against the reference function `Tokens`), `IsValidWord`, `MakeUniqueNonEmptyStrings`.
- `StringOrder`: the lexicographic order of `std::set<string>`. The plus- and minus-word sets are kept as strictly increasing sequences, so their iteration order is explicit.
- `QueryParsing`: `ParseQueryWord` and the query that `ParseQuery` builds.
- `Rating`: `ComputeAverageRating`, with C++'s truncating `/` written out.
- `TermFrequency`: `SplitIntoWordsNoStop`'s word list and the term frequencies.
- `Scoring`: the specification of `FindAllDocuments` and `FindTopDocuments` over the index:
  - which documents are candidates;
  - their relevance;
  - what a correct top-five answer is.
- `Ranking`: the result order and the insertion sort that stands in for `std::sort`.
- `Server`: the class, its invariant and its loops.
- `Pagination`: `IteratorRange`, `Paginator` and `Paginate`. Iterators are positions into the container.

The IDF uses `log`. Every query method takes it as a parameter
`ln: real -> real`, and nothing is assumed about it. Relevances are exact
reals.

The code throws for a control character in three places, and the model
keeps one error variant for each: `InvalidStopWord` for a stop word
(main.cpp:84-93), `InvalidDocumentWord` for a document text (main.cpp:103)
and `InvalidQueryWord` for a query word (main.cpp:219-242). The two lookup
failures also stay apart. `GetDocumentId` fails in `document_ids.at`
(main.cpp:149), giving `DocumentIndexOutOfRange`. `MatchDocument` fails in
`documents_.at` (main.cpp:173), after the query has been parsed, giving
`UnknownDocumentId`.

## Model

| member | source | states |
|---|---|---|
| StringProcessing.SplitIntoWords | search-server/main.cpp:30-49 | the character loop returns exactly `Tokens(text)`, the maximal runs of non-space characters from left to right |
| StringProcessing.RunLength | search-server/main.cpp:33-43 | a word runs up to the first space or the end of the text and holds no space |
| StringProcessing.TokensAreTokens | search-server/main.cpp:30-49 | no token is empty or holds a space |
| StringProcessing.TokensKeepNonSpaces | search-server/main.cpp:30-49 | the tokens, concatenated, are the text with its spaces removed: only spaces separate tokens and no other character is lost |
| StringProcessing.TokensOfJoin | search-server/main.cpp:30-49 | splitting tokens joined by single spaces gives back the tokens |
| StringProcessing.IsValidWord | search-server/main.cpp:303-306 | the empty word is valid, and a one-character word is valid exactly when its character is not in the range from `'\0'` up to but excluding the space; with `ValidSplit` this decides every word. search_server.cpp:69-75 tests the same range but throws where main.cpp returns false |
| StringProcessing.ValidSplit | search-server/main.cpp:303-306 | a word is valid exactly when both parts of any split of it are, since the test looks at each character on its own |
| StringProcessing.ValidTextIffValidTokens | search-server/main.cpp:103-105 | a text is free of control characters exactly when all its tokens are, so the whole-text check of main.cpp and the per-token check of search_server.cpp:79-82 agree |
| StringProcessing.MakeUniqueNonEmptyStrings | search-server/main.cpp:65-74 | the result set holds exactly the non-empty input strings |
| StringOrder.LessTotal | search-server/main.cpp:244-247 | any two distinct strings are ordered one way or the other |
| StringOrder.LessTransitive | search-server/main.cpp:244-247 | the string order is transitive |
| StringOrder.LessAsymmetric | search-server/main.cpp:244-247 | the string order is asymmetric |
| StringOrder.LessIrreflexive | search-server/main.cpp:244-247 | no string is below itself |
| StringOrder.Insert | search-server/main.cpp:255-258 | `set::insert`: the result holds the old elements and the new word |
| StringOrder.InsertSorted | search-server/main.cpp:255-258 | inserting into a strictly increasing sequence keeps it strictly increasing |
| StringOrder.SortedUnique | search-server/main.cpp:244-247 | two strictly increasing sequences with the same elements are equal, so a set has one representation |
| QueryParsing.ParseQueryWord | search-server/main.cpp:219-242 | an accepted word is non-empty, does not start with `-`, and is flagged as a stop word exactly when it is one |
| QueryParsing.ParseQueryWordChecks | search-server/main.cpp:219-242 | the errors come in source order: an empty token, then a trailing `-`, then a control character after one leading `-` is stripped, then a second `-`; each outcome is characterised exactly (iff) by the token. An accepted word is non-empty, valid, does not start with `-`, carries the minus flag and stop flag, and is the token with its `-` stripped |
| QueryParsing.ParseTokensError | search-server/main.cpp:249-263 | the parse succeeds iff every token parses; otherwise it fails with the error of the first failing token |
| QueryParsing.ParseTokensErrorSticks | search-server/search_server.cpp:122-135 | once a prefix of the tokens fails, the whole parse fails with that error |
| QueryParsing.ParseTokensWords | search-server/search_server.cpp:122-135 | both sets are sorted and duplicate-free. The plus-words are exactly the non-stop tokens not starting with `-`. The minus-words are exactly the non-stop words `w` for which the token `-w` occurs |
| QueryParsing.ParsedQueryWellFormed | search-server/search_server.cpp:122-135 | no word of a parsed query is empty, a stop word, or starts with `-` |
| QueryParsing.SameWordBothSets | search-server/search_server.cpp:122-135 | `"cat -cat"` puts `cat` in both sets |
| QueryParsing.DoubleMinusRejected | search-server/main.cpp:237-239 | the query `"--russian guys"` from main fails with DoubleMinusWord |
| QueryParsing.TrailingMinusRejected | search-server/main.cpp:223-225 | the query `"guys -"` from main fails with EmptyMinusWord |
| QueryParsing.LoneMinusRejected | search-server/main.cpp:223-225 | the query `"-"` from main fails with EmptyMinusWord |
| QueryParsing.MiddleMinusRejected | search-server/main.cpp:249-263 | `"dragon - snake"` from main fails at its middle token, before any document id is looked up |
| QueryParsing.PlusAndMinusAccepted | search-server/main.cpp:249-263 | the query `"russian -guys"` from main has plus-words `[russian]` and minus-words `[guys]` |
| QueryParsing.PlainWordParses | search-server/main.cpp:219-242 | a valid word without a `-` at either end parses as a plus-word |
| QueryParsing.MinusWordParses | search-server/main.cpp:219-242 | the same word with one leading `-` parses as a minus-word |
| Rating.TruncDiv | search-server/main.cpp:210 | C++ integer division: the remainder is smaller than the divisor and has the sign of the dividend |
| Rating.ComputeAverageRating | search-server/main.cpp:202-211 | the summing loop returns `AverageRating`: 0 for no ratings, otherwise the sum divided by the count, truncated toward zero |
| Rating.AverageWithinBounds | search-server/search_server.cpp:90-95 | the average of ratings that lie in [lo, hi] also lies in [lo, hi] |
| Rating.AverageTruncatesTowardZero | search-server/search_server.cpp:94 | the ratings -1, -2 average to -1, not -2 |
| TermFrequency.NonStopWordsCounts | search-server/main.cpp:192-200 | the kept words are the non-stop tokens, each with its number of occurrences |
| TermFrequency.TfSumsToOne | search-server/main.cpp:107-110 | a document's term frequencies over its distinct words add up to one |
| TermFrequency.CountSumOfDistinct | search-server/main.cpp:107-110 | the occurrence counts of the distinct words add up to the word count |
| Ranking.Outranks | search-server/main.cpp:121-128 | when the relevances differ, the document with the higher relevance comes first; when they are equal, the one with the higher rating does (exact comparison, see Ranking.SortByRank under Left out) |
| Ranking.OutranksAsymmetric | search-server/main.cpp:121-128 | the ranking is a strict order |
| Ranking.NotOutranksTransitive | search-server/main.cpp:121-128 | "not ranked above" is transitive, so exact ties may come in any order |
| Ranking.SortByRank | search-server/main.cpp:121-128 | after the sort the array is ordered by relevance descending, with ties broken by rating descending, and is a permutation of its input |
| Scoring.TopOfRanked | search-server/main.cpp:129-131 | the first `min(5, n)` of the ranked matches are a correct top answer |
| Scoring.PermutationCovers | search-server/main.cpp:120-128 | sorting loses no candidate: each appears in the sorted list with its score |
| Scoring.Contribution | search-server/main.cpp:265-281 | a word adds TF times ln(document count / number of documents holding it): nothing for a document the word does not list, nothing for a word that every document holds, and a positive amount when both TF and IDF are positive |
| Scoring.UnpostedRelevance | search-server/main.cpp:278-282 | a document listed under no plus-word has relevance zero |
| Scoring.RelevanceAppend | search-server/main.cpp:273-285 | relevance adds up word by word over the plus-words |
| Server.IndexAddsMatches | search-server/main.cpp:106-110 | indexing a new document keeps the index equal to the term frequencies of every stored document's words |
| Server.NoWordsNoEntries | search-server/main.cpp:106-110 | a document whose words are all stop words leaves the index unchanged |
| Server.AddOccurrence | search-server/main.cpp:109 | `index[w][id] += inc` starts a missing entry from zero and changes no other entry |
| Server.RepeatedIsProduct | search-server/main.cpp:108-110 | adding `1 / n` once per occurrence gives occurrences / n |
| Server.IndexWords | search-server/search_server.cpp:15-17 | after the loop the id is listed exactly under its words, with `inc` per occurrence, and no other document's entry has changed |
| Server.PartialAddComplete | search-server/search_server.cpp:14-17 | with `inc = 1 / word count` those entries are the term frequencies |
| Server.AccumulatePlusWords | search-server/main.cpp:273-285 | the relevance map holds exactly the stored documents listed under a plus-word that the predicate accepts, each with its full TF-IDF relevance |
| Server.EraseMinusWords | search-server/main.cpp:286-293 | exactly the documents listed under a minus-word are erased; the others keep their relevance |
| Server.ToDocuments | search-server/main.cpp:295-300 | one record per map entry, in increasing id order, with the stored rating |
| Server.MatchAll | search-server/main.cpp:270-301 | the three loops return every candidate exactly once, in increasing id order, correctly scored and with the stored rating |
| Server.PostedIffOccurs | search-server/search_server.cpp:53-61 | a document is listed under a word iff the word is one of its indexed words |
| Server.AddKeepsConsistent | search-server/search_server.cpp:4-22 | a successful AddDocument keeps the class invariant: distinct non-negative ids in insertion order, one per stored document, and an index that matches the documents' words |
| Server.ConsistentIndexUsable | search-server/main.cpp:265-267 | in a consistent server every listed document is stored and no posting map is empty, so the IDF never divides by zero |
| Server.DemoStopWordsRejected | search-server/main.cpp:316 | the stop words `"a and at in on wi\x17th"` from main hold a control character, so construction fails |
| Server.SearchServer.constructor | search-server/main.cpp:84-91 | an empty server over the given valid stop words |
| Server.SearchServer.Create | search-server/main.cpp:84-91 | fails with InvalidStopWord iff some non-empty stop word holds a control character; otherwise the stop words are exactly the non-empty inputs and the server is empty |
| Server.SearchServer.CreateFromText | search-server/main.cpp:92-93 | the same, for the tokens of a stop-word text |
| Server.SearchServer.SplitIntoWordsNoStop | search-server/search_server.cpp:77-88 | fails with InvalidDocumentWord iff some token holds a control character; otherwise returns the non-stop tokens in order |
| Server.SearchServer.AddDocument | search-server/search_server.cpp:4-22 | the errors come in source order: a negative id, then a duplicate id, then a control character. A failure changes no field. A success returns true, appends the id, grows the document count by one, stores the average rating and status, and indexes the words |
| Server.SearchServer.ParseQuery | search-server/main.cpp:249-263 | the loop returns the query `ParsedQuery` specifies, or its first error |
| Server.SearchServer.MatchDocument | search-server/search_server.cpp:41-63 | a parse error comes first, then an unknown id. Otherwise it returns the stored status with: no words if a minus-word occurs in the document, else exactly the plus-words it holds, each once, in increasing order |
| Server.SearchServer.FindAllDocuments | search-server/main.cpp:270-301 | an id is returned iff it is listed under a plus-word, accepted by the predicate and listed under no minus-word. Each appears once, with its relevance and stored rating |
| Server.SearchServer.FindTopDocuments | search-server/main.cpp:116-133 | a malformed query fails with its parse error. Otherwise at most five correctly scored candidates, each once, sorted by rank. All candidates are returned when fewer than five come back, and no candidate left out outranks one returned |
| Server.SearchServer.FindTopDocumentsByStatus | search-server/search_server.cpp:24-27 | the same, filtered to the documents with exactly the given status |
| Server.SearchServer.FindTopDocumentsActual | search-server/search_server.cpp:29-31 | the same, for status ACTUAL |
| Server.SearchServer.GetDocumentCount | search-server/search_server.cpp:33-35 | the number of stored documents, equal to the length of the id list |
| Server.SearchServer.GetDocumentId | search-server/search_server.cpp:37-39 | the id at that position in insertion order; a position outside [0, count), negative ones included, is an error |
| Documents.StatusIs | search-server/main.cpp:135-138 | the status predicate accepts exactly the documents with that status |
| Pagination.Range | search-server/paginator.h:13-14 | an IteratorRange's size is the distance from begin to end |
| Pagination.Paginator.constructor | search-server/paginator.h:34-44 | the pages tile the range from left to right. Each page holds between 1 and `size_of_sheet` elements, and every page but the last is full |
| Pagination.Paginator.Size | search-server/paginator.h:51-53 | the page count is the range length divided by the page size, rounded up |
| Pagination.Paginate | search-server/paginator.h:58-61 | pages the whole container |
| Pagination.PaginationCount | search-server/paginator.h:37-43 | any such pagination has ceil(N / size) pages |
| Pagination.PaginationShape | search-server/paginator.h:41-43 | there are no pages exactly when the range is empty, and one page exactly when the range fits in one |
| Pagination.PaginationUnique | search-server/paginator.h:37-43 | the pagination is determined by the range and the page size |
| Pagination.PagesCoverContainer | search-server/paginator.h:34-44 | the pages, read in order, give back the container exactly |
| Pagination.FlattenTiles | search-server/paginator.h:34-44 | the pages of a tiling of [b, t), read in order, are the elements of [b, t) |
| Pagination.TotalSizeTiles | search-server/paginator.h:37-43 | the page sizes add up to the range length |
| Pagination.PagesWithinRange | search-server/paginator.h:37-43 | every page lies inside the range |

## Left out

- Console I/O (`ReadLine`, `ReadLineWithNumber`, `PrintDocument`, `operator<<`): these only format and stream.
- `main`: it is a demonstration. Its queries and stop words appear as the `…Rejected` and `…Accepted` lemmas and `Server.DemoStopWordsRejected`.
- `request_queue.cpp`: it only forwards to `FindTopDocuments`. Its sliding window lives in a header that is not part of this model.
- Exception message text: only the kind of error is modelled. This also leaves out the messages at search_server.cpp:6 and 9, which add the id to a string literal (an offset into it) rather than formatting it.
- The two `IsValidWord` copies are one predicate. The split one throws "Invalid characters" from inside `none_of`. For query words the model names that failure `InvalidQueryWord`, and for document words `InvalidDocumentWord`.
- Floating point:
  - relevances are exact reals;
  - the natural logarithm is the parameter `ln`, about which nothing is assumed;
  - the `1.0 / words.size()` of a document with no indexed words is never used, so the model's 0.0 stands in for it.
- Ranking.SortByRank: the `EPSILON` comparator (main.cpp:14, 123-127) is replaced by exact comparison of relevances. The epsilon comparator is not a strict weak ordering. `std::sort` leaves the order of exact ties unspecified, and the insertion sort is one valid outcome. `Scoring.IsTopDocuments` allows any valid outcome.
- Rating.ComputeAverageRating: does not model `int` overflow of the rating sum. Ratings are unbounded integers.
- Server.SearchServer.GetDocumentCount and the other methods return `nat`/`int` without the 32-bit width of `int`.
- Template genericity:
  - containers are `seq`;
  - the stop-word container of the template constructor is a `seq<string>`;
  - `DocumentPredicate` is a function of (id, status, rating);
  - `Paginator` iterators are positions into a `seq`.
- Paginator `begin()`/`end()`: they expose the `sheets` field, which the model exposes directly.
- Pagination.Paginator.constructor: requires a page size above zero, because the source divides by it.
- `IsStopWord` is set membership and is used inline.
- `Document`'s default constructor and `document.cpp` are not part of this model.
