/** What FindAllDocuments and FindTopDocuments compute, stated over the
    inverted index: which documents match a query, their TF-IDF relevance,
    and what a correct top-N answer is. */
module Scoring {
  import opened Documents
  import opened QueryParsing
  import opened Ranking

  /** word_to_document_freqs_: word -> (document id -> term frequency). */
  type Index = map<string, map<int, real>>

  /** FindTopDocuments returns at most this many documents. */
  const MaxResultDocumentCount: nat := 5

  /** Document d is listed under one of the words. */
  predicate Posted(index: Index, words: seq<string>, d: int) {
    exists w :: w in words && w in index && d in index[w]
  }

  /** What one plus-word adds to the relevance of d: term frequency times
      inverse document frequency, ln(document count / documents holding w);
      nothing when d is not listed under w, and nothing for a word that every
      document holds (ln 1 = 0). The natural logarithm is the parameter ln. */
  function Contribution(index: Index, documentCount: nat, ln: real -> real, w: string, d: int): (c: real)
    ensures !(w in index && d in index[w]) ==> c == 0.0
    ensures w in index && d in index[w] && ln(1.0) == 0.0 && |index[w]| == documentCount ==> c == 0.0
    ensures w in index && d in index[w] && index[w][d] > 0.0 && ln(documentCount as real / |index[w]| as real) > 0.0 ==>
              c > 0.0
  {
    if w in index && d in index[w] then
      var share := documentCount as real / |index[w]| as real;
      ShareOfAll(documentCount, |index[w]|);
      index[w][d] * ln(share)
    else 0.0
  }

  /** A word held by every document has the share documentCount / documentCount = 1. */
  lemma ShareOfAll(documentCount: nat, holders: nat)
    requires holders > 0
    ensures holders == documentCount ==> documentCount as real / holders as real == 1.0
  {
  }

  /** Relevance of d: the contributions of the words, summed in order. */
  function Relevance(index: Index, documentCount: nat, ln: real -> real, words: seq<string>, d: int): real {
    if words == [] then 0.0
    else Relevance(index, documentCount, ln, words[..|words| - 1], d)
         + Contribution(index, documentCount, ln, words[|words| - 1], d)
  }

  /** A document FindAllDocuments returns: stored, listed under some
      plus-word, accepted by the predicate, and listed under no minus-word. */
  predicate IsCandidate(index: Index, documents: map<int, DocumentData>, q: Query,
                        pred: DocumentPredicate, d: int) {
    && d in documents
    && Posted(index, q.plusWords, d)
    && pred(d, documents[d].status, documents[d].rating)
    && !Posted(index, q.minusWords, d)
  }

  /** The result record for d: its id, its relevance for the plus-words, its stored rating. */
  function Scored(index: Index, documents: map<int, DocumentData>, ln: real -> real,
                  q: Query, d: int): (doc: Document)
    requires d in documents
    ensures doc.id == d && doc.rating == documents[d].rating
  {
    Document(d, Relevance(index, |documents|, ln, q.plusWords, d), documents[d].rating)
  }

  function Ids(s: seq<Document>): (ids: seq<int>)
    ensures |ids| == |s| && forall k :: 0 <= k < |s| ==> ids[k] == s[k].id
  {
    if s == [] then [] else Ids(s[..|s| - 1]) + [s[|s| - 1].id]
  }

  /** What FindAllDocuments returns: every candidate exactly once, in
      increasing id order (the iteration order of its relevance map), each
      with its relevance and stored rating. */
  ghost predicate IsAllDocuments(index: Index, documents: map<int, DocumentData>, q: Query,
                                 pred: DocumentPredicate, ln: real -> real, m: seq<Document>) {
    && (forall i, j :: 0 <= i < j < |m| ==> m[i].id < m[j].id)
    && (forall k :: 0 <= k < |m| ==>
          IsCandidate(index, documents, q, pred, m[k].id) &&
          m[k] == Scored(index, documents, ln, q, m[k].id))
    && (forall d :: IsCandidate(index, documents, q, pred, d) ==> d in Ids(m))
  }

  /** A correct answer of FindTopDocuments: at most five correctly scored
      candidates, each once, sorted by rank; all candidates when fewer than
      five are returned; and no candidate left out outranks one returned. */
  ghost predicate IsTopDocuments(index: Index, documents: map<int, DocumentData>, q: Query,
                                 pred: DocumentPredicate, ln: real -> real, r: seq<Document>) {
    && |r| <= MaxResultDocumentCount
    && (forall k :: 0 <= k < |r| ==>
          IsCandidate(index, documents, q, pred, r[k].id) &&
          r[k] == Scored(index, documents, ln, q, r[k].id))
    && (forall i, j :: 0 <= i < j < |r| ==> r[i].id != r[j].id)
    && SortedByRank(r)
    && (|r| < MaxResultDocumentCount ==>
          forall d :: IsCandidate(index, documents, q, pred, d) ==> d in Ids(r))
    && (forall d, k :: IsCandidate(index, documents, q, pred, d) && d !in Ids(r) && 0 <= k < |r| ==>
          !Outranks(Scored(index, documents, ln, q, d), r[k]))
  }

  /** Extending the word list by one word adds that word's postings. */
  lemma PostedStep(index: Index, words: seq<string>, i: nat, d: int)
    requires i < |words|
    ensures Posted(index, words[..i + 1], d) <==>
              Posted(index, words[..i], d) || (words[i] in index && d in index[words[i]])
  {
    assert words[..i + 1] == words[..i] + [words[i]];
  }

  lemma RelevanceStep(index: Index, documentCount: nat, ln: real -> real, words: seq<string>, i: nat, d: int)
    requires i < |words|
    ensures Relevance(index, documentCount, ln, words[..i + 1], d) ==
              Relevance(index, documentCount, ln, words[..i], d) + Contribution(index, documentCount, ln, words[i], d)
  {
    assert words[..i + 1][..i] == words[..i];
  }

  /** A document listed under none of the words has relevance zero: the
      relevance map of FindAllDocuments gets an entry only from a posting. */
  lemma {:induction false} UnpostedRelevance(index: Index, documentCount: nat, ln: real -> real, words: seq<string>, d: int)
    requires !Posted(index, words, d)
    ensures Relevance(index, documentCount, ln, words, d) == 0.0
  {
    if words != [] {
      var n := |words| - 1;
      assert words == words[..n] + [words[n]];
      assert !Posted(index, words[..n], d) by {
        forall w | w in words[..n] ensures !(w in index && d in index[w]) {
          assert w in words;
        }
      }
      UnpostedRelevance(index, documentCount, ln, words[..n], d);
      assert !(words[n] in index && d in index[words[n]]);
    }
  }

  /** Relevance is additive over the words: it is the sum of the
      relevances of the two halves of the query. */
  lemma {:induction false} RelevanceAppend(index: Index, documentCount: nat, ln: real -> real,
                                           a: seq<string>, b: seq<string>, d: int)
    ensures Relevance(index, documentCount, ln, a + b, d) ==
              Relevance(index, documentCount, ln, a, d) + Relevance(index, documentCount, ln, b, d)
  {
    if b == [] {
      assert a + b == a;
    } else {
      var n := |b| - 1;
      assert (a + b)[..|a + b| - 1] == a + b[..n];
      RelevanceAppend(index, documentCount, ln, a, b[..n], d);
    }
  }

  /** An element that occurs at two positions is counted at least twice. */
  lemma CountAtLeastTwo<T>(s: seq<T>, i: nat, j: nat)
    requires i < j < |s| && s[i] == s[j]
    ensures multiset(s)[s[i]] >= 2
  {
    assert s == s[..j] + [s[j]] + s[j + 1..];
    assert s[i] in s[..j];
  }

  /** In a sequence without repeated elements every element is counted once. */
  lemma {:induction false} CountAtMostOne<T>(s: seq<T>)
    requires forall i, j :: 0 <= i < j < |s| ==> s[i] != s[j]
    ensures forall x :: multiset(s)[x] <= 1
  {
    if s != [] {
      var n := |s| - 1;
      assert s == s[..n] + [s[n]];
      CountAtMostOne(s[..n]);
      assert s[n] !in s[..n];
    }
  }

  /** A permutation of a sequence with distinct ids has distinct ids. */
  lemma PermutationKeepsIdsDistinct(matched: seq<Document>, sorted: seq<Document>)
    requires multiset(sorted) == multiset(matched)
    requires forall i, j :: 0 <= i < j < |matched| ==> matched[i].id < matched[j].id
    requires forall i, j :: 0 <= i < j < |sorted| && sorted[i].id == sorted[j].id ==> sorted[i] == sorted[j]
    ensures forall i, j :: 0 <= i < j < |sorted| ==> sorted[i].id != sorted[j].id
  {
    assert forall i, j :: 0 <= i < j < |matched| ==> matched[i] != matched[j];
    CountAtMostOne(matched);
    forall i, j | 0 <= i < j < |sorted| ensures sorted[i].id != sorted[j].id {
      if sorted[i].id == sorted[j].id {
        CountAtLeastTwo(sorted, i, j);
        assert false;
      }
    }
  }

  /** Every element of a permutation of FindAllDocuments' result is a
      correctly scored candidate. */
  lemma PermutationScored(index: Index, documents: map<int, DocumentData>, q: Query, pred: DocumentPredicate,
                          ln: real -> real, matched: seq<Document>, sorted: seq<Document>)
    requires IsAllDocuments(index, documents, q, pred, ln, matched)
    requires multiset(sorted) == multiset(matched)
    ensures forall k :: 0 <= k < |sorted| ==>
              IsCandidate(index, documents, q, pred, sorted[k].id) &&
              sorted[k] == Scored(index, documents, ln, q, sorted[k].id)
  {
    forall k | 0 <= k < |sorted|
      ensures IsCandidate(index, documents, q, pred, sorted[k].id)
      ensures sorted[k] == Scored(index, documents, ln, q, sorted[k].id)
    {
      assert sorted[k] in multiset(matched);
      var j :| 0 <= j < |matched| && matched[j] == sorted[k];
    }
  }

  /** Every candidate appears in a permutation of FindAllDocuments' result,
      with its score. */
  lemma PermutationCovers(index: Index, documents: map<int, DocumentData>, q: Query, pred: DocumentPredicate,
                          ln: real -> real, matched: seq<Document>, sorted: seq<Document>, d: int)
    requires IsAllDocuments(index, documents, q, pred, ln, matched)
    requires multiset(sorted) == multiset(matched)
    requires IsCandidate(index, documents, q, pred, d)
    ensures exists p :: 0 <= p < |sorted| && sorted[p] == Scored(index, documents, ln, q, d)
  {
    var j :| 0 <= j < |matched| && Ids(matched)[j] == d;
    assert matched[j] in multiset(sorted);
    var p :| 0 <= p < |sorted| && sorted[p] == matched[j];
  }

  /** The first min(5, |sorted|) elements of a rank-sorted permutation of
      FindAllDocuments' result are a correct FindTopDocuments answer. */
  lemma TopOfRanked(index: Index, documents: map<int, DocumentData>, q: Query, pred: DocumentPredicate,
                    ln: real -> real, matched: seq<Document>, sorted: seq<Document>, n: nat)
    requires IsAllDocuments(index, documents, q, pred, ln, matched)
    requires multiset(sorted) == multiset(matched) && SortedByRank(sorted)
    requires n == if |sorted| > MaxResultDocumentCount then MaxResultDocumentCount else |sorted|
    ensures IsTopDocuments(index, documents, q, pred, ln, sorted[..n])
  {
    PermutationScored(index, documents, q, pred, ln, matched, sorted);
    PermutationKeepsIdsDistinct(matched, sorted);
    PrefixKeeps(index, documents, q, pred, ln, sorted, n);
    forall d | IsCandidate(index, documents, q, pred, d)
      ensures n == |sorted| ==> d in Ids(sorted[..n])
      ensures d in Ids(sorted[..n]) ||
              forall k :: 0 <= k < n ==> !Outranks(Scored(index, documents, ln, q, d), sorted[..n][k])
    {
      PermutationCovers(index, documents, q, pred, ln, matched, sorted, d);
      PrefixCovers(index, documents, q, pred, ln, sorted, n, d);
    }
  }

  /** A prefix keeps what holds of every element, the distinct ids and the order. */
  lemma PrefixKeeps(index: Index, documents: map<int, DocumentData>, q: Query, pred: DocumentPredicate,
                    ln: real -> real, sorted: seq<Document>, n: nat)
    requires n <= |sorted|
    requires forall k :: 0 <= k < |sorted| ==>
               IsCandidate(index, documents, q, pred, sorted[k].id) &&
               sorted[k] == Scored(index, documents, ln, q, sorted[k].id)
    requires forall i, j :: 0 <= i < j < |sorted| ==> sorted[i].id != sorted[j].id
    requires SortedByRank(sorted)
    ensures forall k :: 0 <= k < n ==>
              IsCandidate(index, documents, q, pred, sorted[..n][k].id) &&
              sorted[..n][k] == Scored(index, documents, ln, q, sorted[..n][k].id)
    ensures forall i, j :: 0 <= i < j < n ==> sorted[..n][i].id != sorted[..n][j].id
    ensures SortedByRank(sorted[..n])
  {
  }

  /** A candidate found at position p of the sorted list is returned when
      p < n, and does not outrank any returned document otherwise. */
  lemma PrefixCovers(index: Index, documents: map<int, DocumentData>, q: Query, pred: DocumentPredicate,
                     ln: real -> real, sorted: seq<Document>, n: nat, d: int)
    requires n <= |sorted| && SortedByRank(sorted) && d in documents
    requires exists p :: 0 <= p < |sorted| && sorted[p] == Scored(index, documents, ln, q, d)
    ensures n == |sorted| ==> d in Ids(sorted[..n])
    ensures d in Ids(sorted[..n]) ||
            forall k :: 0 <= k < n ==> !Outranks(Scored(index, documents, ln, q, d), sorted[..n][k])
  {
    var p :| 0 <= p < |sorted| && sorted[p] == Scored(index, documents, ln, q, d);
    if p < n {
      assert Ids(sorted[..n])[p] == d;
    }
  }
}
